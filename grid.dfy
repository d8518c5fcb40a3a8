/** Squares, colours and the 8x8 grid of an Othello board, as values.
    The mutable board of the engine (module BoardState) is specified by the
    value of its grid, and everything the search reasons about is a Grid. */
module Grid {

  /** What a square holds: the strings "E", "B" and "W" of the engine. */
  datatype Color = E | B | W

  /** A colour a player can own. */
  type Side = c: Color | c != E witness B

  /** The other player's colour. */
  function Other(c: Side): (r: Side)
    ensures r != c
  {
    if c == B then W else B
  }

  /** A board coordinate `{row, col}`; it may lie off the board. */
  datatype Pos = Pos(row: int, col: int)

  ghost predicate IsGrid(g: seq<seq<Color>>) {
    |g| == 8 && forall r :: 0 <= r < 8 ==> |g[r]| == 8
  }

  /** The 8x8 array of squares, row-major: g[row][col]. */
  type Grid = g: seq<seq<Color>> | IsGrid(g) witness EmptyGrid()

  function EmptyGrid(): seq<seq<Color>> {
    seq(8, r => seq(8, k => E))
  }

  /** `valid_square`: whether a coordinate lies on the board. */
  predicate ValidSquare(p: Pos) {
    !(p.row > 7 || p.row < 0 || p.col > 7 || p.col < 0)
  }

  /** The 64 squares of the board. */
  ghost function Squares(): set<Pos> {
    set r, k | 0 <= r < 8 && 0 <= k < 8 :: Pos(r, k)
  }

  lemma ValidSquareIsSquare(p: Pos)
    ensures ValidSquare(p) <==> p in Squares()
  {
    if ValidSquare(p) {
      assert p == Pos(p.row, p.col);
    }
  }

  function At(g: Grid, p: Pos): Color
    requires ValidSquare(p)
  {
    g[p.row][p.col]
  }

  /** The grid after every square listed in `ps` has been set to `c`
      (the write loop of `placePieces`). */
  function Paint(g: Grid, ps: seq<Pos>, c: Color): (r: Grid)
  {
    seq(8, i requires 0 <= i < 8 => seq(8, k requires 0 <= k < 8 => if Pos(i, k) in ps then c else g[i][k]))
  }

  lemma PaintAt(g: Grid, ps: seq<Pos>, c: Color, p: Pos)
    requires ValidSquare(p)
    ensures At(Paint(g, ps, c), p) == if p in ps then c else At(g, p)
  {
  }

  /** Two grids that agree on every square are equal. */
  lemma GridExt(g: Grid, h: Grid)
    requires forall p :: ValidSquare(p) ==> At(g, p) == At(h, p)
    ensures g == h
  {
    forall r | 0 <= r < 8
      ensures g[r] == h[r]
    {
      forall k | 0 <= k < 8
        ensures g[r][k] == h[r][k]
      {
        assert At(g, Pos(r, k)) == At(h, Pos(r, k));
      }
    }
  }

  /** Row-major order on coordinates: the order in which `update_board_data` scans. */
  predicate RowMajorLess(p: Pos, q: Pos) {
    p.row < q.row || (p.row == q.row && p.col < q.col)
  }

  predicate RowMajorSorted(s: seq<Pos>) {
    forall i, j :: 0 <= i < j < |s| ==> RowMajorLess(s[i], s[j])
  }

  predicate Distinct<T(==)>(s: seq<T>) {
    forall i, j :: 0 <= i < j < |s| ==> s[i] != s[j]
  }

  /** The squares of colour `c` in row `i` left of column `j`, left to right. */
  function RowPieces(g: Grid, c: Color, i: nat, j: nat): seq<Pos>
    requires i < 8 && j <= 8
  {
    if j == 0 then [] else RowPieces(g, c, i, j - 1) + (if g[i][j - 1] == c then [Pos(i, j - 1)] else [])
  }

  /** The squares of colour `c` in the rows above row `i`, in row-major order. */
  function RowsBefore(g: Grid, c: Color, i: nat): seq<Pos>
    requires i <= 8
  {
    if i == 0 then [] else RowsBefore(g, c, i - 1) + RowPieces(g, c, i - 1, 8)
  }

  /** `black_pos` / `white_pos`: every square of colour `c`, row-major, as
      `update_board_data` builds it. */
  function Pieces(g: Grid, c: Color): seq<Pos> {
    RowsBefore(g, c, |g|)
  }

  function Count(g: Grid, c: Color): nat {
    |Pieces(g, c)|
  }

  /** Number of pieces on the board: `len(black_pos) + len(white_pos)`. */
  function Total(g: Grid): nat {
    Count(g, B) + Count(g, W)
  }

  /** The set of squares holding colour `c`. */
  ghost function CellsOf(g: Grid, c: Color): set<Pos> {
    set p | p in Squares() && At(g, p) == c
  }

  lemma {:induction false} RowPiecesSpec(g: Grid, c: Color, i: nat, j: nat)
    requires i < 8 && j <= 8
    ensures forall p :: p in RowPieces(g, c, i, j) <==> p.row == i && 0 <= p.col < j && g[i][p.col] == c
    ensures forall k :: 0 <= k < |RowPieces(g, c, i, j)| ==> RowPieces(g, c, i, j)[k].row == i
    ensures RowMajorSorted(RowPieces(g, c, i, j))
    ensures |RowPieces(g, c, i, j)| <= j
  {
    if j > 0 {
      RowPiecesSpec(g, c, i, j - 1);
      var prev := RowPieces(g, c, i, j - 1);
      assert forall k :: 0 <= k < |prev| ==> RowMajorLess(prev[k], Pos(i, j - 1)) by {
        forall k | 0 <= k < |prev| ensures RowMajorLess(prev[k], Pos(i, j - 1)) {
          assert prev[k] in prev;
        }
      }
    }
  }

  lemma {:induction false} RowsBeforeSpec(g: Grid, c: Color, i: nat)
    requires i <= 8
    ensures forall p :: p in RowsBefore(g, c, i) <==> ValidSquare(p) && p.row < i && At(g, p) == c
    ensures RowMajorSorted(RowsBefore(g, c, i))
  {
    if i > 0 {
      RowsBeforeSpec(g, c, i - 1);
      RowPiecesSpec(g, c, i - 1, 8);
      var prev := RowsBefore(g, c, i - 1);
      var row := RowPieces(g, c, i - 1, 8);
      forall k, l | 0 <= k < l < |prev + row|
        ensures RowMajorLess((prev + row)[k], (prev + row)[l])
      {
        if l >= |prev| && k < |prev| {
          assert (prev + row)[k] in prev;
          assert (prev + row)[l] == row[l - |prev|];
        } else if l >= |prev| {
          assert (prev + row)[k] == row[k - |prev|];
          assert (prev + row)[l] == row[l - |prev|];
        }
      }
    }
  }

  lemma {:induction false} RowsBeforeTotal(g: Grid, i: nat)
    requires i <= 8
    ensures |RowsBefore(g, B, i)| + |RowsBefore(g, W, i)| <= 8 * i
  {
    if i > 0 {
      RowsBeforeTotal(g, i - 1);
      RowPiecesTotal(g, i - 1, 8);
    }
  }

  lemma {:induction false} RowPiecesTotal(g: Grid, i: nat, j: nat)
    requires i < 8 && j <= 8
    ensures |RowPieces(g, B, i, j)| + |RowPieces(g, W, i, j)| <= j
  {
    if j > 0 {
      RowPiecesTotal(g, i, j - 1);
    }
  }

  /** An empty square in row `i` left of column `j` leaves a gap in the row. */
  lemma {:induction false} RowPiecesGap(g: Grid, i: nat, j: nat, k: nat)
    requires i < 8 && k < j <= 8 && g[i][k] == E
    ensures |RowPieces(g, B, i, j)| + |RowPieces(g, W, i, j)| < j
  {
    if k == j - 1 {
      RowPiecesTotal(g, i, j - 1);
    } else {
      RowPiecesGap(g, i, j - 1, k);
    }
  }

  lemma {:induction false} RowsBeforeGap(g: Grid, i: nat, r: nat, k: nat)
    requires r < i <= 8 && k < 8 && g[r][k] == E
    ensures |RowsBefore(g, B, i)| + |RowsBefore(g, W, i)| < 8 * i
  {
    if r == i - 1 {
      RowsBeforeTotal(g, i - 1);
      RowPiecesGap(g, i - 1, 8, k);
    } else {
      RowsBeforeGap(g, i - 1, r, k);
      RowPiecesTotal(g, i - 1, 8);
    }
  }

  /** A board with an empty square holds fewer than 64 pieces. */
  lemma TotalBelow(g: Grid, q: Pos)
    requires ValidSquare(q) && At(g, q) == E
    ensures Total(g) < 64
  {
    RowsBeforeGap(g, 8, q.row, q.col);
  }

  /** The piece lists hold exactly the squares of their colour, strictly in
      row-major order, and together never more than the 64 squares. */
  lemma PiecesSpec(g: Grid, c: Color)
    ensures forall p :: p in Pieces(g, c) <==> ValidSquare(p) && At(g, p) == c
    ensures RowMajorSorted(Pieces(g, c)) && Distinct(Pieces(g, c))
    ensures Total(g) <= 64
  {
    RowsBeforeSpec(g, c, 8);
    RowsBeforeTotal(g, 8);
  }

  /** At most 64 pieces are on the board. */
  lemma TotalBound(g: Grid)
    ensures Total(g) <= 64
  {
    PiecesSpec(g, B);
  }

  lemma {:induction false} DistinctCard<T>(s: seq<T>)
    requires Distinct(s)
    ensures |set x | x in s| == |s|
  {
    if s != [] {
      var t := s[..|s| - 1];
      assert Distinct(t);
      DistinctCard(t);
      assert (set x | x in s) == (set x | x in t) + {s[|s| - 1]};
      assert s[|s| - 1] !in t;
    }
  }

  /** A duplicate-free sequence has as many elements as the set it enumerates. */
  lemma EnumerationCard(s: seq<Pos>, a: set<Pos>)
    requires Distinct(s)
    requires forall p :: p in s <==> p in a
    ensures |s| == |a|
  {
    DistinctCard(s);
    assert (set x | x in s) == a;
  }

  /** `len(black_pos)` counts the black squares, and likewise for white. */
  lemma CountIsCard(g: Grid, c: Color)
    ensures Count(g, c) == |CellsOf(g, c)|
  {
    var s := Pieces(g, c);
    PiecesSpec(g, c);
    forall p
      ensures p in s <==> p in CellsOf(g, c)
    {
      ValidSquareIsSquare(p);
    }
    EnumerationCard(s, CellsOf(g, c));
  }

  /** The default start position of `initBoard`: white on (3,3) and (4,4),
      black on (4,3) and (3,4), every other square empty. */
  function Start(): (g: Grid)
  {
    Paint(Paint(EmptyGrid(), [Pos(3, 3), Pos(4, 4)], W), [Pos(4, 3), Pos(3, 4)], B)
  }

  /** The four centre squares of the start position. */
  predicate Centre(p: Pos) {
    p == Pos(3, 3) || p == Pos(4, 4) || p == Pos(4, 3) || p == Pos(3, 4)
  }

  /** Placing the four centre pieces on a grid that is empty off the centre
      gives the start position, whatever the centre held before. */
  lemma StartFrom(h: Grid)
    requires forall p :: ValidSquare(p) && !Centre(p) ==> At(h, p) == E
    ensures Paint(Paint(h, [Pos(3, 3), Pos(4, 4)], W), [Pos(4, 3), Pos(3, 4)], B) == Start()
  {
    var e: Grid := EmptyGrid();
    forall p | ValidSquare(p)
      ensures At(Paint(Paint(h, [Pos(3, 3), Pos(4, 4)], W), [Pos(4, 3), Pos(3, 4)], B), p) == At(Start(), p)
    {
      PaintAt(h, [Pos(3, 3), Pos(4, 4)], W, p);
      PaintAt(Paint(h, [Pos(3, 3), Pos(4, 4)], W), [Pos(4, 3), Pos(3, 4)], B, p);
      PaintAt(e, [Pos(3, 3), Pos(4, 4)], W, p);
      PaintAt(Paint(e, [Pos(3, 3), Pos(4, 4)], W), [Pos(4, 3), Pos(3, 4)], B, p);
    }
    GridExt(Paint(Paint(h, [Pos(3, 3), Pos(4, 4)], W), [Pos(4, 3), Pos(3, 4)], B), Start());
  }

  /** One pass of the set-up loop of `initBoard`: emptying square (i, j) and
      placing the four centre pieces, from the empty grid or from the start
      position, gives the start position; so the repeated placement is harmless. */
  lemma ResetSquare(g: Grid, i: int, j: int)
    requires g == EmptyGrid() || g == Start()
    requires 0 <= i < 8 && 0 <= j < 8
    ensures Paint(Paint(Paint(g, [Pos(i, j)], E), [Pos(3, 3), Pos(4, 4)], W), [Pos(4, 3), Pos(3, 4)], B) == Start()
  {
    var h := Paint(g, [Pos(i, j)], E);
    var e: Grid := EmptyGrid();
    forall p | ValidSquare(p) && !Centre(p)
      ensures At(h, p) == E
    {
      PaintAt(g, [Pos(i, j)], E, p);
      PaintAt(e, [Pos(3, 3), Pos(4, 4)], W, p);
      PaintAt(Paint(e, [Pos(3, 3), Pos(4, 4)], W), [Pos(4, 3), Pos(3, 4)], B, p);
    }
    StartFrom(h);
  }
}
