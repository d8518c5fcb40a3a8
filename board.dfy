/** The engine's mutable `Board`: the 8x8 array of squares, written in place,
    and the two piece lists `black_pos` / `white_pos` that `update_board_data`
    rebuilds after every write. Every operation is specified by the grid
    value `cells` the array holds and the functions of modules Grid, Bracket
    and Moves. */
module BoardState {
  import opened Grid
  import opened Bracket
  import opened Moves
  import opened Evaluation

  /** `append(flipped, rest...)` in front of a walk that may still fail. */
  function Prepend(f: seq<Pos>, w: Option<seq<Pos>>): Option<seq<Pos>> {
    match w
    case None => None
    case Some(rest) => Some(f + rest)
  }

  lemma AppendCaptures(g: Grid, pos: Pos, color: Side, opp: Side, e: nat, total: seq<Pos>, flipped: seq<Pos>, closed: bool)
    requires color != opp && e < |Directions|
    requires closed <==> Walk(g, pos, Directions[e], color, opp, MaxSteps).Some?
    requires closed ==> flipped == Walk(g, pos, Directions[e], color, opp, MaxSteps).value
    requires total == [pos] + CapturesUpTo(g, pos, color, opp, e) + (if closed then flipped else [])
    ensures total == [pos] + CapturesUpTo(g, pos, color, opp, e + 1)
  {
  }

  /** One square of the row-major scan of `update_board_data`. */
  lemma RowPiecesNext(g: Grid, i: nat, j: nat, list: seq<Pos>, c: Color)
    requires i < 8 && j < 8
    requires list == RowsBefore(g, c, i) + RowPieces(g, c, i, j) + (if g[i][j] == c then [Pos(i, j)] else [])
    ensures list == RowsBefore(g, c, i) + RowPieces(g, c, i, j + 1)
  {
  }

  lemma PrependNil(w: Option<seq<Pos>>)
    ensures Prepend([], w) == w
  {
    match w
    case None =>
    case Some(rest) => assert [] + rest == rest;
  }

  lemma PrependStep(f: seq<Pos>, n: Pos, w: Option<seq<Pos>>)
    ensures Prepend(f, Prepend([n], w)) == Prepend(f + [n], w)
  {
    match w
    case None =>
    case Some(rest) => assert f + ([n] + rest) == (f + [n]) + rest;
  }

  /** `already_checked`: a linear search of the candidate list. */
  method AlreadyChecked(checked: seq<Pos>, pos: Pos) returns (found: bool)
    ensures found <==> pos in checked
  {
    var t := 0;
    while t < |checked|
      invariant 0 <= t <= |checked|
      invariant pos !in checked[..t]
    {
      if checked[t] == pos {
        return true;
      }
      assert checked[..t + 1] == checked[..t] + [checked[t]];
      t := t + 1;
    }
    assert checked[..t] == checked;
    return false;
  }

  class Board {
    var squares: array2<Color>
    var blackPos: seq<Pos>
    var whitePos: seq<Pos>
    /** The squares as a grid value: what the specification talks about. */
    ghost var cells: Grid

    /** The array is 8x8 and holds `cells`. */
    ghost predicate Synced()
      reads this, squares
    {
      && squares.Length0 == 8 && squares.Length1 == 8
      && forall i, k :: 0 <= i < 8 && 0 <= k < 8 ==> squares[i, k] == cells[i][k]
    }

    /** ... and the piece lists are those of the squares. */
    ghost predicate Valid()
      reads this, squares
    {
      Synced() && blackPos == Pieces(cells, B) && whitePos == Pieces(cells, W)
    }

    /** `initBoard("default")`: every square is set to "E" and the four centre
        pieces are placed (once per square, as the set-up loop does), then the
        piece lists are built. */
    constructor Init()
      ensures Valid() && fresh(squares)
      ensures cells == Start()
    {
      var a := new Color[8, 8]((i, j) => E);
      squares := a;
      cells := EmptyGrid();
      blackPos := [];
      whitePos := [];
      new;
      var i := 0;
      while i < 8
        invariant 0 <= i <= 8 && Synced() && squares == a
        invariant i == 0 ==> cells == EmptyGrid()
        invariant i > 0 ==> cells == Start()
      {
        var j := 0;
        while j < 8
          invariant 0 <= j <= 8 && Synced() && squares == a
          invariant i == 0 && j == 0 ==> cells == EmptyGrid()
          invariant i > 0 || j > 0 ==> cells == Start()
        {
          SetUpSquare(i, j);
          j := j + 1;
        }
        i := i + 1;
      }
      UpdateBoardData();
    }

    /** One pass of the default set-up loop: square (i, j) is emptied and
        the four centre pieces are placed again. */
    method SetUpSquare(i: int, j: int)
      requires Synced() && 0 <= i < 8 && 0 <= j < 8
      requires cells == EmptyGrid() || cells == Start()
      modifies this, squares
      ensures Valid() && squares == old(squares) && cells == Start()
    {
      ghost var before := cells;
      SetSquare(i, j, E);
      PlacePieces([Pos(3, 3), Pos(4, 4)], W);
      PlacePieces([Pos(4, 3), Pos(3, 4)], B);
      ResetSquare(before, i, j);
    }

    /** `squares[i][j] = color` on its own, without rebuilding the piece lists. */
    method SetSquare(i: int, j: int, color: Color)
      requires Synced() && 0 <= i < 8 && 0 <= j < 8
      modifies this, squares
      ensures Synced() && squares == old(squares)
      ensures cells == Paint(old(cells), [Pos(i, j)], color)
      ensures blackPos == old(blackPos) && whitePos == old(whitePos)
    {
      ghost var before := cells;
      squares[i, j] := color;
      cells := Paint(cells, [Pos(i, j)], color);
      forall r, k | 0 <= r < 8 && 0 <= k < 8
        ensures squares[r, k] == cells[r][k]
      {
        PaintAt(before, [Pos(i, j)], color, Pos(r, k));
      }
    }

    /** `new_board = *board`: a board with its own copy of the squares and the
        same piece lists. */
    constructor Copy(from: Board)
      requires from.Synced()
      ensures Synced() && fresh(squares)
      ensures cells == from.cells
      ensures blackPos == from.blackPos && whitePos == from.whitePos
    {
      var a := from.squares;
      squares := new Color[8, 8]((i: nat, j: nat) requires i < 8 && j < 8 reads a => a[i, j]);
      cells := from.cells;
      blackPos := from.blackPos;
      whitePos := from.whitePos;
    }

    /** `update_board_data`: rebuild both piece lists by a row-major scan. */
    method UpdateBoardData()
      requires Synced()
      modifies this
      ensures Valid() && squares == old(squares) && cells == old(cells)
    {
      whitePos := [];
      blackPos := [];
      var i := 0;
      while i < 8
        invariant 0 <= i <= 8 && Synced() && squares == old(squares) && cells == old(cells)
        invariant whitePos == RowsBefore(cells, W, i)
        invariant blackPos == RowsBefore(cells, B, i)
      {
        var j := 0;
        while j < 8
          invariant 0 <= j <= 8 && Synced() && squares == old(squares) && cells == old(cells)
          invariant whitePos == RowsBefore(cells, W, i) + RowPieces(cells, W, i, j)
          invariant blackPos == RowsBefore(cells, B, i) + RowPieces(cells, B, i, j)
        {
          assert squares[i, j] == cells[i][j];
          if squares[i, j] == W {
            whitePos := whitePos + [Pos(i, j)];
          } else if squares[i, j] == B {
            blackPos := blackPos + [Pos(i, j)];
          }
          RowPiecesNext(cells, i, j, whitePos, W);
          RowPiecesNext(cells, i, j, blackPos, B);
          j := j + 1;
        }
        i := i + 1;
      }
    }

    /** `placePieces(pos, color)`: write `color` on every listed square, then
        rebuild the piece lists. The squares must be on the board (Go would
        panic on an out-of-range index). */
    method PlacePieces(pos: seq<Pos>, color: Color)
      requires Synced()
      requires forall t :: 0 <= t < |pos| ==> ValidSquare(pos[t])
      modifies this, squares
      ensures Valid() && squares == old(squares)
      ensures cells == Paint(old(cells), pos, color)
    {
      var t := 0;
      while t < |pos|
        invariant 0 <= t <= |pos| && squares == old(squares) && cells == old(cells)
        invariant forall r, k :: 0 <= r < 8 && 0 <= k < 8 ==>
                    squares[r, k] == if Pos(r, k) in pos[..t] then color else cells[r][k]
      {
        assert pos[..t + 1] == pos[..t] + [pos[t]];
        squares[pos[t].row, pos[t].col] := color;
        t := t + 1;
      }
      assert pos[..t] == pos;
      cells := Paint(cells, pos, color);
      UpdateBoardData();
    }

    /** The inner loop of `check_bracket` for direction `d`: step away from
        `pos` at most eight times, collecting opponent pieces; `closed` tells
        whether a `color` piece ended the run. */
    method WalkFrom(pos: Pos, d: Dir, color: Side, opp: Side) returns (flipped: seq<Pos>, closed: bool)
      requires Synced() && color != opp
      ensures closed <==> Walk(cells, pos, d, color, opp, MaxSteps).Some?
      ensures closed ==> flipped == Walk(cells, pos, d, color, opp, MaxSteps).value
    {
      ghost var g := cells;
      flipped := [];
      var cur := pos;
      var i := 0;
      PrependNil(Walk(g, pos, d, color, opp, MaxSteps));
      while i < MaxSteps
        invariant 0 <= i <= MaxSteps
        invariant Walk(g, pos, d, color, opp, MaxSteps) == Prepend(flipped, Walk(g, cur, d, color, opp, MaxSteps - i))
      {
        ghost var prev := cur;
        cur := Next(cur, d);
        if !ValidSquare(cur) || squares[cur.row, cur.col] == E {
          assert Walk(g, prev, d, color, opp, MaxSteps - i) == None;
          return flipped, false;
        } else if squares[cur.row, cur.col] == opp {
          assert Walk(g, prev, d, color, opp, MaxSteps - i) == Prepend([cur], Walk(g, cur, d, color, opp, MaxSteps - i - 1));
          PrependStep(flipped, cur, Walk(g, cur, d, color, opp, MaxSteps - i - 1));
          flipped := flipped + [cur];
        } else {
          assert Walk(g, prev, d, color, opp, MaxSteps - i) == Some([]);
          assert flipped + [] == flipped;
          return flipped, true;
        }
        i := i + 1;
      }
      return flipped, false;
    }

    /** `check_bracket(pos, color, opp_color)`: the move square followed by
        the pieces every direction captures, in direction order. */
    method CheckBracket(pos: Pos, color: Side, opp: Side) returns (total: seq<Pos>)
      requires Synced() && color != opp
      ensures total == FlipSet(cells, pos, color, opp)
    {
      ghost var g := cells;
      total := [pos];
      var e := 0;
      while e < |Directions|
        invariant 0 <= e <= |Directions|
        invariant total == [pos] + CapturesUpTo(g, pos, color, opp, e)
      {
        var flipped, closed := WalkFrom(pos, Directions[e], color, opp);
        if closed {
          total := total + flipped;
        }
        AppendCaptures(g, pos, color, opp, e, total, flipped, closed);
        e := e + 1;
      }
    }

    /** `find_legal_moves(color)`: examine the eight neighbours (offsets j, k
        in -1..1) of every opponent piece, in list order; an empty on-board
        neighbour not yet checked is checked once, and kept as a move when its
        flip set captures something. */
    method FindLegalMoves(color: Side) returns (moves: seq<Pos>, flips: seq<seq<Pos>>)
      requires Valid()
      ensures moves == LegalMoves(cells, color).moves
      ensures flips == LegalMoves(cells, color).flips
    {
      ghost var g := cells;
      var opponentPos: seq<Pos>;
      var oppColor: Side;
      if color == W {
        opponentPos := blackPos;
        oppColor := B;
      } else {
        opponentPos := whitePos;
        oppColor := W;
      }
      assert opponentPos == Pieces(g, Other(color)) && oppColor == Other(color);
      var checked: seq<Pos> := [];
      moves := [];
      flips := [];
      var t := 0;
      while t < |opponentPos|
        invariant 0 <= t <= |opponentPos|
        invariant Scan(checked, moves, flips) == ScanBefore(g, color, oppColor, opponentPos, t, 0)
      {
        checked, moves, flips := VisitNeighbours(opponentPos[t], color, oppColor, checked, moves, flips, opponentPos, t);
        t := t + 1;
      }
    }

    /** The eight neighbours of the opponent piece `opps[t]` (offsets j, k in
        -1..1, the piece itself included as the empty-square test skips it). */
    method VisitNeighbours(p: Pos, color: Side, oppColor: Side, checked: seq<Pos>, moves: seq<Pos>, flips: seq<seq<Pos>>,
                           ghost opps: seq<Pos>, ghost t: nat)
        returns (checked': seq<Pos>, moves': seq<Pos>, flips': seq<seq<Pos>>)
      requires Valid() && color != oppColor && t < |opps| && opps[t] == p
      requires Scan(checked, moves, flips) == ScanBefore(cells, color, oppColor, opps, t, 0)
      ensures Scan(checked', moves', flips') == ScanBefore(cells, color, oppColor, opps, t, 9)
    {
      checked', moves', flips' := checked, moves, flips;
      var j := -1;
      while j < 2
        invariant -1 <= j <= 2
        invariant Scan(checked', moves', flips') == ScanBefore(cells, color, oppColor, opps, t, 3 * (j + 1))
      {
        checked', moves', flips' := VisitRow(p, j, color, oppColor, checked', moves', flips', opps, t);
        j := j + 1;
      }
    }

    /** The three neighbours of `opps[t]` in row offset `j` (offsets k in -1..1). */
    method VisitRow(p: Pos, j: int, color: Side, oppColor: Side, checked: seq<Pos>, moves: seq<Pos>, flips: seq<seq<Pos>>,
                    ghost opps: seq<Pos>, ghost t: nat)
        returns (checked': seq<Pos>, moves': seq<Pos>, flips': seq<seq<Pos>>)
      requires Valid() && color != oppColor && t < |opps| && opps[t] == p && -1 <= j <= 1
      requires Scan(checked, moves, flips) == ScanBefore(cells, color, oppColor, opps, t, 3 * (j + 1))
      ensures Scan(checked', moves', flips') == ScanBefore(cells, color, oppColor, opps, t, 3 * (j + 1) + 3)
    {
      checked', moves', flips' := checked, moves, flips;
      var k := -1;
      while k < 2
        invariant -1 <= k <= 2
        invariant Scan(checked', moves', flips') == ScanBefore(cells, color, oppColor, opps, t, 3 * (j + 1) + (k + 1))
      {
        NeighbourIndex(p, j, k);
        ScanBeforeNext(cells, color, oppColor, opps, t, 3 * (j + 1) + (k + 1));
        checked', moves', flips' := VisitSquare(Pos(p.row + j, p.col + k), color, oppColor, checked', moves', flips');
        k := k + 1;
      }
    }

    /** One neighbour square in `find_legal_moves`: checked once when it is
        on the board and empty, and kept as a move when it captures. */
    method VisitSquare(temp: Pos, color: Side, oppColor: Side, checked: seq<Pos>, moves: seq<Pos>, flips: seq<seq<Pos>>)
        returns (checked': seq<Pos>, moves': seq<Pos>, flips': seq<seq<Pos>>)
      requires Valid() && color != oppColor
      ensures Scan(checked', moves', flips') == ScanStep(cells, color, oppColor, Scan(checked, moves, flips), temp)
    {
      checked', moves', flips' := checked, moves, flips;
      if ValidSquare(temp) && squares[temp.row, temp.col] == E {
        var seen := AlreadyChecked(checked, temp);
        if !seen {
          var flipped := CheckBracket(temp, color, oppColor);
          if |flipped| > 1 {
            moves' := moves + [temp];
            flips' := flips + [flipped];
          }
          checked' := checked + [temp];
        }
      }
    }

    /** `check_game_over`: the verdict and whether the game has ended. */
    method CheckGameOver() returns (winner: Verdict, over: bool)
      requires Valid()
      ensures (winner, over) == GameResult(cells)
    {
      var blackMoves, blackFlips := FindLegalMoves(B);
      var whiteMoves, whiteFlips := FindLegalMoves(W);
      if |blackMoves| == 0 && |whiteMoves| == 0 {
        if |blackPos| > |whitePos| {
          return Won(B), true;
        } else if |blackPos| < |whitePos| {
          return Won(W), true;
        } else {
          return Draw, true;
        }
      }
      return Undecided, false;
    }

    /** `check_game_state`: the phase from the number of pieces. */
    method CheckGameState() returns (phase: Phase)
      requires Valid()
      ensures phase == GamePhase(cells)
    {
      var total := |blackPos| + |whitePos|;
      if total < 20 {
        phase := EarlyGame;
      } else if total < 50 {
        phase := MidGame;
      } else {
        phase := LateGame;
      }
    }

    /** `eval_score(player)` of a board whose piece lists are up to date, as
        `heur_score`, `piece_diff_score` and `check_game_state` read them. */
    method Evaluate(p: Player) returns (score: int)
      requires Valid() && Evaluable(p, cells)
      ensures score == EvalScore(p, cells)
    {
      var a := squares;
      var grid: seq<seq<Color>> := seq(8, i requires 0 <= i < 8 reads a => seq(8, k requires 0 <= k < 8 reads a => a[i, k]));
      forall i | 0 <= i < 8
        ensures grid[i] == cells[i]
      {
        assert forall k :: 0 <= k < 8 ==> grid[i][k] == a[i, k];
      }
      assert grid == cells;
      score := EvalScore(p, grid);
    }
  }
}
