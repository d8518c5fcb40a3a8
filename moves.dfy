/** Legal-move generation (`find_legal_moves`), the effect of playing a move,
    the end-of-game rule (`check_game_over`) and the game phase
    (`check_game_state`), all as functions of a grid. */
module Moves {
  import opened Grid
  import opened Bracket

  /** The square at offset {m / 3 - 1, m % 3 - 1} from `p`: m = 0, ..., 8 runs
      through the offsets in the order of the loops `for j` / `for k` of
      `find_legal_moves`. */
  function Neighbour(p: Pos, m: nat): Pos
    requires m < 9
  {
    Pos(p.row + m / 3 - 1, p.col + m % 3 - 1)
  }

  lemma NeighbourIndex(p: Pos, j: int, k: int)
    requires -1 <= j <= 1 && -1 <= k <= 1
    ensures 3 * (j + 1) + (k + 1) < 9
    ensures Neighbour(p, 3 * (j + 1) + (k + 1)) == Pos(p.row + j, p.col + k)
  {
  }

  /** The state of `find_legal_moves`: the candidates already examined, and
      the legal moves found so far with their flip sets. */
  datatype Scan = Scan(checked: seq<Pos>, moves: seq<Pos>, flips: seq<seq<Pos>>)

  /** One candidate square: examined when it is on the board, empty and not
      yet checked; kept when its flip set captures something. */
  function ScanStep(g: Grid, color: Side, opp: Side, s: Scan, cand: Pos): Scan
    requires color != opp
  {
    if ValidSquare(cand) && At(g, cand) == E && cand !in s.checked then
      var f := FlipSet(g, cand, color, opp);
      if |f| > 1 then Scan(s.checked + [cand], s.moves + [cand], s.flips + [f])
      else Scan(s.checked + [cand], s.moves, s.flips)
    else s
  }

  predicate ScanIndex(n: nat, i: nat, m: nat) {
    (i < n && m <= 9) || (i == n && m == 0)
  }

  /** The state after the neighbours of the opponent pieces before `opps[i]`
      and the first `m` neighbours of `opps[i]` have been examined. */
  function ScanBefore(g: Grid, color: Side, opp: Side, opps: seq<Pos>, i: nat, m: nat): Scan
    requires color != opp && ScanIndex(|opps|, i, m)
    decreases i, m
  {
    if m == 0 then
      (if i == 0 then Scan([], [], []) else ScanBefore(g, color, opp, opps, i - 1, 9))
    else
      ScanStep(g, color, opp, ScanBefore(g, color, opp, opps, i, m - 1), Neighbour(opps[i], m - 1))
  }

  lemma ScanBeforeNext(g: Grid, color: Side, opp: Side, opps: seq<Pos>, i: nat, m: nat)
    requires color != opp && i < |opps| && m < 9
    ensures ScanBefore(g, color, opp, opps, i, m + 1)
         == ScanStep(g, color, opp, ScanBefore(g, color, opp, opps, i, m), Neighbour(opps[i], m))
  {
  }

  /** `find_legal_moves(color)`: the legal moves and their flip sets, in the
      order the empty neighbours of the opponent's pieces are discovered. */
  function LegalMoves(g: Grid, color: Side): Scan {
    var opps := Pieces(g, Other(color));
    ScanBefore(g, color, Other(color), opps, |opps|, 0)
  }

  /** What a scan state guarantees: parallel lists of distinct, empty,
      on-board moves with their (capturing) flip sets, and every examined
      square that captures is among the moves. */
  ghost predicate ScanOk(g: Grid, color: Side, opp: Side, s: Scan)
    requires color != opp
  {
    && |s.moves| == |s.flips|
    && Distinct(s.checked)
    && Distinct(s.moves)
    && (forall t :: 0 <= t < |s.moves| ==>
          ValidSquare(s.moves[t]) && At(g, s.moves[t]) == E &&
          s.flips[t] == FlipSet(g, s.moves[t], color, opp) && |s.flips[t]| > 1)
    && (forall x :: x in s.moves ==> x in s.checked)
    && (forall x :: x in s.checked ==>
          ValidSquare(x) && At(g, x) == E && (|FlipSet(g, x, color, opp)| > 1 ==> x in s.moves))
  }

  lemma ScanStepOk(g: Grid, color: Side, opp: Side, s: Scan, cand: Pos)
    requires color != opp && ScanOk(g, color, opp, s)
    ensures ScanOk(g, color, opp, ScanStep(g, color, opp, s, cand))
    ensures forall x :: x in s.checked ==> x in ScanStep(g, color, opp, s, cand).checked
    ensures ValidSquare(cand) && At(g, cand) == E ==> cand in ScanStep(g, color, opp, s, cand).checked
  {
    var s' := ScanStep(g, color, opp, s, cand);
    if ValidSquare(cand) && At(g, cand) == E && cand !in s.checked {
      assert cand !in s.moves;
      forall t | 0 <= t < |s'.moves|
        ensures ValidSquare(s'.moves[t]) && At(g, s'.moves[t]) == E &&
                s'.flips[t] == FlipSet(g, s'.moves[t], color, opp) && |s'.flips[t]| > 1
      {
        if t < |s.moves| {
          assert s'.moves[t] == s.moves[t] && s'.flips[t] == s.flips[t];
        }
      }
    }
  }

  /** Position (i', m') comes before (i, m) in the scan. */
  predicate Prior(i': nat, m': nat, i: nat, m: nat) {
    i' < i || (i' == i && m' < m)
  }

  /** The scan state is sound, and every empty on-board neighbour examined
      so far has been checked. */
  lemma {:induction false} ScanBeforeOk(g: Grid, color: Side, opp: Side, opps: seq<Pos>, i: nat, m: nat)
    requires color != opp && ScanIndex(|opps|, i, m)
    ensures ScanOk(g, color, opp, ScanBefore(g, color, opp, opps, i, m))
    ensures forall i', m' :: (0 <= i' < |opps| && m' < 9 && Prior(i', m', i, m) &&
              ValidSquare(Neighbour(opps[i'], m')) && At(g, Neighbour(opps[i'], m')) == E) ==>
              Neighbour(opps[i'], m') in ScanBefore(g, color, opp, opps, i, m).checked
    decreases i, m
  {
    if m == 0 {
      if i > 0 {
        ScanBeforeOk(g, color, opp, opps, i - 1, 9);
      }
    } else {
      ScanBeforeOk(g, color, opp, opps, i, m - 1);
      ScanStepOk(g, color, opp, ScanBefore(g, color, opp, opps, i, m - 1), Neighbour(opps[i], m - 1));
    }
  }

  /** Every move `find_legal_moves` returns is on the board, empty and listed
      once, and its flip set is that of `check_bracket` and captures. */
  lemma LegalMovesSound(g: Grid, color: Side)
    ensures var s := LegalMoves(g, color);
      && |s.moves| == |s.flips|
      && Distinct(s.moves)
      && (forall t :: 0 <= t < |s.moves| ==>
            ValidSquare(s.moves[t]) && At(g, s.moves[t]) == E &&
            s.flips[t] == FlipSet(g, s.moves[t], color, Other(color)) && |s.flips[t]| > 1)
  {
    var opps := Pieces(g, Other(color));
    ScanBeforeOk(g, color, Other(color), opps, |opps|, 0);
  }

  /** The offset index leading from a piece back to the square one step
      against direction `d`. */
  function BackIndex(d: Dir): nat
    requires IsUnit(d)
  {
    3 * (1 - d.dr) + (1 - d.dc)
  }

  lemma BackNeighbour(q: Pos, d: Dir)
    requires IsUnit(d)
    ensures BackIndex(d) < 9 && Neighbour(q, BackIndex(d)) == Pos(q.row - d.dr, q.col - d.dc)
  {
    if d.dr == -1 {
      if d.dc == -1 {} else if d.dc == 0 {} else {}
    } else if d.dr == 0 {
      if d.dc == -1 {} else {}
    } else {
      if d.dc == -1 {} else if d.dc == 0 {} else {}
    }
  }

  /** A legal square is next to an opponent piece, in the direction of one
      of its brackets. */
  lemma LegalNextToOpponent(g: Grid, color: Side, p: Pos) returns (d: Dir)
    requires |FlipSet(g, p, color, Other(color))| > 1
    ensures IsUnit(d) && ValidSquare(Next(p, d)) && At(g, Next(p, d)) == Other(color)
  {
    var opp := Other(color);
    FlipSetLegal(g, p, color, opp);
    var e, caps :| 0 <= e < |Directions| && caps != [] && |caps| < MaxSteps &&
                   IsBracket(g, p, Directions[e], caps, color, opp);
    d := Directions[e];
    DirectionsDistinct();
    assert caps[0] == Step(p, d, 1) == Next(Step(p, d, 0), d);
    assert ValidSquare(caps[0]) && At(g, caps[0]) == opp;
  }

  /** A completed scan lists every capturing empty neighbour it examined. */
  lemma ScanFinds(g: Grid, color: Side, opp: Side, opps: seq<Pos>, i': nat, m': nat)
    requires color != opp && i' < |opps| && m' < 9
    requires ValidSquare(Neighbour(opps[i'], m')) && At(g, Neighbour(opps[i'], m')) == E
    requires |FlipSet(g, Neighbour(opps[i'], m'), color, opp)| > 1
    ensures Neighbour(opps[i'], m') in ScanBefore(g, color, opp, opps, |opps|, 0).moves
  {
    ScanBeforeOk(g, color, opp, opps, |opps|, 0);
    assert Prior(i', m', |opps|, 0);
  }

  lemma PiecesMember(g: Grid, c: Color, p: Pos)
    requires ValidSquare(p) && At(g, p) == c
    ensures p in Pieces(g, c)
  {
    PiecesSpec(g, c);
  }

  /** `find_legal_moves` lists ALL legal moves: every empty on-board square
      whose flip set captures something is among them. */
  lemma LegalMovesComplete(g: Grid, color: Side, p: Pos)
    requires ValidSquare(p) && At(g, p) == E && |FlipSet(g, p, color, Other(color))| > 1
    ensures p in LegalMoves(g, color).moves
  {
    var opp := Other(color);
    var opps := Pieces(g, opp);
    var d := LegalNextToOpponent(g, color, p);
    var q := Next(p, d);
    PiecesMember(g, opp, q);
    var i' :| 0 <= i' < |opps| && opps[i'] == q;
    BackNeighbour(q, d);
    var m' := BackIndex(d);
    assert Neighbour(opps[i'], m') == p;
    ScanFinds(g, color, opp, opps, i', m');
  }

  /** Legal moves, as an independent definition: an empty square where a
      move captures. */
  ghost predicate IsLegal(g: Grid, color: Side, p: Pos) {
    ValidSquare(p) && At(g, p) == E && |FlipSet(g, p, color, Other(color))| > 1
  }

  /** The move list is exactly the set of legal squares. */
  lemma LegalMovesExact(g: Grid, color: Side)
    ensures forall p :: p in LegalMoves(g, color).moves <==> IsLegal(g, color, p)
  {
    LegalMovesSound(g, color);
    forall p | IsLegal(g, color, p)
      ensures p in LegalMoves(g, color).moves
    {
      LegalMovesComplete(g, color, p);
    }
  }

  /** Painting on-board squares `f` with `c`: those squares now hold `c`,
      the others keep their colour. */
  lemma PaintCells(g: Grid, f: seq<Pos>, c: Color, other: Color)
    requires forall i :: 0 <= i < |f| ==> ValidSquare(f[i])
    requires c != other
    ensures CellsOf(Paint(g, f, c), c) == CellsOf(g, c) + (set x | x in f)
    ensures CellsOf(Paint(g, f, c), other) == CellsOf(g, other) - (set x | x in f)
  {
    var h := Paint(g, f, c);
    var fs := set x | x in f;
    forall x | x in fs
      ensures x in Squares() && x in CellsOf(h, c) && x !in CellsOf(h, other)
    {
      ValidSquareIsSquare(x);
      PaintAt(g, f, c, x);
    }
    forall x | x in Squares() && x !in fs
      ensures (x in CellsOf(h, c) <==> x in CellsOf(g, c)) && (x in CellsOf(h, other) <==> x in CellsOf(g, other))
    {
      ValidSquareIsSquare(x);
      PaintAt(g, f, c, x);
    }
  }

  lemma DiffCard<T>(a: set<T>, b: set<T>)
    requires b <= a
    ensures |a - b| == |a| - |b|
  {
    assert a == (a - b) + b;
  }

  /** The squares of a flip set whose first square is empty and whose other
      squares hold the opponent's colour, as sets. */
  lemma FlipSquares(g: Grid, f: seq<Pos>, color: Side)
    requires f != [] && Distinct(f)
    requires ValidSquare(f[0]) && At(g, f[0]) == E
    requires forall i :: 1 <= i < |f| ==> ValidSquare(f[i]) && At(g, f[i]) == Other(color)
    ensures |set x | x in f| == |f|
    ensures (set x | x in f) !! CellsOf(g, color)
    ensures (set x | x in f) * CellsOf(g, Other(color)) == set x | x in f[1..]
    ensures |set x | x in f[1..]| == |f| - 1
  {
    DistinctCard(f);
    assert Distinct(f[1..]);
    DistinctCard(f[1..]);
    var fs := set x | x in f;
    forall x | x in fs
      ensures x in Squares() && (x in CellsOf(g, Other(color)) <==> x in f[1..]) && x !in CellsOf(g, color)
    {
      var i :| 0 <= i < |f| && f[i] == x;
      ValidSquareIsSquare(x);
      if i > 0 {
        assert x == f[1..][i - 1];
      } else {
        assert x !in f[1..];
      }
    }
    forall x | x in f[1..]
      ensures x in fs
    {
      var i :| 0 <= i < |f[1..]| && f[1..][i] == x;
      assert x == f[i + 1];
    }
  }

  /** Setting the squares of a flip set whose first square is empty and whose
      other squares hold the opponent's colour: the mover gains every square,
      the opponent loses the captured ones, one piece is added in all. */
  lemma PaintFlipCounts(g: Grid, f: seq<Pos>, color: Side)
    requires f != [] && Distinct(f)
    requires ValidSquare(f[0]) && At(g, f[0]) == E
    requires forall i :: 1 <= i < |f| ==> ValidSquare(f[i]) && At(g, f[i]) == Other(color)
    ensures Count(Paint(g, f, color), color) == Count(g, color) + |f|
    ensures Count(Paint(g, f, color), Other(color)) == Count(g, Other(color)) - (|f| - 1)
    ensures Total(Paint(g, f, color)) == Total(g) + 1
  {
    var h := Paint(g, f, color);
    var opp := Other(color);
    var fs := set x | x in f;
    var caps := set x | x in f[1..];
    FlipSquares(g, f, color);
    PaintCells(g, f, color, opp);
    assert CellsOf(g, opp) - fs == CellsOf(g, opp) - caps;
    DiffCard(CellsOf(g, opp), caps);
    CountIsCard(g, color);
    CountIsCard(g, opp);
    CountIsCard(h, color);
    CountIsCard(h, opp);
  }

  /** Playing a legal move with k captured pieces (as `choose_move` and the
      search do with `placePieces(flipped_tiles[i], color)`): the mover's count
      rises by k + 1, the opponent's falls by k, the total rises by one. */
  lemma PlayMoveCounts(g: Grid, color: Side, t: nat)
    requires t < |LegalMoves(g, color).flips|
    ensures var f := LegalMoves(g, color).flips[t];
      var h := Paint(g, f, color);
      && Count(h, color) == Count(g, color) + (|f| - 1) + 1
      && Count(h, Other(color)) == Count(g, Other(color)) - (|f| - 1)
      && Total(h) == Total(g) + 1
  {
    LegalMovesSound(g, color);
    var s := LegalMoves(g, color);
    FlipSetCells(g, s.moves[t], color, Other(color));
    PaintFlipCounts(g, s.flips[t], color);
  }

  /** A move list for `color` is empty when the opponent has no pieces
      (so both lists are empty on an empty board). */
  lemma NoOpponentNoMoves(g: Grid, color: Side)
    requires Count(g, Other(color)) == 0
    ensures LegalMoves(g, color).moves == []
  {
  }

  /** The verdict of `check_game_over`: "B", "W", "Draw" or "None". */
  datatype Verdict = Won(side: Side) | Draw | Undecided

  /** Neither colour has a legal move. */
  predicate GameOver(g: Grid) {
    |LegalMoves(g, B).moves| == 0 && |LegalMoves(g, W).moves| == 0
  }

  /** `check_game_over`: over when neither colour can move; then the colour
      with more pieces wins, equal counts draw. */
  function GameResult(g: Grid): (Verdict, bool) {
    if GameOver(g) then
      if Count(g, B) > Count(g, W) then (Won(B), true)
      else if Count(g, B) < Count(g, W) then (Won(W), true)
      else (Draw, true)
    else (Undecided, false)
  }

  /** The game is over exactly when no empty square is a legal move for
      either colour. */
  lemma GameOverSpec(g: Grid)
    ensures GameOver(g) <==> forall p, c: Side :: !IsLegal(g, c, p)
  {
    if !GameOver(g) {
      if |LegalMoves(g, B).moves| > 0 {
        FirstMoveLegal(g, B);
      } else {
        FirstMoveLegal(g, W);
      }
    } else {
      NoMovesNoLegal(g, B);
      NoMovesNoLegal(g, W);
    }
  }

  lemma NoMovesNoLegal(g: Grid, c: Side)
    requires |LegalMoves(g, c).moves| == 0
    ensures forall p :: !IsLegal(g, c, p)
  {
    forall p | IsLegal(g, c, p)
      ensures false
    {
      LegalMovesComplete(g, c, p);
    }
  }

  lemma FirstMoveLegal(g: Grid, c: Side)
    requires |LegalMoves(g, c).moves| > 0
    ensures IsLegal(g, c, LegalMoves(g, c).moves[0])
  {
    LegalMovesSound(g, c);
  }

  /** `check_game_over` reports the end exactly when nobody can move; the
      verdict is then the majority colour, or a draw. */
  lemma GameResultSpec(g: Grid)
    ensures GameResult(g).1 <==> forall p, c: Side :: !IsLegal(g, c, p)
    ensures GameResult(g).1 ==> GameResult(g).0 != Undecided
    ensures !GameResult(g).1 ==> GameResult(g).0 == Undecided
    ensures GameResult(g).0 == Won(B) <==> GameResult(g).1 && Count(g, B) > Count(g, W)
    ensures GameResult(g).0 == Won(W) <==> GameResult(g).1 && Count(g, W) > Count(g, B)
    ensures GameResult(g).0 == Draw <==> GameResult(g).1 && Count(g, B) == Count(g, W)
  {
    GameOverSpec(g);
  }

  lemma NoPieces(g: Grid, c: Side)
    requires forall p :: ValidSquare(p) ==> At(g, p) == E
    ensures Pieces(g, c) == []
  {
    assert CellsOf(g, c) == {};
    CountIsCard(g, c);
  }

  /** A board without pieces: nobody can move and the game is a draw
      (the empty preset board of the engine). */
  lemma EmptyBoardDraw(g: Grid)
    requires forall p :: ValidSquare(p) ==> At(g, p) == E
    ensures GameResult(g) == (Draw, true)
  {
    NoPieces(g, B);
    NoPieces(g, W);
    NoOpponentNoMoves(g, B);
    NoOpponentNoMoves(g, W);
    assert GameOver(g);
    assert Count(g, B) == Count(g, W);
  }

  /** `check_game_state`. */
  datatype Phase = EarlyGame | MidGame | LateGame

  function GamePhase(g: Grid): Phase {
    var total := Total(g);
    if total < 20 then EarlyGame
    else if total < 50 then MidGame
    else LateGame
  }

  function PhaseRank(ph: Phase): nat {
    match ph
    case EarlyGame => 0
    case MidGame => 1
    case LateGame => 2
  }

  /** The phase never goes back when pieces are added; in particular it never
      goes back across a move. */
  lemma PhaseMonotone(g: Grid, h: Grid)
    requires Total(g) <= Total(h)
    ensures PhaseRank(GamePhase(g)) <= PhaseRank(GamePhase(h))
  {
  }

  lemma PhaseAfterMove(g: Grid, color: Side, t: nat)
    requires t < |LegalMoves(g, color).flips|
    ensures PhaseRank(GamePhase(g)) <= PhaseRank(GamePhase(Paint(g, LegalMoves(g, color).flips[t], color)))
  {
    var h := Paint(g, LegalMoves(g, color).flips[t], color);
    PlayMoveCounts(g, color, t);
    assert Total(h) == Total(g) + 1;
    PhaseMonotone(g, h);
  }
}
