/** The search of the engine: `alpha_beta_minimax`, specified by the plain
    minimax value it prunes, and `iterative_search`, the deepening loop over
    the root moves. Scores are float64 in the engine; every value the search
    handles is an integer of at most 2^52 in magnitude or one of the two
    sentinels, all of which float64 holds exactly, so they are `int` here. */
module Search {
  import opened Grid
  import opened Bracket
  import opened Moves
  import opened Evaluation
  import opened BoardState

  /** `float64(math.MinInt64)`: -2^63, the "minus infinity" of the search. */
  const NegInf: int := -0x8000_0000_0000_0000
  /** `float64(math.MaxInt64)`: rounds to 2^63, the "plus infinity". */
  const PosInf: int := 0x8000_0000_0000_0000

  function Max(a: int, b: int): int { if a < b then b else a }
  function Min(a: int, b: int): int { if a < b then a else b }

  /** Flip sets as `find_legal_moves` returns them: each on the board and
      led by the move square. */
  predicate FlipsOk(fs: seq<seq<Pos>>) {
    forall i :: 0 <= i < |fs| ==> |fs[i]| > 0 && forall j :: 0 <= j < |fs[i]| ==> ValidSquare(fs[i][j])
  }

  lemma LegalFlipsOk(g: Grid, c: Side)
    ensures FlipsOk(LegalMoves(g, c).flips)
  {
    LegalMovesSound(g, c);
    var s := LegalMoves(g, c);
    forall i | 0 <= i < |s.flips|
      ensures |s.flips[i]| > 0 && forall j :: 0 <= j < |s.flips[i]| ==> ValidSquare(s.flips[i][j])
    {
      FlipSetCells(g, s.moves[i], c, Other(c));
    }
  }

  /** After a flip set is placed the board is not empty, so the child's
      evaluation is defined. */
  lemma PaintedNotEmpty(g: Grid, f: seq<Pos>, c: Side)
    requires |f| > 0 && ValidSquare(f[0])
    ensures Total(Paint(g, f, c)) > 0
  {
    var h := Paint(g, f, c);
    PaintAt(g, f, c, f[0]);
    PiecesMember(h, c, f[0]);
    assert Count(h, c) > 0;
  }

  /** The players the search is called for: the evaluation is defined on
      every non-empty board. */
  predicate SearchOk(p: Player) {
    p.evalType == Static ==> HeurOk(p.heur)
  }

  /** The board after child `i` of a node is played by `c`. */
  function Child(g: Grid, c: Side, fs: seq<seq<Pos>>, i: nat): (h: Grid)
    requires FlipsOk(fs) && i < |fs|
    ensures Total(h) > 0
  {
    PaintedNotEmpty(g, fs[i], c);
    Paint(g, fs[i], c)
  }

  /** What a finished game is worth to `player`: +inf when the player won,
      -inf when the opponent did, 0 for a draw. A verdict matching none of
      these (only possible for a player whose two colours agree) leaves the
      engine in its move loops with no moves, which return -inf at a max node
      and +inf at a min node. */
  function Terminal(p: Player, winner: Verdict, maxPlayer: bool): int {
    if winner == Won(p.color) then PosInf
    else if winner == Won(p.oppColor) then NegInf
    else if winner == Draw then 0
    else if maxPlayer then NegInf
    else PosInf
  }

  /** The minimax value `alpha_beta_minimax` approximates: the evaluation of
      the board below the depth limit (the `score` the engine hands down with
      each board); the terminal value of a finished game; otherwise the best
      child for the side to move, where a side without moves passes (the
      other colour moves, the node changes from max to min or back, the depth
      stays). */
  function Minimax(g: Grid, p: Player, color: Side, depth: nat, maxDepth: nat, maxPlayer: bool): int
    requires SearchOk(p) && Total(g) > 0
    decreases maxDepth + 1 - depth, 2, 0
  {
    if depth > maxDepth then EvalScore(p, g)
    else
      var own := LegalMoves(g, color);
      if |own.moves| == 0 && GameOver(g) then Terminal(p, GameResult(g).0, maxPlayer)
      else if |own.moves| == 0 then
        LegalFlipsOk(g, Other(color));
        var fs := LegalMoves(g, Other(color)).flips;
        Best(g, p, Other(color), fs, depth, maxDepth, !maxPlayer, |fs|)
      else
        LegalFlipsOk(g, color);
        Best(g, p, color, own.flips, depth, maxDepth, maxPlayer, |own.flips|)
  }

  /** The value of a node whose mover `c` has the flip sets `fs`, over its
      first `k` children: the largest child value at a max node (from -inf),
      the smallest at a min node (from +inf). */
  function Best(g: Grid, p: Player, c: Side, fs: seq<seq<Pos>>, depth: nat, maxDepth: nat, maxPlayer: bool, k: nat): int
    requires SearchOk(p) && FlipsOk(fs) && k <= |fs| && depth <= maxDepth
    decreases maxDepth + 1 - depth, 1, k
  {
    if k == 0 then (if maxPlayer then NegInf else PosInf)
    else
      var prev := Best(g, p, c, fs, depth, maxDepth, maxPlayer, k - 1);
      var e := ChildValue(g, p, c, fs, depth, maxDepth, maxPlayer, k - 1);
      if maxPlayer then Max(prev, e) else Min(prev, e)
  }

  /** The value of child `i`. */
  function ChildValue(g: Grid, p: Player, c: Side, fs: seq<seq<Pos>>, depth: nat, maxDepth: nat, maxPlayer: bool, i: nat): int
    requires SearchOk(p) && FlipsOk(fs) && i < |fs| && depth <= maxDepth
    decreases maxDepth + 1 - depth, 0, 0
  {
    var h := Child(g, c, fs, i);
    Minimax(h, p, Other(c), depth + 1, maxDepth, !maxPlayer)
  }

  /** A max node is worth at least each of its children; a min node at most. */
  lemma BestBound(g: Grid, p: Player, c: Side, fs: seq<seq<Pos>>, depth: nat, maxDepth: nat, maxPlayer: bool, k: nat, i: nat)
    requires SearchOk(p) && FlipsOk(fs) && i < k <= |fs| && depth <= maxDepth
    ensures maxPlayer ==> ChildValue(g, p, c, fs, depth, maxDepth, maxPlayer, i) <= Best(g, p, c, fs, depth, maxDepth, maxPlayer, k)
    ensures !maxPlayer ==> Best(g, p, c, fs, depth, maxDepth, maxPlayer, k) <= ChildValue(g, p, c, fs, depth, maxDepth, maxPlayer, i)
  {
    BestMonotone(g, p, c, fs, depth, maxDepth, maxPlayer, i + 1, k);
  }

  /** ... and, unless it is still at its starting value (-inf, respectively
      +inf), is the value of one of them. */
  lemma {:induction false} BestAttained(g: Grid, p: Player, c: Side, fs: seq<seq<Pos>>, depth: nat, maxDepth: nat, maxPlayer: bool, k: nat)
      returns (i: nat)
    requires SearchOk(p) && FlipsOk(fs) && k <= |fs| && depth <= maxDepth
    ensures var v := Best(g, p, c, fs, depth, maxDepth, maxPlayer, k);
      v == (if maxPlayer then NegInf else PosInf) || (i < k && v == ChildValue(g, p, c, fs, depth, maxDepth, maxPlayer, i))
  {
    if k == 0 {
      return 0;
    }
    var v := Best(g, p, c, fs, depth, maxDepth, maxPlayer, k);
    var e := ChildValue(g, p, c, fs, depth, maxDepth, maxPlayer, k - 1);
    if v == e {
      return k - 1;
    }
    i := BestAttained(g, p, c, fs, depth, maxDepth, maxPlayer, k - 1);
  }

  /** One more child: the node value is combined with the child's value. */
  lemma BestNext(g: Grid, p: Player, c: Side, fs: seq<seq<Pos>>, depth: nat, maxDepth: nat, maxPlayer: bool, k: nat)
    requires SearchOk(p) && FlipsOk(fs) && k < |fs| && depth <= maxDepth
    ensures var prev := Best(g, p, c, fs, depth, maxDepth, maxPlayer, k);
      var e := ChildValue(g, p, c, fs, depth, maxDepth, maxPlayer, k);
      Best(g, p, c, fs, depth, maxDepth, maxPlayer, k + 1) == if maxPlayer then Max(prev, e) else Min(prev, e)
  {
  }

  /** Looking at more children never lowers a max node nor raises a min node. */
  lemma {:induction false} BestMonotone(g: Grid, p: Player, c: Side, fs: seq<seq<Pos>>, depth: nat, maxDepth: nat, maxPlayer: bool, j: nat, k: nat)
    requires SearchOk(p) && FlipsOk(fs) && j <= k <= |fs| && depth <= maxDepth
    ensures maxPlayer ==> Best(g, p, c, fs, depth, maxDepth, maxPlayer, j) <= Best(g, p, c, fs, depth, maxDepth, maxPlayer, k)
    ensures !maxPlayer ==> Best(g, p, c, fs, depth, maxDepth, maxPlayer, k) <= Best(g, p, c, fs, depth, maxDepth, maxPlayer, j)
  {
    if j < k {
      BestMonotone(g, p, c, fs, depth, maxDepth, maxPlayer, j, k - 1);
      BestNext(g, p, c, fs, depth, maxDepth, maxPlayer, k - 1);
    }
  }

  /** Every minimax value lies between the two sentinels: the evaluations
      do, by the contract of `EvalScore`, and so do the terminal values. */
  lemma {:induction false} MinimaxInRange(g: Grid, p: Player, color: Side, depth: nat, maxDepth: nat, maxPlayer: bool)
    requires SearchOk(p) && Total(g) > 0
    ensures NegInf <= Minimax(g, p, color, depth, maxDepth, maxPlayer) <= PosInf
    decreases maxDepth + 1 - depth, 2, 0
  {
    if depth <= maxDepth {
      var own := LegalMoves(g, color);
      if |own.moves| == 0 && GameOver(g) {
      } else if |own.moves| == 0 {
        LegalFlipsOk(g, Other(color));
        var fs := LegalMoves(g, Other(color)).flips;
        BestInRange(g, p, Other(color), fs, depth, maxDepth, !maxPlayer, |fs|);
      } else {
        LegalFlipsOk(g, color);
        BestInRange(g, p, color, own.flips, depth, maxDepth, maxPlayer, |own.flips|);
      }
    }
  }

  lemma {:induction false} BestInRange(g: Grid, p: Player, c: Side, fs: seq<seq<Pos>>, depth: nat, maxDepth: nat, maxPlayer: bool, k: nat)
    requires SearchOk(p) && FlipsOk(fs) && k <= |fs| && depth <= maxDepth
    ensures NegInf <= Best(g, p, c, fs, depth, maxDepth, maxPlayer, k) <= PosInf
    decreases maxDepth + 1 - depth, 1, k
  {
    if k > 0 {
      BestInRange(g, p, c, fs, depth, maxDepth, maxPlayer, k - 1);
      var h := Child(g, c, fs, k - 1);
      MinimaxInRange(h, p, Other(c), depth + 1, maxDepth, !maxPlayer);
    }
  }

  /** A finished game is scored by the piece counts, for a player of either
      colour: +inf when the player has more pieces, -inf when fewer, 0 when
      level (within the depth limit). */
  lemma MinimaxFinished(g: Grid, p: Player, color: Side, depth: nat, maxDepth: nat, maxPlayer: bool)
    requires SearchOk(p) && Opposed(p) && Total(g) > 0 && depth <= maxDepth && GameOver(g)
    ensures var v := Minimax(g, p, color, depth, maxDepth, maxPlayer);
      && (Count(g, p.color) > Count(g, p.oppColor) ==> v == PosInf)
      && (Count(g, p.color) < Count(g, p.oppColor) ==> v == NegInf)
      && (Count(g, p.color) == Count(g, p.oppColor) ==> v == 0)
  {
    GameResultSpec(g);
  }

  /** A side without moves in an unfinished game passes: the value is that
      of the same node with the other colour to move and the roles of max and
      min exchanged, at the same depth. */
  lemma MinimaxPass(g: Grid, p: Player, color: Side, depth: nat, maxDepth: nat, maxPlayer: bool)
    requires SearchOk(p) && Total(g) > 0 && depth <= maxDepth
    requires |LegalMoves(g, color).moves| == 0 && !GameOver(g)
    ensures |LegalMoves(g, Other(color)).moves| > 0
    ensures Minimax(g, p, color, depth, maxDepth, maxPlayer) == Minimax(g, p, Other(color), depth, maxDepth, !maxPlayer)
  {
    assert |LegalMoves(g, Other(color)).moves| > 0 by {
      if color == B {
        assert Other(color) == W;
      } else {
        assert Other(color) == B;
      }
    }
    assert Other(Other(color)) == color;
  }

  /** The fail-soft contract of an alpha-beta search returning `v` for a
      node worth `m` under the window (alpha, beta): exact inside the window,
      an upper bound at or below alpha, a lower bound at or above beta. */
  predicate FailSoft(v: int, m: int, alpha: int, beta: int) {
    && (v <= alpha ==> m <= v)
    && (alpha < v < beta ==> v == m)
    && (beta <= v ==> v <= m)
  }

  /** With the full window (-inf, +inf) and a value between the sentinels,
      the fail-soft answer is the value itself. */
  lemma FailSoftFull(v: int, m: int)
    requires FailSoft(v, m, NegInf, PosInf) && NegInf <= m <= PosInf
    ensures v == m
  {
  }

  /** `alpha_beta_minimax`: minimax with alpha-beta pruning on a copy of the
      board. Its value agrees with the minimax value wherever it falls
      strictly inside the window, and bounds it from the right side where it
      falls outside. */
  method AlphaBeta(board: Board, p: Player, score: int, color: Side, alpha: int, beta: int,
                   depth: nat, maxDepth: nat, maxPlayer: bool) returns (v: int)
    requires board.Valid() && SearchOk(p) && Total(board.cells) > 0 && score == EvalScore(p, board.cells)
    requires NegInf <= alpha < beta <= PosInf
    ensures depth > maxDepth ==> v == score
    ensures depth <= maxDepth && |LegalMoves(board.cells, color).moves| == 0 && GameOver(board.cells) ==>
      v == Minimax(board.cells, p, color, depth, maxDepth, maxPlayer)
    ensures FailSoft(v, Minimax(board.cells, p, color, depth, maxDepth, maxPlayer), alpha, beta)
    decreases maxDepth + 1 - depth, 2
  {
    if depth > maxDepth {
      return score;
    }
    ghost var g := board.cells;
    var c := color;
    var opp := Other(color);
    var mp := maxPlayer;
    var moves, flips := board.FindLegalMoves(c);
    if |moves| == 0 {
      var winner, over := board.CheckGameOver();
      if over {
        if winner == Won(p.color) {
          return PosInf;
        } else if winner == Won(p.oppColor) {
          return NegInf;
        } else if winner == Draw {
          return 0;
        }
        assert flips == [] by {
          LegalMovesSound(g, c);
        }
      } else {
        moves, flips := board.FindLegalMoves(opp);
        mp := !mp;
        var temp := c;
        c := opp;
        opp := temp;
      }
    }
    LegalFlipsOk(g, c);
    assert opp == Other(c);
    assert Minimax(g, p, color, depth, maxDepth, maxPlayer) == Best(g, p, c, flips, depth, maxDepth, mp, |flips|);
    if mp {
      v := MaxNode(board, p, c, flips, alpha, beta, depth, maxDepth);
    } else {
      v := MinNode(board, p, c, flips, alpha, beta, depth, maxDepth);
    }
  }

  /** One child of a node: `new_board = board`, the flip set placed, the
      child evaluated and searched one level deeper by the other side. */
  method SearchChild(board: Board, p: Player, c: Side, flips: seq<seq<Pos>>, i: nat, alpha: int, beta: int,
                     depth: nat, maxDepth: nat, maxPlayer: bool) returns (e: int)
    requires board.Valid() && SearchOk(p) && FlipsOk(flips) && i < |flips| && depth <= maxDepth
    requires NegInf <= alpha < beta <= PosInf
    ensures FailSoft(e, ChildValue(board.cells, p, c, flips, depth, maxDepth, maxPlayer, i), alpha, beta)
    decreases maxDepth + 1 - depth, 0
  {
    var child := new Board.Copy(board);
    child.PlacePieces(flips[i], c);
    assert child.cells == Child(board.cells, c, flips, i);
    var s := child.Evaluate(p);
    e := AlphaBeta(child, p, s, Other(c), alpha, beta, depth + 1, maxDepth, !maxPlayer);
  }

  /** One child of a max node, on values: `best` and `maxEval` are the exact
      and the searched maximum so far, `m` and `e` the child's exact and
      fail-soft value. Either the window stays open and the loop invariant
      carries over, or it closes and the child bounds the result. */
  lemma MaxStep(alpha: int, beta: int, maxEval: int, best: int, m: int, e: int)
    requires alpha < beta && maxEval < beta && best <= maxEval && (alpha < maxEval ==> best == maxEval)
    requires FailSoft(e, m, Max(alpha, maxEval), beta)
    ensures var v := Max(maxEval, e);
      if Max(alpha, v) < beta then Max(best, m) <= v && (alpha < v ==> Max(best, m) == v)
      else beta <= v <= m
  {
  }

  /** The mirror image of `MaxStep` for a min node. */
  lemma MinStep(alpha: int, beta: int, minEval: int, best: int, m: int, e: int)
    requires alpha < beta && alpha < minEval && minEval <= best && (minEval < beta ==> best == minEval)
    requires FailSoft(e, m, alpha, Min(beta, minEval))
    ensures var v := Min(minEval, e);
      if alpha < Min(beta, v) then v <= Min(best, m) && (v < beta ==> Min(best, m) == v)
      else m <= v <= alpha
  {
  }

  /** `MaxStep` for child `i` of a max node: the loop invariant of `MaxNode`
      carries over to `i + 1`, or the window closes and the result is a
      fail-soft answer for the whole node. */
  lemma MaxNodeStep(g: Grid, p: Player, c: Side, fs: seq<seq<Pos>>, depth: nat, maxDepth: nat, i: nat,
                    alpha: int, beta: int, maxEval: int, e: int)
    requires SearchOk(p) && FlipsOk(fs) && i < |fs| && depth <= maxDepth
    requires alpha < beta && maxEval < beta
    requires Best(g, p, c, fs, depth, maxDepth, true, i) <= maxEval
    requires alpha < maxEval ==> Best(g, p, c, fs, depth, maxDepth, true, i) == maxEval
    requires FailSoft(e, ChildValue(g, p, c, fs, depth, maxDepth, true, i), Max(alpha, maxEval), beta)
    ensures var v := Max(maxEval, e);
      if Max(alpha, v) < beta then
        Best(g, p, c, fs, depth, maxDepth, true, i + 1) <= v
        && (alpha < v ==> Best(g, p, c, fs, depth, maxDepth, true, i + 1) == v)
      else FailSoft(v, Best(g, p, c, fs, depth, maxDepth, true, |fs|), alpha, beta)
  {
    var m := ChildValue(g, p, c, fs, depth, maxDepth, true, i);
    MaxStep(alpha, beta, maxEval, Best(g, p, c, fs, depth, maxDepth, true, i), m, e);
    BestBound(g, p, c, fs, depth, maxDepth, true, |fs|, i);
  }

  /** The mirror image of `MaxNodeStep` for a min node. */
  lemma MinNodeStep(g: Grid, p: Player, c: Side, fs: seq<seq<Pos>>, depth: nat, maxDepth: nat, i: nat,
                    alpha: int, beta: int, minEval: int, e: int)
    requires SearchOk(p) && FlipsOk(fs) && i < |fs| && depth <= maxDepth
    requires alpha < beta && alpha < minEval
    requires minEval <= Best(g, p, c, fs, depth, maxDepth, false, i)
    requires minEval < beta ==> Best(g, p, c, fs, depth, maxDepth, false, i) == minEval
    requires FailSoft(e, ChildValue(g, p, c, fs, depth, maxDepth, false, i), alpha, Min(beta, minEval))
    ensures var v := Min(minEval, e);
      if alpha < Min(beta, v) then
        v <= Best(g, p, c, fs, depth, maxDepth, false, i + 1)
        && (v < beta ==> Best(g, p, c, fs, depth, maxDepth, false, i + 1) == v)
      else FailSoft(v, Best(g, p, c, fs, depth, maxDepth, false, |fs|), alpha, beta)
  {
    var m := ChildValue(g, p, c, fs, depth, maxDepth, false, i);
    MinStep(alpha, beta, minEval, Best(g, p, c, fs, depth, maxDepth, false, i), m, e);
    BestBound(g, p, c, fs, depth, maxDepth, false, |fs|, i);
  }

  /** The max-player loop of `alpha_beta_minimax`: children in order, each
      searched with alpha raised to the best value so far, stopping as soon
      as the window closes. */
  method MaxNode(board: Board, p: Player, c: Side, flips: seq<seq<Pos>>, alpha: int, beta: int,
                 depth: nat, maxDepth: nat) returns (v: int)
    requires board.Valid() && SearchOk(p) && FlipsOk(flips) && depth <= maxDepth
    requires NegInf <= alpha < beta <= PosInf
    ensures flips == [] ==> v == NegInf
    ensures FailSoft(v, Best(board.cells, p, c, flips, depth, maxDepth, true, |flips|), alpha, beta)
    decreases maxDepth + 1 - depth, 1
  {
    ghost var g := board.cells;
    var maxEval := NegInf;
    var a := alpha;
    var i := 0;
    while i < |flips|
      invariant 0 <= i <= |flips|
      invariant flips == [] ==> maxEval == NegInf
      invariant a == Max(alpha, maxEval) && maxEval < beta
      invariant Best(g, p, c, flips, depth, maxDepth, true, i) <= maxEval
      invariant alpha < maxEval ==> Best(g, p, c, flips, depth, maxDepth, true, i) == maxEval
    {
      var e := SearchChild(board, p, c, flips, i, a, beta, depth, maxDepth, true);
      MaxNodeStep(g, p, c, flips, depth, maxDepth, i, alpha, beta, maxEval, e);
      maxEval := Max(maxEval, e);
      a := Max(a, maxEval);
      if beta <= a {
        return maxEval;
      }
      i := i + 1;
    }
    return maxEval;
  }

  /** The min-player loop, the mirror image of `MaxNode` with beta lowered. */
  method MinNode(board: Board, p: Player, c: Side, flips: seq<seq<Pos>>, alpha: int, beta: int,
                 depth: nat, maxDepth: nat) returns (v: int)
    requires board.Valid() && SearchOk(p) && FlipsOk(flips) && depth <= maxDepth
    requires NegInf <= alpha < beta <= PosInf
    ensures flips == [] ==> v == PosInf
    ensures FailSoft(v, Best(board.cells, p, c, flips, depth, maxDepth, false, |flips|), alpha, beta)
    decreases maxDepth + 1 - depth, 1
  {
    ghost var g := board.cells;
    var minEval := PosInf;
    var b := beta;
    var i := 0;
    while i < |flips|
      invariant 0 <= i <= |flips|
      invariant flips == [] ==> minEval == PosInf
      invariant b == Min(beta, minEval) && alpha < minEval
      invariant minEval <= Best(g, p, c, flips, depth, maxDepth, false, i)
      invariant minEval < beta ==> Best(g, p, c, flips, depth, maxDepth, false, i) == minEval
    {
      var e := SearchChild(board, p, c, flips, i, alpha, b, depth, maxDepth, false);
      MinNodeStep(g, p, c, flips, depth, maxDepth, i, alpha, beta, minEval, e);
      minEval := Min(minEval, e);
      b := Min(b, minEval);
      if b <= alpha {
        return minEval;
      }
      i := i + 1;
    }
    return minEval;
  }

  /** The value `iterative_search` computes for root move `i` at depth limit
      `d`: the move played by the player, then a min node for the opponent
      colour at depth 0. */
  function RootValue(g: Grid, p: Player, flips: seq<seq<Pos>>, d: nat, i: nat): int
    requires SearchOk(p) && FlipsOk(flips) && i < |flips|
  {
    var h := Child(g, p.color, flips, i);
    Minimax(h, p, p.oppColor, 0, d, false)
  }

  /** The values of the first `k` root moves. */
  function RootValues(g: Grid, p: Player, flips: seq<seq<Pos>>, d: nat, k: nat): (r: seq<int>)
    requires SearchOk(p) && FlipsOk(flips) && k <= |flips|
    ensures |r| == k
  {
    if k == 0 then [] else RootValues(g, p, flips, d, k - 1) + [RootValue(g, p, flips, d, k - 1)]
  }

  lemma {:induction false} RootValuesSpec(g: Grid, p: Player, flips: seq<seq<Pos>>, d: nat, k: nat)
    requires SearchOk(p) && FlipsOk(flips) && k <= |flips|
    ensures forall i :: 0 <= i < k ==> RootValues(g, p, flips, d, k)[i] == RootValue(g, p, flips, d, i)
  {
    if k > 0 {
      RootValuesSpec(g, p, flips, d, k - 1);
      var prev := RootValues(g, p, flips, d, k - 1);
      var last := RootValue(g, p, flips, d, k - 1);
      assert RootValues(g, p, flips, d, k) == prev + [last];
      forall i | 0 <= i < k
        ensures RootValues(g, p, flips, d, k)[i] == RootValue(g, p, flips, d, i)
      {
        if i < k - 1 {
          assert (prev + [last])[i] == prev[i];
        }
      }
    }
  }

  /** The largest of the scores, or -inf when there are none (`max_score`
      starts at -inf). */
  function Top(s: seq<int>): int {
    if s == [] then NegInf else Max(Top(s[..|s| - 1]), s[|s| - 1])
  }

  /** The indices below `k` whose score is `t`, in increasing order. */
  function Ties(s: seq<int>, t: int, k: nat): seq<nat>
    requires k <= |s|
  {
    if k == 0 then [] else Ties(s, t, k - 1) + (if s[k - 1] == t then [k - 1] else [])
  }

  /** No score exceeds `Top`. */
  lemma {:induction false} TopAbove(s: seq<int>)
    ensures forall i :: 0 <= i < |s| ==> s[i] <= Top(s)
  {
    if s != [] {
      var init := s[..|s| - 1];
      TopAbove(init);
      assert forall i :: 0 <= i < |init| ==> s[i] == init[i];
    }
  }

  /** With every score at least -inf, `Top` is one of the scores. */
  lemma {:induction false} TopAttained(s: seq<int>) returns (i: nat)
    requires s != [] && forall j :: 0 <= j < |s| ==> NegInf <= s[j]
    ensures i < |s| && s[i] == Top(s)
  {
    var init := s[..|s| - 1];
    if init == [] || Top(s) == s[|s| - 1] {
      return |s| - 1;
    }
    i := TopAttained(init);
    assert s[i] == init[i];
  }

  lemma {:induction false} TiesSpec(s: seq<int>, t: int, k: nat)
    requires k <= |s|
    ensures forall i: nat :: i in Ties(s, t, k) <==> i < k && s[i] == t
    ensures forall a, b :: 0 <= a < b < |Ties(s, t, k)| ==> Ties(s, t, k)[a] < Ties(s, t, k)[b]
  {
    if k > 0 {
      TiesSpec(s, t, k - 1);
      var prev := Ties(s, t, k - 1);
      assert forall a :: 0 <= a < |prev| ==> prev[a] in prev;
    }
  }

  /** Scores before index `k` that all lie below `t` give no ties. */
  lemma {:induction false} TiesNone(s: seq<int>, t: int, k: nat)
    requires k <= |s| && forall j :: 0 <= j < k ==> s[j] < t
    ensures Ties(s, t, k) == []
  {
    if k > 0 {
      TiesNone(s, t, k - 1);
    }
  }

  /** Ties below `k` do not see scores appended later. */
  lemma {:induction false} TiesAppend(s: seq<int>, x: int, t: int, k: nat)
    requires k <= |s|
    ensures Ties(s + [x], t, k) == Ties(s, t, k)
  {
    if k > 0 {
      assert (s + [x])[k - 1] == s[k - 1];
      TiesAppend(s, x, t, k - 1);
    }
  }

  /** One step of the tie loop of `iterative_search`: a higher score starts a
      new list, an equal one joins the list, a lower one is dropped; the list
      stays the ties of the running maximum. */
  lemma TieStep(prev: seq<int>, x: int, best: seq<nat>, maxScore: int)
    requires maxScore == Top(prev) && best == Ties(prev, maxScore, |prev|)
    ensures var next := prev + [x];
      && Max(maxScore, x) == Top(next)
      && (if x > maxScore then [|prev|] else if x == maxScore then best + [|prev|] else best)
         == Ties(next, Top(next), |next|)
  {
    var next := prev + [x];
    assert next[..|next| - 1] == prev;
    var t := Top(next);
    TiesAppend(prev, x, t, |prev|);
    if x > maxScore {
      TopAbove(prev);
      TiesNone(prev, t, |prev|);
    }
  }

  /** The root moves of greatest value at depth limit `d`, in move order:
      what the tie loop of `iterative_search` keeps for a completed depth. */
  function BestRoots(g: Grid, p: Player, flips: seq<seq<Pos>>, d: nat): seq<nat>
    requires SearchOk(p) && FlipsOk(flips)
  {
    var s := RootValues(g, p, flips, d, |flips|);
    Ties(s, Top(s), |flips|)
  }

  /** A root move is among the best exactly when no root move is worth more;
      there is one whenever there is a move. */
  lemma BestRootsSpec(g: Grid, p: Player, flips: seq<seq<Pos>>, d: nat)
    requires SearchOk(p) && FlipsOk(flips)
    ensures forall i: nat :: i in BestRoots(g, p, flips, d) <==>
      i < |flips| && forall j :: 0 <= j < |flips| ==> RootValue(g, p, flips, d, j) <= RootValue(g, p, flips, d, i)
    ensures |flips| > 0 ==> BestRoots(g, p, flips, d) != []
  {
    var s := RootValues(g, p, flips, d, |flips|);
    RootValuesSpec(g, p, flips, d, |flips|);
    TopAbove(s);
    TiesSpec(s, Top(s), |flips|);
    if |flips| > 0 {
      RootValuesInRange(g, p, flips, d);
      var i := TopAttained(s);
      assert i in Ties(s, Top(s), |flips|);
    }
  }

  lemma RootValuesInRange(g: Grid, p: Player, flips: seq<seq<Pos>>, d: nat)
    requires SearchOk(p) && FlipsOk(flips)
    ensures forall i :: 0 <= i < |flips| ==> NegInf <= RootValues(g, p, flips, d, |flips|)[i] <= PosInf
  {
    RootValuesSpec(g, p, flips, d, |flips|);
    forall i | 0 <= i < |flips|
      ensures NegInf <= RootValue(g, p, flips, d, i) <= PosInf
    {
      var h := Child(g, p.color, flips, i);
      MinimaxInRange(h, p, p.oppColor, 0, d, false);
    }
  }

  /** One pass of `iterative_search` at depth limit `d`: every root move is
      searched with the full window, the moves of the highest score so far
      are kept, and after each move the time oracle `stopAfter(d, i)` may end
      the pass unfinished (the engine's time check after move i). */
  method SearchDepth(board: Board, p: Player, flips: seq<seq<Pos>>, d: nat, stopAfter: (nat, nat) -> bool)
      returns (best: seq<nat>, complete: bool)
    requires board.Valid() && SearchOk(p) && FlipsOk(flips)
    ensures complete <==> Unstopped(stopAfter, d, |flips|)
    ensures complete <==> forall i :: 0 <= i < |flips| ==> !stopAfter(d, i)
    ensures complete ==> best == BestRoots(board.cells, p, flips, d)
  {
    ghost var g := board.cells;
    best := [];
    var maxScore := NegInf;
    var i := 0;
    complete := true;
    while i < |flips| && complete
      invariant 0 <= i <= |flips|
      invariant complete ==> Unstopped(stopAfter, d, i)
      invariant !complete ==> 0 < i && stopAfter(d, i - 1)
      invariant maxScore == Top(RootValues(g, p, flips, d, i))
      invariant best == Ties(RootValues(g, p, flips, d, i), maxScore, i)
    {
      best, maxScore := TieRoot(board, p, flips, d, i, best, maxScore);
      complete := !stopAfter(d, i);
      i := i + 1;
    }
    UnstoppedSpec(stopAfter, d, |flips|);
  }

  /** No time check stopped the pass among the first `k` root moves. */
  predicate Unstopped(stopAfter: (nat, nat) -> bool, d: nat, k: nat) {
    k == 0 || (Unstopped(stopAfter, d, k - 1) && !stopAfter(d, k - 1))
  }

  lemma {:induction false} UnstoppedSpec(stopAfter: (nat, nat) -> bool, d: nat, k: nat)
    ensures Unstopped(stopAfter, d, k) <==> forall i :: 0 <= i < k ==> !stopAfter(d, i)
  {
    if k > 0 {
      UnstoppedSpec(stopAfter, d, k - 1);
    }
  }

  /** Searches root move `i` and folds its score into the running maximum
      and its ties. */
  method TieRoot(board: Board, p: Player, flips: seq<seq<Pos>>, d: nat, i: nat, best: seq<nat>, maxScore: int)
      returns (best': seq<nat>, maxScore': int)
    requires board.Valid() && SearchOk(p) && FlipsOk(flips) && i < |flips|
    requires maxScore == Top(RootValues(board.cells, p, flips, d, i))
    requires best == Ties(RootValues(board.cells, p, flips, d, i), maxScore, i)
    ensures maxScore' == Top(RootValues(board.cells, p, flips, d, i + 1))
    ensures best' == Ties(RootValues(board.cells, p, flips, d, i + 1), maxScore', i + 1)
  {
    ghost var vals := RootValues(board.cells, p, flips, d, i);
    var score := SearchRoot(board, p, flips, d, i);
    assert RootValues(board.cells, p, flips, d, i + 1) == vals + [RootValue(board.cells, p, flips, d, i)];
    TieStep(vals, score, best, maxScore);
    if score > maxScore {
      best', maxScore' := [i], score;
    } else if score == maxScore {
      best', maxScore' := best + [i], maxScore;
    } else {
      best', maxScore' := best, maxScore;
    }
  }

  /** Root move `i`: `new_board = *board`, the move placed, and
      `alpha_beta_minimax` with the full window (-inf, +inf), which returns
      the exact value. */
  method SearchRoot(board: Board, p: Player, flips: seq<seq<Pos>>, d: nat, i: nat) returns (score: int)
    requires board.Valid() && SearchOk(p) && FlipsOk(flips) && i < |flips|
    ensures score == RootValue(board.cells, p, flips, d, i)
  {
    var child := new Board.Copy(board);
    child.PlacePieces(flips[i], p.color);
    assert child.cells == Child(board.cells, p.color, flips, i);
    var s := child.Evaluate(p);
    score := AlphaBeta(child, p, s, p.oppColor, NegInf, PosInf, 0, d, false);
    MinimaxInRange(child.cells, p, p.oppColor, 0, d, false);
    FailSoftFull(score, RootValue(board.cells, p, flips, d, i));
  }

  /** The pass at depth limit `k` runs to completion: the time check before
      the depth lets it start and no time check after a root move ends it. */
  predicate Completes(stopBefore: nat -> bool, stopAfter: (nat, nat) -> bool, n: nat, k: nat) {
    !stopBefore(k) && Unstopped(stopAfter, k, n)
  }

  /** `iterative_search`: depth limits 1, 2, ... are searched in turn until
      the limit reaches the number of empty squares or a time check ends a
      pass; the best moves of the deepest completed pass are returned with
      that depth. `stopBefore(k)` is the time estimate made before starting
      depth `k`, `stopAfter(k, i)` the one after root move `i` at depth `k`. */
  method IterativeSearch(board: Board, p: Player, flips: seq<seq<Pos>>,
                         stopBefore: nat -> bool, stopAfter: (nat, nat) -> bool)
      returns (best: seq<nat>, depth: nat)
    requires board.Valid() && SearchOk(p) && FlipsOk(flips)
    ensures depth <= 64 - Total(board.cells)
    ensures forall k :: 1 <= k <= depth ==> Completes(stopBefore, stopAfter, |flips|, k)
    ensures depth < 64 - Total(board.cells) ==> !Completes(stopBefore, stopAfter, |flips|, depth + 1)
    ensures depth == 0 ==> best == []
    ensures depth > 0 ==> best == BestRoots(board.cells, p, flips, depth)
  {
    TotalBound(board.cells);
    var cap := 64 - (|board.whitePos| + |board.blackPos|);
    best := [];
    depth := 0;
    var curr := 0;
    while true
      invariant depth == curr <= cap == 64 - Total(board.cells)
      invariant forall k :: 1 <= k <= depth ==> Completes(stopBefore, stopAfter, |flips|, k)
      invariant depth == 0 ==> best == []
      invariant depth > 0 ==> best == BestRoots(board.cells, p, flips, depth)
      decreases cap - curr
    {
      if curr == cap {
        break;
      }
      curr := curr + 1;
      var temp, complete := Deepen(board, p, flips, curr, stopBefore, stopAfter);
      if complete {
        depth := curr;
        best := temp;
      } else {
        break;
      }
    }
  }

  /** One round of the deepening loop at depth limit `k`: the time estimate
      made before the depth, then the pass itself. */
  method Deepen(board: Board, p: Player, flips: seq<seq<Pos>>, k: nat,
                stopBefore: nat -> bool, stopAfter: (nat, nat) -> bool)
      returns (temp: seq<nat>, complete: bool)
    requires board.Valid() && SearchOk(p) && FlipsOk(flips)
    ensures complete <==> Completes(stopBefore, stopAfter, |flips|, k)
    ensures complete ==> temp == BestRoots(board.cells, p, flips, k)
  {
    if stopBefore(k) {
      return [], false;
    }
    temp, complete := SearchDepth(board, p, flips, k, stopAfter);
  }

  /** What `choose_move` did on its turn: passed for want of a legal move,
      played move number `index` of the legal-move list, or found no tied
      best move, where the engine panics in `r1.Intn(0)`. */
  datatype Turn = Passed | Played(index: nat) | NoBestMove

  /** `choose_move`: a player with legal moves plays one of them. A computer
      with several moves searches them (or, with the random strategy, draws
      one); a human types a move number. `pick` stands for the random draw
      `r1.Intn(n)` and for the typed number, both reduced below the length
      `n` of the list they index; `stopBefore` and `stopAfter` stand for the
      time checks of `iterative_search`, whose completed depth is returned. */
  method ChooseMove(board: Board, p: Player, computer: bool, pick: nat,
                    stopBefore: nat -> bool, stopAfter: (nat, nat) -> bool)
      returns (turn: Turn, depth: nat)
    requires board.Valid() && SearchOk(p)
    modifies board, board.squares
    ensures board.Valid()
    ensures var g, s := old(board.cells), LegalMoves(old(board.cells), p.color);
      && |s.moves| == |s.flips| && FlipsOk(s.flips)
      && (turn == Passed <==> s.moves == [])
      && (turn == NoBestMove <==>
            computer && p.evalType != Random && |s.moves| > 1 && !Completes(stopBefore, stopAfter, |s.flips|, 1))
      && (!turn.Played? ==> board.cells == g)
      && (turn.Played? ==>
            && turn.index < |s.moves|
            && board.cells == Paint(g, s.flips[turn.index], p.color)
            && Total(board.cells) == Total(g) + 1)
      && (!(computer && p.evalType != Random && |s.moves| > 1) ==> depth == 0)
      && (turn != Passed && computer && p.evalType != Random && |s.moves| > 1 ==>
            && depth <= 64 - Total(g)
            && (forall k :: 1 <= k <= depth ==> Completes(stopBefore, stopAfter, |s.flips|, k))
            && (depth < 64 - Total(g) ==> !Completes(stopBefore, stopAfter, |s.flips|, depth + 1)))
      && (turn.Played? && computer && p.evalType != Random && |s.moves| > 1 ==>
            && depth > 0
            && forall j :: 0 <= j < |s.flips| ==>
                 RootValue(g, p, s.flips, depth, j) <= RootValue(g, p, s.flips, depth, turn.index))
  {
    ghost var g := board.cells;
    var moves, flips := board.FindLegalMoves(p.color);
    LegalMovesSound(g, p.color);
    LegalFlipsOk(g, p.color);
    depth := 0;
    if |moves| == 0 {
      return Passed, depth;
    }
    TotalBelow(g, moves[0]);
    var index, found;
    index, found, depth := SelectMove(board, p, computer, pick, flips, stopBefore, stopAfter);
    if !found {
      return NoBestMove, depth;
    }
    PlayMoveCounts(g, p.color, index);
    board.PlacePieces(flips[index], p.color);
    turn := Played(index);
  }

  /** The choice `choose_move` makes among the flip sets `flips` of at
      least one legal move: the only move, a random one, the human's, or a
      random one among the moves tied best by the deepest completed pass of
      `iterative_search`; `found` is false where that search completed no
      pass and left the tie list empty. */
  method SelectMove(board: Board, p: Player, computer: bool, pick: nat, flips: seq<seq<Pos>>,
                    stopBefore: nat -> bool, stopAfter: (nat, nat) -> bool)
      returns (index: nat, found: bool, depth: nat)
    requires board.Valid() && SearchOk(p) && FlipsOk(flips) && |flips| > 0 && Total(board.cells) < 64
    ensures found ==> index < |flips|
    ensures !found <==> computer && p.evalType != Random && |flips| > 1 && !Completes(stopBefore, stopAfter, |flips|, 1)
    ensures !(computer && p.evalType != Random && |flips| > 1) ==> depth == 0
    ensures computer && p.evalType != Random && |flips| > 1 ==>
      && depth <= 64 - Total(board.cells)
      && (forall k :: 1 <= k <= depth ==> Completes(stopBefore, stopAfter, |flips|, k))
      && (depth < 64 - Total(board.cells) ==> !Completes(stopBefore, stopAfter, |flips|, depth + 1))
    ensures found && computer && p.evalType != Random && |flips| > 1 ==>
      && depth > 0
      && forall j :: 0 <= j < |flips| ==>
           RootValue(board.cells, p, flips, depth, j) <= RootValue(board.cells, p, flips, depth, index)
  {
    index, found, depth := 0, true, 0;
    if !computer {
      index := pick % |flips|;
    } else if |flips| > 1 {
      if p.evalType != Random {
        var best;
        best, depth := IterativeSearch(board, p, flips, stopBefore, stopAfter);
        BestRootsSpec(board.cells, p, flips, depth);
        if best == [] {
          assert depth == 0;
          return 0, false, depth;
        }
        index := best[pick % |best|];
        assert index in best && Completes(stopBefore, stopAfter, |flips|, 1);
      } else {
        index := pick % |flips|;
      }
    }
  }
}
