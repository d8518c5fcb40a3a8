/** The evaluation functions of the engine (`eval_score` and the scores it
    combines). Each reads the board only, so each is a function of the grid. */
module Evaluation {
  import opened Grid
  import opened Moves

  /** `eval_type` of a player: "static", "dynamic" or "random"; `eval_score`
      scores a "random" player as 0, and `choose_move` draws its move at
      random instead of searching. */
  datatype EvalType = Static | Dynamic | Random

  /** The fields of `Player` that the evaluation and the search read. */
  datatype Player = Player(color: Side, oppColor: Side, evalType: EvalType, heur: seq<seq<int>>)

  /** The players the engine builds: `opp_color` is the other colour. */
  predicate Opposed(p: Player) {
    p.oppColor == Other(p.color)
  }

  /** The same player seen from the other side of the board. */
  function Swapped(p: Player): (q: Player)
    ensures q.color == p.oppColor && q.oppColor == p.color
  {
    p.(color := p.oppColor, oppColor := p.color)
  }

  /** Go's integer `/`: the quotient truncated toward zero (Dafny's `/` is
      Euclidean, which differs for a negative dividend). */
  function Quot(a: int, b: int): int
    requires b > 0
  {
    if a >= 0 then a / b else -((-a) / b)
  }

  /** Truncating division is odd in its dividend: the property that makes
      every ratio score below change sign when the two sides swap. */
  lemma QuotOdd(a: int, b: int)
    requires b > 0
    ensures Quot(-a, b) == -Quot(a, b)
  {
  }

  lemma MulLess(x: int, y: int, b: int)
    requires b > 0 && x * b < y * b
    ensures x < y
  {
    assert (y - x) * b > 0;
  }

  /** A quotient whose dividend is smaller than m divisors is smaller than m. */
  lemma QuotBelow(a: int, b: int, m: nat)
    requires b > 0 && 0 <= a < m * b
    ensures 0 <= Quot(a, b) < m
  {
    var q := a / b;
    assert q * b <= a < m * b;
    MulLess(q, m, b);
  }

  /** The shape shared by the corner, corner-edge and mobility scores:
      100 * (mine - theirs) / (mine + theirs + 1), truncated. */
  function Ratio(mine: nat, theirs: nat): int {
    Quot(100 * (mine - theirs), theirs + mine + 1)
  }

  /** A ratio score lies strictly between -100 and 100, is zero when both
      sides count the same, is never negative when `mine` leads, and swapping
      the two counts negates it. */
  lemma RatioSpec(mine: nat, theirs: nat)
    ensures -100 < Ratio(mine, theirs) < 100
    ensures mine == theirs ==> Ratio(mine, theirs) == 0
    ensures mine >= theirs ==> Ratio(mine, theirs) >= 0
    ensures Ratio(theirs, mine) == -Ratio(mine, theirs)
  {
    var b := theirs + mine + 1;
    if mine >= theirs {
      QuotBelow(100 * (mine - theirs), b, 100);
    } else {
      QuotBelow(100 * (theirs - mine), b, 100);
    }
    QuotOdd(100 * (mine - theirs), b);
    assert 100 * (theirs - mine) == -(100 * (mine - theirs));
  }

  /** Counting along a list of squares as the loops of `corner_score` and
      `around_empty_corner_score` do: a square of the player's colour counts
      for the player, else one of `opp_color` counts for the opponent. */
  function Tally(g: Grid, ps: seq<Pos>, color: Side, opp: Side): (r: (nat, nat))
    requires forall i :: 0 <= i < |ps| ==> ValidSquare(ps[i])
    ensures r.0 + r.1 <= |ps|
  {
    if ps == [] then (0, 0)
    else
      var prev := Tally(g, ps[..|ps| - 1], color, opp);
      var sq := At(g, ps[|ps| - 1]);
      if sq == color then (prev.0 + 1, prev.1)
      else if sq == opp then (prev.0, prev.1 + 1)
      else prev
  }

  /** Counting from the other side exchanges the two tallies. */
  lemma {:induction false} TallySwap(g: Grid, ps: seq<Pos>, color: Side, opp: Side)
    requires forall i :: 0 <= i < |ps| ==> ValidSquare(ps[i])
    requires color != opp
    ensures Tally(g, ps, opp, color) == (Tally(g, ps, color, opp).1, Tally(g, ps, color, opp).0)
  {
    if ps != [] {
      TallySwap(g, ps[..|ps| - 1], color, opp);
    }
  }

  /** The four corners, in the order of `corners`. */
  const Corners: seq<Pos> := [Pos(0, 0), Pos(0, 7), Pos(7, 0), Pos(7, 7)]

  /** The squares next to each corner, three per corner in the order of `corners`. */
  const Edges: seq<Pos> := [Pos(0, 1), Pos(1, 0), Pos(1, 1), Pos(0, 6), Pos(1, 6), Pos(1, 7),
                            Pos(6, 0), Pos(6, 1), Pos(7, 1), Pos(6, 6), Pos(6, 7), Pos(7, 6)]

  /** `corner_score`. */
  function CornerScore(p: Player, g: Grid): (r: int)
    ensures -100 < r < 100
  {
    var t := Tally(g, Corners, p.color, p.oppColor);
    RatioSpec(t.0, t.1);
    Ratio(t.0, t.1)
  }

  /** The squares next to the first `n` corners that are still empty. */
  function AroundEmpty(g: Grid, n: nat): (r: seq<Pos>)
    requires n <= 4
    ensures forall i :: 0 <= i < |r| ==> ValidSquare(r[i])
    ensures |r| <= 3 * n
  {
    if n == 0 then []
    else AroundEmpty(g, n - 1) + (if At(g, Corners[n - 1]) == E then Edges[3 * (n - 1)..3 * n] else [])
  }

  /** `around_empty_corner_score`: pieces beside an empty corner count against
      their owner. */
  function AroundEmptyCornerScore(p: Player, g: Grid): (r: int)
    ensures -100 < r < 100
  {
    var t := Tally(g, AroundEmpty(g, 4), p.color, p.oppColor);
    AroundIsRatio(t.0, t.1);
    Quot(-100 * (t.0 - t.1), t.1 + t.0 + 1)
  }

  /** The corner-edge score is the ratio score with the two sides exchanged. */
  lemma AroundIsRatio(mine: nat, theirs: nat)
    ensures Quot(-100 * (mine - theirs), theirs + mine + 1) == Ratio(theirs, mine)
    ensures -100 < Ratio(theirs, mine) < 100
  {
    assert -100 * (mine - theirs) == 100 * (theirs - mine);
    RatioSpec(theirs, mine);
  }

  /** `mobility_score`: the player's legal moves against the opponent's. */
  function MobilityScore(p: Player, g: Grid): (r: int)
    ensures -100 < r < 100
  {
    RatioSpec(|LegalMoves(g, p.color).moves|, |LegalMoves(g, p.oppColor).moves|);
    Ratio(|LegalMoves(g, p.color).moves|, |LegalMoves(g, p.oppColor).moves|)
  }

  /** `piece_diff_score`: black's count against white's, the other way round
      for a white player. It divides by the number of pieces, so the board
      must not be empty (Go would panic). */
  function PieceDiffScore(p: Player, g: Grid): (r: int)
    requires Total(g) > 0
    ensures -100 <= r <= 100
  {
    var mine := if p.color == W then Count(g, W) else Count(g, B);
    var theirs := if p.color == W then Count(g, B) else Count(g, W);
    DiffRange(mine, theirs);
    Quot(100 * (mine - theirs), theirs + mine)
  }

  /** 100 * (mine - theirs) / (mine + theirs) lies within [-100, 100], and
      exchanging the sides negates it. */
  lemma DiffRange(mine: nat, theirs: nat)
    requires mine + theirs > 0
    ensures -100 <= Quot(100 * (mine - theirs), theirs + mine) <= 100
    ensures Quot(100 * (theirs - mine), mine + theirs) == -Quot(100 * (mine - theirs), theirs + mine)
  {
    var b := theirs + mine;
    if mine >= theirs {
      QuotBelow(100 * (mine - theirs), b, 101);
    } else {
      QuotBelow(100 * (theirs - mine), b, 101);
    }
    QuotOdd(100 * (mine - theirs), b);
    assert 100 * (theirs - mine) == -(100 * (mine - theirs));
  }

  /** The weights of `heur` are bounded so that a sum over at most 64 squares
      stays below 2^53: every score is then an integer a float64 holds exactly. */
  const HeurBound: int := 0x4000_0000_0000

  /** The bound every score stays within: 2^52 = 64 * HeurBound. Such scores
      convert to float64 exactly and lie strictly between the search's
      sentinels -2^63 and 2^63. */
  const ScoreBound: int := 0x10_0000_0000_0000

  predicate HeurOk(h: seq<seq<int>>) {
    && |h| == 8
    && (forall r :: 0 <= r < 8 ==> |h[r]| == 8)
    && (forall r, k :: 0 <= r < 8 && 0 <= k < 8 ==> -HeurBound <= h[r][k] <= HeurBound)
  }

  /** The sum of the weights of the listed squares. */
  function HeurSum(h: seq<seq<int>>, ps: seq<Pos>): (r: int)
    requires HeurOk(h)
    requires forall i :: 0 <= i < |ps| ==> ValidSquare(ps[i])
    ensures -|ps| * HeurBound <= r <= |ps| * HeurBound
  {
    if ps == [] then 0
    else
      var q := ps[|ps| - 1];
      assert ValidSquare(q);
      HeurSum(h, ps[..|ps| - 1]) + h[q.row][q.col]
  }

  /** With one weight on every square the sum is that weight times the count. */
  lemma {:induction false} HeurSumUniform(h: seq<seq<int>>, ps: seq<Pos>, w: int)
    requires HeurOk(h) && forall r, k :: 0 <= r < 8 && 0 <= k < 8 ==> h[r][k] == w
    requires forall i :: 0 <= i < |ps| ==> ValidSquare(ps[i])
    ensures HeurSum(h, ps) == w * |ps|
  {
    if ps != [] {
      HeurSumUniform(h, ps[..|ps| - 1], w);
    }
  }

  /** `heur_score`: the weights of the squares on the player's piece list. */
  function HeurScore(p: Player, g: Grid): (r: int)
    requires HeurOk(p.heur)
    ensures -ScoreBound <= r <= ScoreBound
  {
    var own := if p.color == W then Pieces(g, W) else Pieces(g, B);
    PiecesSpec(g, p.color);
    PiecesSpec(g, Other(p.color));
    HeurSum(p.heur, own)
  }

  /** What `eval_score` needs to return without a panic: a static player's
      table is 8x8 (and bounded), and a dynamic player never evaluates an
      empty board (`piece_diff_score` would divide by zero). */
  predicate Evaluable(p: Player, g: Grid) {
    && (p.evalType == Static ==> HeurOk(p.heur))
    && (p.evalType == Dynamic ==> Total(g) > 0)
  }

  /** `eval_score`: the static table, or the phase-weighted dynamic sum. */
  function EvalScore(p: Player, g: Grid): (r: int)
    requires Evaluable(p, g)
    ensures -ScoreBound <= r <= ScoreBound
  {
    match p.evalType
    case Static => HeurScore(p, g)
    case Dynamic =>
      (match GamePhase(g)
       case EarlyGame =>
         20 * CornerScore(p, g) + 5 * AroundEmptyCornerScore(p, g) + 6 * MobilityScore(p, g) + -1 * PieceDiffScore(p, g)
       case MidGame =>
         20 * CornerScore(p, g) + 5 * AroundEmptyCornerScore(p, g) + 6 * MobilityScore(p, g)
       case LateGame =>
         20 * CornerScore(p, g) + 5 * AroundEmptyCornerScore(p, g) + 4 * MobilityScore(p, g) + 10 * PieceDiffScore(p, g))
    case Random => 0
  }

  /** Scoring the corners for the opponent negates the score. */
  lemma CornerSwap(p: Player, g: Grid)
    requires p.color != p.oppColor
    ensures CornerScore(Swapped(p), g) == -CornerScore(p, g)
  {
    var t := Tally(g, Corners, p.color, p.oppColor);
    TallySwap(g, Corners, p.color, p.oppColor);
    RatioSpec(t.0, t.1);
  }

  lemma AroundSwap(p: Player, g: Grid)
    requires p.color != p.oppColor
    ensures AroundEmptyCornerScore(Swapped(p), g) == -AroundEmptyCornerScore(p, g)
  {
    var ps := AroundEmpty(g, 4);
    var t := Tally(g, ps, p.color, p.oppColor);
    TallySwap(g, ps, p.color, p.oppColor);
    AroundIsRatio(t.0, t.1);
    AroundIsRatio(t.1, t.0);
    RatioSpec(t.1, t.0);
  }

  lemma MobilitySwap(p: Player, g: Grid)
    ensures MobilityScore(Swapped(p), g) == -MobilityScore(p, g)
  {
    RatioSpec(|LegalMoves(g, p.color).moves|, |LegalMoves(g, p.oppColor).moves|);
  }

  lemma PieceDiffSwap(p: Player, g: Grid)
    requires Total(g) > 0 && Opposed(p)
    ensures PieceDiffScore(Swapped(p), g) == -PieceDiffScore(p, g)
  {
    DiffRange(Count(g, p.color), Count(g, p.oppColor));
  }

  /** The dynamic evaluation is zero-sum: scoring the same board for the
      opponent negates it (every term is an odd function of the difference,
      because Go's division truncates toward zero). */
  lemma DynamicZeroSum(p: Player, g: Grid)
    requires p.evalType == Dynamic && Total(g) > 0 && Opposed(p)
    ensures EvalScore(Swapped(p), g) == -EvalScore(p, g)
  {
    CornerSwap(p, g);
    AroundSwap(p, g);
    MobilitySwap(p, g);
    PieceDiffSwap(p, g);
  }

  /** A static player whose table gives every square weight w scores w per
      own piece. */
  lemma StaticUniform(p: Player, g: Grid, w: int)
    requires p.evalType == Static && HeurOk(p.heur)
    requires forall r, k :: 0 <= r < 8 && 0 <= k < 8 ==> p.heur[r][k] == w
    ensures EvalScore(p, g) == w * Count(g, p.color)
  {
    PiecesSpec(g, p.color);
    HeurSumUniform(p.heur, Pieces(g, p.color), w);
  }
}
