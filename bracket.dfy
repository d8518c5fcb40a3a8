/** The capture rule of `check_bracket`: walking outward from a square in each
    of eight directions, collecting opponent pieces that are closed off by a
    piece of the mover's colour. */
module Bracket {
  import opened Grid

  datatype Option<T> = None | Some(value: T)

  /** A unit step {row increment, column increment}. */
  datatype Dir = Dir(dr: int, dc: int)

  /** The eight directions of `initBoard`, in the order they are declared there:
      UP, DOWN, LEFT, RIGHT, UP_RIGHT, UP_LEFT, DOWN_RIGHT, DOWN_LEFT.
      The engine keeps them in a Go map, whose iteration order is unspecified;
      the model fixes this order. */
  const Directions: seq<Dir> := [Dir(-1, 0), Dir(1, 0), Dir(0, -1), Dir(0, 1),
                                 Dir(-1, 1), Dir(-1, -1), Dir(1, 1), Dir(1, -1)]

  /** The number of steps `check_bracket` takes in one direction at most. */
  const MaxSteps: nat := 8

  function Next(p: Pos, d: Dir): Pos {
    Pos(p.row + d.dr, p.col + d.dc)
  }

  /** One direction of `check_bracket`, starting just beyond `cur` with `fuel`
      steps left: None when the walk reaches the edge, an empty square or runs
      out of steps; Some(caps) when a `color` piece closes the run `caps` of
      `opp` pieces. */
  function Walk(g: Grid, cur: Pos, d: Dir, color: Side, opp: Side, fuel: nat): Option<seq<Pos>>
    requires color != opp
    decreases fuel
  {
    if fuel == 0 then None
    else
      var n := Next(cur, d);
      if !ValidSquare(n) || At(g, n) == E then None
      else if At(g, n) == opp then
        match Walk(g, n, d, color, opp, fuel - 1)
        case None => None
        case Some(rest) => Some([n] + rest)
      else Some([])
  }

  /** The pieces direction `d` contributes to the flip set of a move at `pos`. */
  function Captures(g: Grid, pos: Pos, d: Dir, color: Side, opp: Side): seq<Pos>
    requires color != opp
  {
    match Walk(g, pos, d, color, opp, MaxSteps)
    case None => []
    case Some(caps) => caps
  }

  /** The captures of the first `n` directions, in direction order. */
  function CapturesUpTo(g: Grid, pos: Pos, color: Side, opp: Side, n: nat): seq<Pos>
    requires color != opp && n <= |Directions|
  {
    if n == 0 then [] else CapturesUpTo(g, pos, color, opp, n - 1) + Captures(g, pos, Directions[n - 1], color, opp)
  }

  /** `check_bracket(pos, color, opp_color)`: `pos` followed by every piece
      the move would flip. */
  function FlipSet(g: Grid, pos: Pos, color: Side, opp: Side): seq<Pos>
    requires color != opp
  {
    [pos] + CapturesUpTo(g, pos, color, opp, |Directions|)
  }

  /** The square `k` steps from `p` in direction `d`. */
  function Step(p: Pos, d: Dir, k: nat): Pos {
    if k == 0 then p else Next(Step(p, d, k - 1), d)
  }

  lemma {:induction false} StepShift(p: Pos, d: Dir, k: nat)
    ensures Step(Next(p, d), d, k) == Step(p, d, k + 1)
  {
    if k > 0 {
      StepShift(p, d, k - 1);
    }
  }

  /** `caps` is the run of on-board `opp` pieces on the squares 1, 2, ...,
      |caps| steps from `cur` in direction `d`, and the square one step
      further holds `color`: a bracket. */
  ghost predicate IsBracket(g: Grid, cur: Pos, d: Dir, caps: seq<Pos>, color: Side, opp: Side) {
    && (forall i :: 0 <= i < |caps| ==> caps[i] == Step(cur, d, i + 1))
    && (forall i :: 0 <= i < |caps| ==> ValidSquare(caps[i]) && At(g, caps[i]) == opp)
    && ValidSquare(Step(cur, d, |caps| + 1))
    && At(g, Step(cur, d, |caps| + 1)) == color
  }

  lemma BracketTail(g: Grid, cur: Pos, d: Dir, caps: seq<Pos>, color: Side, opp: Side)
    requires caps != []
    ensures IsBracket(g, cur, d, caps, color, opp) <==>
              caps[0] == Next(cur, d) && ValidSquare(caps[0]) && At(g, caps[0]) == opp &&
              IsBracket(g, Next(cur, d), d, caps[1..], color, opp)
  {
    var n := Next(cur, d);
    var tail := caps[1..];
    forall k: nat
      ensures Step(n, d, k) == Step(cur, d, k + 1)
    {
      StepShift(cur, d, k);
    }
    assert forall i :: 0 <= i < |tail| ==> tail[i] == caps[i + 1];
    assert Step(cur, d, 1) == n;
  }

  /** A walk succeeds with `caps` exactly when `caps` is a bracket short
      enough for the steps left. */
  lemma {:induction false} WalkIsBracket(g: Grid, cur: Pos, d: Dir, color: Side, opp: Side, fuel: nat, caps: seq<Pos>)
    requires color != opp
    ensures Walk(g, cur, d, color, opp, fuel) == Some(caps) <==> IsBracket(g, cur, d, caps, color, opp) && |caps| < fuel
    decreases fuel
  {
    if fuel > 0 {
      var n := Next(cur, d);
      assert Step(cur, d, 1) == n;
      if caps != [] {
        var tail := caps[1..];
        BracketTail(g, cur, d, caps, color, opp);
        WalkIsBracket(g, n, d, color, opp, fuel - 1, tail);
        if ValidSquare(n) && At(g, n) == opp {
          var w := Walk(g, n, d, color, opp, fuel - 1);
          if w.Some? {
            assert Walk(g, cur, d, color, opp, fuel) == Some([n] + w.value);
            assert [n] + w.value == caps <==> caps[0] == n && w.value == tail by {
              if caps[0] == n && w.value == tail {
                assert caps == [caps[0]] + tail;
              }
            }
          } else {
            assert Walk(g, cur, d, color, opp, fuel) == None;
          }
        } else {
          assert !IsBracket(g, cur, d, caps, color, opp);
        }
      }
    }
  }

  function Sgn(x: int): int {
    if x > 0 then 1 else if x < 0 then -1 else 0
  }

  /** The direction in which `q` lies from `p`, component by component. */
  function DirectionOf(p: Pos, q: Pos): Dir {
    Dir(Sgn(q.row - p.row), Sgn(q.col - p.col))
  }

  predicate IsUnit(d: Dir) {
    -1 <= d.dr <= 1 && -1 <= d.dc <= 1 && d != Dir(0, 0)
  }

  /** A square beyond `Next(p, d)` in direction `d` is beyond `p` too. */
  lemma DirectionStep(p: Pos, d: Dir, q: Pos)
    requires IsUnit(d) && DirectionOf(Next(p, d), q) == d
    ensures DirectionOf(p, q) == d
  {
  }

  /** Every piece a walk collects lies in direction `d` from its start and
      holds `opp`. */
  lemma {:induction false} WalkDirection(g: Grid, cur: Pos, d: Dir, color: Side, opp: Side, fuel: nat)
    requires color != opp && IsUnit(d)
    ensures Walk(g, cur, d, color, opp, fuel).Some? ==>
              forall q :: q in Walk(g, cur, d, color, opp, fuel).value ==>
                DirectionOf(cur, q) == d && ValidSquare(q) && At(g, q) == opp
    decreases fuel
  {
    if fuel > 0 {
      var n := Next(cur, d);
      if ValidSquare(n) && At(g, n) == opp {
        WalkDirection(g, n, d, color, opp, fuel - 1);
        match Walk(g, n, d, color, opp, fuel - 1)
        case None =>
        case Some(rest) =>
          assert Walk(g, cur, d, color, opp, fuel).value == [n] + rest;
          forall q | q in [n] + rest
            ensures DirectionOf(cur, q) == d && ValidSquare(q) && At(g, q) == opp
          {
            if q == n {
              assert DirectionOf(cur, n) == d;
            } else {
              assert q in rest;
              DirectionStep(cur, d, q);
            }
          }
      }
    }
  }

  /** No piece is collected twice by one walk. */
  lemma {:induction false} WalkDistinct(g: Grid, cur: Pos, d: Dir, color: Side, opp: Side, fuel: nat)
    requires color != opp && IsUnit(d)
    ensures Walk(g, cur, d, color, opp, fuel).Some? ==> Distinct(Walk(g, cur, d, color, opp, fuel).value)
    decreases fuel
  {
    if fuel > 0 {
      var n := Next(cur, d);
      if ValidSquare(n) && At(g, n) == opp {
        WalkDistinct(g, n, d, color, opp, fuel - 1);
        WalkDirection(g, n, d, color, opp, fuel - 1);
        match Walk(g, n, d, color, opp, fuel - 1)
        case None =>
        case Some(rest) =>
          assert n !in rest by {
            assert DirectionOf(n, n) != d;
          }
          var caps := [n] + rest;
          assert Walk(g, cur, d, color, opp, fuel).value == caps;
          forall i, j | 0 <= i < j < |caps|
            ensures caps[i] != caps[j]
          {
            assert caps[j] == rest[j - 1];
            if i > 0 {
              assert caps[i] == rest[i - 1];
            } else {
              assert caps[j] in rest;
            }
          }
      }
    }
  }

  lemma DirectionsDistinct()
    ensures Distinct(Directions)
    ensures forall e :: 0 <= e < |Directions| ==> IsUnit(Directions[e])
  {
  }

  /** The pieces of the first `n` directions: each lies in one of those
      directions from `pos`, holds `opp`, and none appears twice. */
  lemma {:induction false} CapturesUpToCells(g: Grid, pos: Pos, color: Side, opp: Side, n: nat)
    requires color != opp && n <= |Directions|
    ensures Distinct(CapturesUpTo(g, pos, color, opp, n))
    ensures forall q :: q in CapturesUpTo(g, pos, color, opp, n) <==>
              exists e :: 0 <= e < n && q in Captures(g, pos, Directions[e], color, opp)
    ensures forall q :: q in CapturesUpTo(g, pos, color, opp, n) ==>
              DirectionOf(pos, q) in Directions[..n] && ValidSquare(q) && At(g, q) == opp
  {
    if n > 0 {
      DirectionsDistinct();
      CapturesUpToCells(g, pos, color, opp, n - 1);
      var d := Directions[n - 1];
      WalkDirection(g, pos, d, color, opp, MaxSteps);
      WalkDistinct(g, pos, d, color, opp, MaxSteps);
      var prev := CapturesUpTo(g, pos, color, opp, n - 1);
      var last := Captures(g, pos, d, color, opp);
      assert d !in Directions[..n - 1];
      var all := prev + last;
      forall i, j | 0 <= i < j < |all|
        ensures all[i] != all[j]
      {
        if j < |prev| {
          assert all[i] == prev[i] && all[j] == prev[j];
        } else if i >= |prev| {
          assert all[i] == last[i - |prev|] && all[j] == last[j - |prev|];
        } else {
          assert all[i] in prev && all[j] in last;
        }
      }
      forall q | q in all
        ensures DirectionOf(pos, q) in Directions[..n]
      {
        if q in prev {
          assert Directions[..n - 1] <= Directions[..n];
        } else {
          assert Directions[n - 1] in Directions[..n];
        }
      }
    }
  }

  /** `check_bracket`'s result starts with `pos`; every later entry is an
      on-board `opp` piece captured in one of the eight directions (and every
      piece captured in some direction is listed); no entry repeats. */
  lemma FlipSetCells(g: Grid, pos: Pos, color: Side, opp: Side)
    requires color != opp
    ensures FlipSet(g, pos, color, opp)[0] == pos
    ensures Distinct(FlipSet(g, pos, color, opp))
    ensures forall q :: q in FlipSet(g, pos, color, opp)[1..] <==>
              exists e :: 0 <= e < |Directions| && q in Captures(g, pos, Directions[e], color, opp)
    ensures forall i :: 1 <= i < |FlipSet(g, pos, color, opp)| ==>
              ValidSquare(FlipSet(g, pos, color, opp)[i]) && At(g, FlipSet(g, pos, color, opp)[i]) == opp
  {
    CapturesUpToCells(g, pos, color, opp, |Directions|);
    var caps := CapturesUpTo(g, pos, color, opp, |Directions|);
    var f := FlipSet(g, pos, color, opp);
    assert f[1..] == caps;
    assert Dir(0, 0) !in Directions;
    assert DirectionOf(pos, pos) == Dir(0, 0);
    forall i, j | 0 <= i < j < |f|
      ensures f[i] != f[j]
    {
      assert f[j] == caps[j - 1];
      if i > 0 {
        assert f[i] == caps[i - 1];
      } else {
        assert f[j] in caps;
      }
    }
    forall i | 1 <= i < |f|
      ensures ValidSquare(f[i]) && At(g, f[i]) == opp
    {
      assert f[i] == caps[i - 1];
      assert f[i] in caps;
    }
  }

  /** What each direction contributes is exactly its bracket: a non-empty
      contribution is a bracket, and a bracket within reach is what the
      direction contributes. */
  lemma CapturesAreBrackets(g: Grid, pos: Pos, d: Dir, color: Side, opp: Side, caps: seq<Pos>)
    requires color != opp && caps != []
    ensures Captures(g, pos, d, color, opp) == caps <==> IsBracket(g, pos, d, caps, color, opp) && |caps| < MaxSteps
  {
    WalkIsBracket(g, pos, d, color, opp, MaxSteps, caps);
  }

  lemma {:induction false} CapturesUpToEmpty(g: Grid, pos: Pos, color: Side, opp: Side, n: nat)
    requires color != opp && n <= |Directions|
    ensures CapturesUpTo(g, pos, color, opp, n) == [] <==>
              forall e :: 0 <= e < n ==> Captures(g, pos, Directions[e], color, opp) == []
  {
    if n > 0 {
      CapturesUpToEmpty(g, pos, color, opp, n - 1);
      var prev := CapturesUpTo(g, pos, color, opp, n - 1);
      var last := Captures(g, pos, Directions[n - 1], color, opp);
      assert CapturesUpTo(g, pos, color, opp, n) == prev + last;
      assert prev + last == [] <==> prev == [] && last == [] by {
        assert |prev + last| == |prev| + |last|;
      }
    }
  }

  /** A move at `pos` is legal (flip set longer than one) exactly when some
      direction closes a non-empty run of `opp` pieces with a `color` piece. */
  lemma FlipSetLegal(g: Grid, pos: Pos, color: Side, opp: Side)
    requires color != opp
    ensures |FlipSet(g, pos, color, opp)| > 1 <==>
              exists e, caps :: 0 <= e < |Directions| && caps != [] && |caps| < MaxSteps &&
                IsBracket(g, pos, Directions[e], caps, color, opp)
  {
    CapturesUpToEmpty(g, pos, color, opp, |Directions|);
    if |FlipSet(g, pos, color, opp)| > 1 {
      var e :| 0 <= e < |Directions| && Captures(g, pos, Directions[e], color, opp) != [];
      var caps := Captures(g, pos, Directions[e], color, opp);
      CapturesAreBrackets(g, pos, Directions[e], color, opp, caps);
    }
    if exists e, caps :: 0 <= e < |Directions| && caps != [] && |caps| < MaxSteps &&
                IsBracket(g, pos, Directions[e], caps, color, opp) {
      var e, caps :| 0 <= e < |Directions| && caps != [] && |caps| < MaxSteps &&
                IsBracket(g, pos, Directions[e], caps, color, opp);
      CapturesAreBrackets(g, pos, Directions[e], color, opp, caps);
    }
  }
}
