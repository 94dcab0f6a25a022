/**
 * Routes of sequence flows: a rectilinear list of way points from the right of the source to the
 * left of the target, with repeated and collinear points taken out. Coordinates are exact.
 */
module Waypoints {

  const LOOP_DETOUR_X := 56.0
  const LOOP_DETOUR_Y := 56.0

  datatype Point = Point(x: real, y: real)

  datatype Bounds = Bounds(x: real, y: real, width: real, height: real)

  predicate Aligned(p: Point, q: Point) {
    p.x == q.x || p.y == q.y
  }

  predicate Collinear(p: Point, q: Point, r: Point) {
    (p.y == q.y && q.y == r.y) || (p.x == q.x && q.x == r.x)
  }

  ghost predicate Rectilinear(s: seq<Point>) {
    forall i :: 0 <= i < |s| - 1 ==> Aligned(s[i], s[i + 1])
  }

  ghost predicate NoRepeat(s: seq<Point>) {
    forall i :: 0 <= i < |s| - 1 ==> s[i] != s[i + 1]
  }

  ghost predicate NoneCollinear(s: seq<Point>) {
    forall i :: 0 < i < |s| - 1 ==> !Collinear(s[i - 1], s[i], s[i + 1])
  }

  /** A horizontal segment follows a vertical one and the other way round. */
  ghost predicate Alternating(s: seq<Point>) {
    forall i :: 0 < i < |s| - 1 ==> Turned(s[i - 1], s[i], s[i + 1])
  }

  predicate Turned(p: Point, q: Point, r: Point) {
    (p.y == q.y && q.x == r.x) || (p.x == q.x && q.y == r.y)
  }

  // ---- Taking out repeated points ---------------------------------------------------

  function Deduped(s: seq<Point>): seq<Point> {
    if |s| == 0 then [] else
      var rest := Deduped(s[..|s| - 1]);
      if |rest| > 0 && rest[|rest| - 1] == s[|s| - 1] then rest else rest + [s[|s| - 1]]
  }

  lemma OneMorePoint(s: seq<Point>, p: Point)
    ensures Rectilinear(s + [p]) <==> Rectilinear(s) && (|s| > 0 ==> Aligned(s[|s| - 1], p))
    ensures NoRepeat(s + [p]) <==> NoRepeat(s) && (|s| > 0 ==> s[|s| - 1] != p)
  {
    hide Aligned;
    var t := s + [p];
    assert |s| > 0 ==> t[|s| - 1] == s[|s| - 1] && t[|s| - 1 + 1] == p;
    if Rectilinear(t) {
      forall i | 0 <= i < |s| - 1 ensures Aligned(s[i], s[i + 1]) {
        assert Aligned(t[i], t[i + 1]);
      }
    }
    if NoRepeat(t) {
      forall i | 0 <= i < |s| - 1 ensures s[i] != s[i + 1] {
        assert t[i] != t[i + 1];
      }
    }
  }

  lemma NoPoints()
    ensures NoRepeat([]) && Rectilinear([])
  {
  }

  lemma {:induction false} DedupedIs(s: seq<Point>)
    ensures NoRepeat(Deduped(s)) && (|Deduped(s)| == 0 <==> |s| == 0)
    ensures |s| > 0 ==> Deduped(s)[0] == s[0] && Deduped(s)[|Deduped(s)| - 1] == s[|s| - 1]
    ensures Rectilinear(s) ==> Rectilinear(Deduped(s))
    ensures NoRepeat(s) ==> Deduped(s) == s
  {
    hide Rectilinear, NoRepeat, Aligned;
    NoPoints();
    if |s| > 0 {
      var t, p := s[..|s| - 1], s[|s| - 1];
      DedupedIs(t);
      assert s == t + [p];
      var d := Deduped(t);
      assert Deduped(s) == if |d| > 0 && d[|d| - 1] == p then d else d + [p];
      hide Deduped;
      OneMorePoint(t, p);
      OneMorePoint(d, p);
    }
  }

  // ---- Taking out collinear points --------------------------------------------------

  /** An end point, or a point not in line with both of its neighbours. */
  predicate IsTurn(d: seq<Point>, i: nat)
    requires i < |d|
  {
    i == 0 || i == |d| - 1 || !Collinear(d[i - 1], d[i], d[i + 1])
  }

  /** The turns among the first `n` points. */
  function Turns(d: seq<Point>, n: nat): (r: seq<nat>)
    requires n <= |d|
    ensures forall k :: 0 <= k < |r| ==> r[k] < n
  {
    if n == 0 then [] else Turns(d, n - 1) + if IsTurn(d, n - 1) then [n - 1] else []
  }

  function At(d: seq<Point>, indices: seq<nat>): (r: seq<Point>)
    requires forall k :: 0 <= k < |indices| ==> indices[k] < |d|
    ensures |r| == |indices| && forall k :: 0 <= k < |r| ==> r[k] == d[indices[k]]
  {
    if |indices| == 0 then [] else At(d, indices[..|indices| - 1]) + [d[indices[|indices| - 1]]]
  }

  function Optimised(s: seq<Point>): seq<Point> {
    At(Deduped(s), Turns(Deduped(s), |Deduped(s)|))
  }

  lemma AtMore(d: seq<Point>, indices: seq<nat>, i: nat)
    requires i < |d| && forall k :: 0 <= k < |indices| ==> indices[k] < |d|
    ensures At(d, indices + [i]) == At(d, indices) + [d[i]]
  {
  }

  method OptimizeWaypoints(waypoints: seq<Point>) returns (optimized: seq<Point>)
    ensures optimized == Optimised(waypoints)
  {
    hide At, IsTurn;
    var deduped: seq<Point> := [];
    for i := 0 to |waypoints|
      invariant deduped == Deduped(waypoints[..i])
    {
      assert waypoints[..i + 1][..i] == waypoints[..i];
      var isDuplicate := |deduped| > 0 && deduped[|deduped| - 1] == waypoints[i];
      if !isDuplicate {
        deduped := deduped + [waypoints[i]];
      }
    }
    assert waypoints[..|waypoints|] == waypoints;
    var n := |deduped|;
    if n <= 2 {
      ShortIsAllTurns(deduped);
      return deduped;
    }
    optimized := [deduped[0]];
    FirstIsTurn(deduped);
    for index := 1 to n - 1
      invariant optimized == At(deduped, Turns(deduped, index))
    {
      var previous, current, next := deduped[index - 1], deduped[index], deduped[index + 1];
      var horizontal := previous.y == current.y && current.y == next.y;
      var vertical := previous.x == current.x && current.x == next.x;
      InnerTurn(deduped, index);
      if !(horizontal || vertical) {
        AtMore(deduped, Turns(deduped, index), index);
        optimized := optimized + [current];
      }
    }
    LastIsTurn(deduped);
    AtMore(deduped, Turns(deduped, n - 1), n - 1);
    optimized := optimized + [deduped[n - 1]];
  }

  lemma FirstIsTurn(d: seq<Point>)
    requires |d| > 0
    ensures At(d, Turns(d, 1)) == [d[0]]
  {
    assert Turns(d, 1) == Turns(d, 0) + [0];
  }

  lemma LastIsTurn(d: seq<Point>)
    requires |d| > 0
    ensures IsTurn(d, |d| - 1)
  {
  }

  lemma InnerTurn(d: seq<Point>, i: nat)
    requires 0 < i < |d| - 1
    ensures IsTurn(d, i) <==> !Collinear(d[i - 1], d[i], d[i + 1])
  {
  }

  lemma {:induction false} AllTurns(d: seq<Point>, n: nat)
    requires n <= |d| && forall i :: 0 <= i < n ==> IsTurn(d, i)
    ensures At(d, Turns(d, n)) == d[..n]
  {
    hide At, IsTurn;
    if n > 0 {
      AllTurns(d, n - 1);
      AtMore(d, Turns(d, n - 1), n - 1);
      assert d[..n] == d[..n - 1] + [d[n - 1]];
    } else {
      NoTurns(d);
    }
  }

  lemma NoTurns(d: seq<Point>)
    ensures At(d, []) == []
  {
  }

  lemma ShortIsAllTurns(d: seq<Point>)
    requires |d| <= 2
    ensures At(d, Turns(d, |d|)) == d
  {
    AllTurns(d, |d|);
  }

  // ---- The turns in order -----------------------------------------------------------

  lemma {:induction false} TurnsAre(d: seq<Point>, n: nat)
    requires n <= |d|
    ensures forall i :: 0 <= i < n ==> (i in Turns(d, n) <==> IsTurn(d, i))
    ensures forall j, k :: 0 <= j < k < |Turns(d, n)| ==> Turns(d, n)[j] < Turns(d, n)[k]
    ensures n > 0 ==> |Turns(d, n)| > 0 && Turns(d, n)[0] == 0
    ensures n > 0 && IsTurn(d, n - 1) ==> Turns(d, n)[|Turns(d, n)| - 1] == n - 1
  {
    hide IsTurn;
    if n > 0 {
      TurnsAre(d, n - 1);
      if n == 1 {
        assert IsTurn(d, 0) by { FirstTurn(d); }
      }
    }
  }

  lemma FirstTurn(d: seq<Point>)
    requires |d| > 0
    ensures IsTurn(d, 0)
  {
  }

  /** Neighbours among the turns have no turn between them. */
  lemma NoTurnBetween(d: seq<Point>, k: nat, i: nat)
    requires k + 1 < |Turns(d, |d|)| && Turns(d, |d|)[k] < i < Turns(d, |d|)[k + 1]
    ensures !IsTurn(d, i)
  {
    var ts := Turns(d, |d|);
    TurnsAre(d, |d|);
    forall j | 0 <= j < |ts| ensures ts[j] != i {
      if j <= k {
        assert ts[j] <= ts[k];
      } else {
        assert ts[k + 1] <= ts[j];
      }
    }
    assert i !in ts;
  }

  /** From `i` to `j` the route keeps to one line; `horizontal` says which. */
  ghost predicate Run(d: seq<Point>, i: nat, j: nat, horizontal: bool) {
    i <= j < |d| && forall k :: i <= k < j ==> if horizontal then d[k].y == d[k + 1].y else d[k].x == d[k + 1].x
  }

  lemma {:induction false} RunEnds(d: seq<Point>, i: nat, j: nat, horizontal: bool)
    requires Run(d, i, j, horizontal)
    ensures if horizontal then d[i].y == d[j].y else d[i].x == d[j].x
    decreases j - i
  {
    if i < j {
      RunEnds(d, i, j - 1, horizontal);
    }
  }

  /** Without a turn in between, the direction of the first segment is kept. */
  lemma {:induction false} StraightBetween(d: seq<Point>, i: nat, j: nat, horizontal: bool)
    requires NoRepeat(d) && i < j < |d| && Run(d, i, i + 1, horizontal)
    requires forall k :: i < k < j ==> !IsTurn(d, k)
    ensures Run(d, i, j, horizontal)
    decreases j - i
  {
    if i + 1 < j {
      StraightBetween(d, i, j - 1, horizontal);
      assert !IsTurn(d, j - 1);
      assert d[j - 2] != d[j - 1];
      assert if horizontal then d[j - 2].y == d[j - 1].y else d[j - 2].x == d[j - 1].x;
    }
  }

  /** The segment between neighbouring turns, with the direction of its first piece. */
  lemma SegmentIsRun(d: seq<Point>, k: nat, horizontal: bool)
    requires NoRepeat(d) && k + 1 < |Turns(d, |d|)|
    requires Run(d, Turns(d, |d|)[k], Turns(d, |d|)[k] + 1, horizontal)
    ensures Run(d, Turns(d, |d|)[k], Turns(d, |d|)[k + 1], horizontal)
  {
    var ts := Turns(d, |d|);
    TurnsAre(d, |d|);
    forall i | ts[k] < i < ts[k + 1] ensures !IsTurn(d, i) {
      NoTurnBetween(d, k, i);
    }
    StraightBetween(d, ts[k], ts[k + 1], horizontal);
  }

  ghost predicate Horizontal(d: seq<Point>, i: nat) {
    i + 1 < |d| && d[i].y == d[i + 1].y
  }

  lemma SegmentRuns(d: seq<Point>, k: nat)
    requires NoRepeat(d) && Rectilinear(d) && k + 1 < |Turns(d, |d|)|
    ensures Turns(d, |d|)[k] < Turns(d, |d|)[k + 1]
    ensures Run(d, Turns(d, |d|)[k], Turns(d, |d|)[k + 1], Horizontal(d, Turns(d, |d|)[k]))
  {
    var ts := Turns(d, |d|);
    TurnsAre(d, |d|);
    assert Aligned(d[ts[k]], d[ts[k] + 1]);
    SegmentIsRun(d, k, Horizontal(d, ts[k]));
  }

  /** At an inner turn the direction changes. */
  lemma TurnsTurn(d: seq<Point>, k: nat)
    requires NoRepeat(d) && Rectilinear(d) && k + 2 < |Turns(d, |d|)|
    ensures Horizontal(d, Turns(d, |d|)[k]) != Horizontal(d, Turns(d, |d|)[k + 1])
  {
    var ts := Turns(d, |d|);
    TurnsAre(d, |d|);
    var h, i, j := Horizontal(d, ts[k]), ts[k], ts[k + 1];
    SegmentRuns(d, k);
    assert ts[k + 1] < ts[k + 2];
    assert 0 < j < |d| - 1 && IsTurn(d, j) by { assert ts[k + 1] in ts; }
    assert if h then d[j - 1].y == d[j].y else d[j - 1].x == d[j].x;
    assert Aligned(d[j], d[j + 1]);
  }

  lemma SegmentAligned(d: seq<Point>, k: nat)
    requires NoRepeat(d) && Rectilinear(d) && k + 1 < |Turns(d, |d|)|
    ensures var i, j := Turns(d, |d|)[k], Turns(d, |d|)[k + 1];
            if Horizontal(d, i) then d[i].y == d[j].y else d[i].x == d[j].x
  {
    hide Run, Turns, NoRepeat, Rectilinear, Horizontal;
    SegmentRuns(d, k);
    RunEnds(d, Turns(d, |d|)[k], Turns(d, |d|)[k + 1], Horizontal(d, Turns(d, |d|)[k]));
  }

  lemma TurnsAlternate(d: seq<Point>)
    requires NoRepeat(d) && Rectilinear(d)
    ensures Rectilinear(At(d, Turns(d, |d|))) && Alternating(At(d, Turns(d, |d|)))
  {
    hide At, Turns, NoRepeat, Horizontal;
    var ts := Turns(d, |d|);
    var r := At(d, ts);
    forall k | 0 <= k < |r| - 1 ensures Aligned(r[k], r[k + 1]) {
      SegmentAligned(d, k);
    }
    forall k | 0 < k < |r| - 1 ensures Turned(r[k - 1], r[k], r[k + 1]) {
      SegmentAligned(d, k - 1);
      SegmentAligned(d, k);
      TurnsTurn(d, k - 1);
    }
  }

  lemma EndsAreKept(d: seq<Point>)
    requires |d| > 0
    ensures var r := At(d, Turns(d, |d|)); |r| > 0 && r[0] == d[0] && r[|r| - 1] == d[|d| - 1]
  {
    TurnsAre(d, |d|);
    LastIsTurn(d);
  }

  /**
   * Optimising any non-empty rectilinear list keeps its ends and leaves a rectilinear list whose
   * segments alternate in direction.
   */
  lemma OptimisedIsRectilinear(s: seq<Point>)
    requires |s| > 0 && Rectilinear(s)
    ensures var r := Optimised(s);
            && |r| > 0 && r[0] == s[0] && r[|r| - 1] == s[|s| - 1]
            && Rectilinear(r) && Alternating(r)
  {
    hide Deduped, At, Turns, NoRepeat, Rectilinear, Alternating;
    DedupedIs(s);
    EndsAreKept(Deduped(s));
    TurnsAlternate(Deduped(s));
  }

  // ---- The drawn line ---------------------------------------------------------------

  /** The three points are on one horizontal or on one vertical line. */
  predicate OnLine(p: Point, a: Point, b: Point) {
    (p.y == a.y && p.y == b.y) || (p.x == a.x && p.x == b.x)
  }

  lemma {:induction false} DedupedKeepsPoints(s: seq<Point>, p: Point)
    ensures p in Deduped(s) <==> p in s
  {
    if |s| > 0 {
      DedupedKeepsPoints(s[..|s| - 1], p);
      assert s == s[..|s| - 1] + [s[|s| - 1]];
    }
  }

  /** The stretch between turns in which a point lies. */
  lemma StretchOf(d: seq<Point>, i: nat) returns (k: nat)
    requires i + 1 < |d|
    ensures k + 1 < |Turns(d, |d|)| && Turns(d, |d|)[k] <= i < Turns(d, |d|)[k + 1]
  {
    hide Turns, IsTurn;
    var ts := Turns(d, |d|);
    TurnsAre(d, |d|);
    LastIsTurn(d);
    k := 0;
    while ts[k + 1] <= i
      invariant k + 1 < |ts| && ts[k] <= i
      decreases |ts| - k
    {
      k := k + 1;
    }
  }

  lemma RunPart(d: seq<Point>, i: nat, k: nat, j: nat, horizontal: bool)
    requires Run(d, i, j, horizontal) && i <= k <= j
    ensures Run(d, i, k, horizontal) && Run(d, k, j, horizontal)
  {
  }

  lemma StretchIsStraight(d: seq<Point>, i: nat) returns (k: nat)
    requires NoRepeat(d) && Rectilinear(d) && i < |d| && |d| > 1
    ensures k + 1 < |Turns(d, |d|)|
    ensures OnLine(d[i], d[Turns(d, |d|)[k]], d[Turns(d, |d|)[k + 1]])
  {
    hide Turns, NoRepeat, Rectilinear, Run, Horizontal;
    k := StretchOf(d, if i + 1 < |d| then i else i - 1);
    SegmentRuns(d, k);
    var a, b := Turns(d, |d|)[k], Turns(d, |d|)[k + 1];
    var h := Horizontal(d, a);
    RunPart(d, a, i, b, h);
    RunEnds(d, a, i, h);
    RunEnds(d, i, b, h);
  }

  /** Every point of a rectilinear route is on the line of a segment of the optimised one. */
  lemma LineIsKept(s: seq<Point>, p: Point)
    requires Rectilinear(s) && p in s
    ensures var r := Optimised(s);
            r == [p] || exists k :: 0 <= k < |r| - 1 && OnLine(p, r[k], r[k + 1])
  {
    hide Rectilinear, NoRepeat, Deduped, Turns, OnLine, IsTurn;
    DedupedIs(s);
    DedupedKeepsPoints(s, p);
    var d, r := Deduped(s), Optimised(s);
    var i :| 0 <= i < |d| && d[i] == p;
    if |d| == 1 {
      ShortIsAllTurns(d);
      assert d == [p];
    } else {
      var k := StretchIsStraight(d, i);
      assert OnLine(p, r[k], r[k + 1]);
    }
  }

  /** Only points of the route are used. */
  lemma OptimisedFromRoute(s: seq<Point>, k: nat)
    requires k < |Optimised(s)|
    ensures Optimised(s)[k] in s
  {
    hide Deduped, Turns;
    DedupedKeepsPoints(s, Optimised(s)[k]);
  }

  // ---- When nothing repeated or collinear is left -----------------------------------

  /** A straight stretch between two turns that ends where it began. */
  ghost predicate Returns(d: seq<Point>, i: nat, j: nat) {
    i < j < |d| && d[i] == d[j] && IsTurn(d, i) && IsTurn(d, j) && forall k :: i < k < j ==> !IsTurn(d, k)
  }

  ghost predicate NeverReturns(d: seq<Point>) {
    forall i: nat, j: nat :: i < j < |d| ==> !Returns(d, i, j)
  }

  /** An alternating list has a collinear inner point only where it repeats one. */
  lemma AlternatingClean(r: seq<Point>)
    requires Alternating(r) && NoRepeat(r)
    ensures NoneCollinear(r)
  {
    forall i | 0 < i < |r| - 1 ensures !Collinear(r[i - 1], r[i], r[i + 1]) {
      assert Turned(r[i - 1], r[i], r[i + 1]) && r[i - 1] != r[i] && r[i] != r[i + 1];
    }
  }

  /** Neighbouring indices with no turn in between are neighbours in the list of turns. */
  lemma NextTurn(d: seq<Point>, i: nat, j: nat) returns (k: nat)
    requires i < j < |d| && IsTurn(d, i) && IsTurn(d, j) && forall k :: i < k < j ==> !IsTurn(d, k)
    ensures k + 1 < |Turns(d, |d|)| && Turns(d, |d|)[k] == i && Turns(d, |d|)[k + 1] == j
  {
    var ts := Turns(d, |d|);
    TurnsAre(d, |d|);
    k :| 0 <= k < |ts| && ts[k] == i;
    var l :| 0 <= l < |ts| && ts[l] == j;
    assert k < l;
    assert ts[k + 1] in ts && IsTurn(d, ts[k + 1]);
    assert ts[k] < ts[k + 1] <= ts[l];
  }

  lemma ReturnRepeats(d: seq<Point>, i: nat, j: nat)
    requires Returns(d, i, j)
    ensures !NoRepeat(At(d, Turns(d, |d|)))
  {
    hide At, Turns, IsTurn;
    var k := NextTurn(d, i, j);
    var r := At(d, Turns(d, |d|));
    assert r[k] == r[k + 1];
  }

  lemma RepeatReturns(d: seq<Point>, k: nat)
    requires k + 1 < |Turns(d, |d|)| && d[Turns(d, |d|)[k]] == d[Turns(d, |d|)[k + 1]]
    ensures Returns(d, Turns(d, |d|)[k], Turns(d, |d|)[k + 1])
  {
    hide Turns, IsTurn;
    var ts := Turns(d, |d|);
    TurnsAre(d, |d|);
    forall i | ts[k] < i < ts[k + 1] ensures !IsTurn(d, i) {
      NoTurnBetween(d, k, i);
    }
    assert ts[k] in ts && ts[k + 1] in ts;
  }

  /**
   * The optimised list is free of repeated and collinear points exactly when no straight stretch of
   * the route runs back to where it began.
   */
  lemma CleanIffNoReturn(s: seq<Point>)
    requires |s| > 0 && Rectilinear(s)
    ensures NoRepeat(Optimised(s)) && NoneCollinear(Optimised(s)) <==> NeverReturns(Deduped(s))
  {
    hide Deduped, At, Turns, Rectilinear, Alternating, IsTurn;
    OptimisedIsRectilinear(s);
    var d, r := Deduped(s), Optimised(s);
    if i: nat, j: nat :| i < j < |d| && Returns(d, i, j) {
      ReturnRepeats(d, i, j);
      assert !NeverReturns(d);
    } else {
      forall k | 0 <= k < |r| - 1 ensures r[k] != r[k + 1] {
        if r[k] == r[k + 1] {
          RepeatReturns(d, k);
        }
      }
      AlternatingClean(r);
    }
  }

  /** A list without repeated or collinear points is left as it is. */
  lemma CleanIsKept(s: seq<Point>)
    requires NoRepeat(s) && NoneCollinear(s)
    ensures Optimised(s) == s
  {
    hide Deduped, At, Turns, NoRepeat;
    DedupedIs(s);
    forall i | 0 <= i < |s| ensures IsTurn(s, i) {
      if 0 < i < |s| - 1 {
        InnerTurn(s, i);
      }
    }
    AllTurns(s, |s|);
    assert s[..|s|] == s;
  }

  /** Running out and back leaves the same point twice. */
  lemma OutAndBackRepeats(p: Point, q: Point)
    requires p != q && Aligned(p, q)
    ensures Rectilinear([p, q, p]) && Optimised([p, q, p]) == [p, p]
  {
    var s := [p, q, p];
    assert NoRepeat(s) && Rectilinear(s);
    assert !IsTurn(s, 1) && IsTurn(s, 0) && IsTurn(s, 2);
    hide Deduped, At, IsTurn, NoRepeat, Rectilinear, Aligned;
    DedupedIs(s);
    assert Turns(s, 1) == [] + [0];
    assert Turns(s, 2) == [0] + [];
    assert Turns(s, 3) == [0] + [2];
    var r := At(s, [0] + [2]);
    assert r == [p, p];
  }

  // ---- Sequence flow routes ---------------------------------------------------------

  function SourcePoint(b: Bounds): Point {
    Point(b.x + b.width, b.y + b.height / 2.0)
  }

  function TargetPoint(b: Bounds): Point {
    Point(b.x, b.y + b.height / 2.0)
  }

  function TopY(s: Point, t: Point, sourceIndex: nat): real {
    (if s.y <= t.y then s.y else t.y) - LOOP_DETOUR_Y - sourceIndex as real * 12.0
  }

  function RawRoute(source: Bounds, target: Bounds, sourceIndex: nat): seq<Point> {
    var s, t := SourcePoint(source), TargetPoint(target);
    if t.x >= s.x then
      if s.y == t.y then [s, t] else
        var midX := s.x + (t.x - s.x) / 2.0;
        [s, Point(midX, s.y), Point(midX, t.y), t]
    else
      var detourX, targetDetourX, topY := s.x + LOOP_DETOUR_X, t.x - LOOP_DETOUR_X, TopY(s, t, sourceIndex);
      [s, Point(detourX, s.y), Point(detourX, topY), Point(targetDetourX, topY), Point(targetDetourX, t.y), t]
  }

  /** `y` lies by `gap` above the higher of the two. */
  predicate IsHighestLess(y: real, a: real, b: real, gap: real) {
    y + gap <= a && y + gap <= b && (y + gap == a || y + gap == b)
  }

  method EdgeWaypoints(source: Bounds, target: Bounds, sourceIndex: nat) returns (route: seq<Point>)
    ensures |route| > 0 && route[0] == SourcePoint(source) && route[|route| - 1] == TargetPoint(target)
    ensures route[0].x == source.x + source.width && route[|route| - 1].x == target.x
    ensures route[0].y - source.y == source.y + source.height - route[0].y
    ensures var last := route[|route| - 1]; last.y - target.y == target.y + target.height - last.y
    ensures Rectilinear(route) && NoRepeat(route) && NoneCollinear(route)
    ensures TargetPoint(target).x < SourcePoint(source).x ==>
              && |route| == 6 && route[2].y == route[3].y == TopY(SourcePoint(source), TargetPoint(target), sourceIndex)
              && route[2].y < route[0].y && route[3].y < route[5].y
    ensures TargetPoint(target).x >= SourcePoint(source).x ==> |route| <= 4
    ensures |route| == 4 ==> route[1].x == route[2].x && route[1].x - route[0].x == route[3].x - route[1].x
    ensures |route| == 6 ==> && route[1].x == route[2].x == route[0].x + LOOP_DETOUR_X
                             && route[3].x == route[4].x == route[5].x - LOOP_DETOUR_X
                             && IsHighestLess(route[2].y, route[0].y, route[5].y,
                                 LOOP_DETOUR_Y + sourceIndex as real * 12.0)
  {
    var raw := RawRoute(source, target, sourceIndex);
    route := OptimizeWaypoints(raw);
    RouteIsClean(source, target, sourceIndex);
  }

  /** Coming back, nothing needs taking out and the crossbar lies above both ends. */
  lemma BackwardRoute(source: Bounds, target: Bounds, sourceIndex: nat)
    requires TargetPoint(target).x < SourcePoint(source).x
    ensures var r := RawRoute(source, target, sourceIndex);
            && Rectilinear(r) && NoRepeat(r) && NoneCollinear(r) && Optimised(r) == r
            && r[2].y == r[3].y && r[2].y < r[0].y && r[3].y < r[5].y
  {
    hide Optimised;
    var r := RawRoute(source, target, sourceIndex);
    assert sourceIndex as real * 12.0 >= 0.0;
    CleanIsKept(r);
  }

  lemma ForwardRoute(source: Bounds, target: Bounds, sourceIndex: nat)
    requires TargetPoint(target).x > SourcePoint(source).x
    ensures var r := RawRoute(source, target, sourceIndex);
            Rectilinear(r) && NoRepeat(r) && NoneCollinear(r) && Optimised(r) == r
  {
    hide Optimised;
    var r := RawRoute(source, target, sourceIndex);
    CleanIsKept(r);
  }

  /** Touching columns: the two middle points fall on the end points. */
  lemma TouchingRoute(source: Bounds, target: Bounds, sourceIndex: nat)
    requires TargetPoint(target).x == SourcePoint(source).x
    ensures var r := RawRoute(source, target, sourceIndex);
            && Rectilinear(r)
            && Optimised(r) == if SourcePoint(source) == TargetPoint(target) then [SourcePoint(source)]
                               else [SourcePoint(source), TargetPoint(target)]
  {
    hide Optimised;
    var s, t, r := SourcePoint(source), TargetPoint(target), RawRoute(source, target, sourceIndex);
    if s.y == t.y {
      assert r == [s, s];
    } else {
      assert r == [s, s, t, t];
    }
    DoubledEnds(s, t);
  }

  lemma DoubledEnds(s: Point, t: Point)
    ensures Optimised([s, s]) == [s]
    ensures s != t ==> Optimised([s, s, t, t]) == [s, t]
  {
    hide At, Turns;
    var a, b := [s, s], [s, s, t, t];
    assert Deduped([s]) == [s];
    assert a[..1] == [s];
    assert Deduped(a) == [s];
    ShortIsAllTurns([s]);
    if s != t {
      assert b[..2] == a && b[..3][..2] == a;
      assert Deduped(b[..3]) == [s, t];
      assert Deduped(b) == [s, t];
      ShortIsAllTurns([s, t]);
    }
  }

  /**
   * Every route is rectilinear from the right middle of its source to the left middle of its target,
   * without repeated or collinear inner points.
   */
  lemma RouteIsClean(source: Bounds, target: Bounds, sourceIndex: nat)
    ensures var raw := RawRoute(source, target, sourceIndex);
            var r := Optimised(raw);
            && |r| > 0 && r[0] == SourcePoint(source) && r[|r| - 1] == TargetPoint(target)
            && Rectilinear(r) && NoRepeat(r) && NoneCollinear(r)
            && (TargetPoint(target).x < SourcePoint(source).x ==>
                  && |r| == 6 && r[2].y == r[3].y == TopY(SourcePoint(source), TargetPoint(target), sourceIndex)
                  && r[2].y < r[0].y && r[3].y < r[5].y)
            && (TargetPoint(target).x >= SourcePoint(source).x ==> |r| <= 4)
            && (|r| == 4 ==> r[1].x == r[2].x && r[1].x - r[0].x == r[3].x - r[1].x)
            && (|r| == 6 ==> && r[1].x == r[2].x == r[0].x + LOOP_DETOUR_X && r[3].x == r[4].x == r[5].x - LOOP_DETOUR_X
                             && IsHighestLess(r[2].y, r[0].y, r[5].y, LOOP_DETOUR_Y + sourceIndex as real * 12.0))
  {
    hide Optimised;
    if TargetPoint(target).x < SourcePoint(source).x {
      BackwardRoute(source, target, sourceIndex);
    } else if TargetPoint(target).x > SourcePoint(source).x {
      ForwardRoute(source, target, sourceIndex);
    } else {
      TouchingRoute(source, target, sourceIndex);
    }
  }
}
