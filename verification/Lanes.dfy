/**
 * Moving placed nodes into their lanes. Each lane becomes a band as tall as the number of rows its
 * nodes use; the bands follow each other in declaration order.
 */
module Lanes {
  import opened Common
  import opened FlowGraph
  import opened Waypoints
  import opened Placement
  import Layering

  /** The rows of the lane's nodes, in the order they are listed. */
  function RowsOf(nodes: map<Id, Bounds>, rows: map<Id, nat>, refs: seq<Id>): seq<nat> {
    if |refs| == 0 then [] else
      var v := refs[|refs| - 1];
      RowsOf(nodes, rows, refs[..|refs| - 1]) + if v in nodes && v in rows then [rows[v]] else []
  }

  /** The rows the lane uses, from the top. */
  function LaneRows(nodes: map<Id, Bounds>, rows: map<Id, nat>, refs: seq<Id>): seq<nat> {
    SortDedup(RowsOf(nodes, rows, refs))
  }

  /** Position of `x`, or 0 when it is missing. */
  function Position(s: seq<nat>, x: nat): nat {
    if x !in s then 0 else if s[0] == x then 0 else 1 + Position(s[1..], x)
  }

  /** How many rows the lanes before `i` use. */
  function RowsAbove(nodes: map<Id, Bounds>, rows: map<Id, nat>, lanes: seq<seq<Id>>, i: nat): nat
    requires i <= |lanes|
  {
    if i == 0 then 0 else RowsAbove(nodes, rows, lanes, i - 1) + |LaneRows(nodes, rows, lanes[i - 1])|
  }

  /** The upper edge of the band of lane `i`. */
  function Top(nodes: map<Id, Bounds>, rows: map<Id, nat>, lanes: seq<seq<Id>>, i: nat): real
    requires i <= |lanes|
  {
    DIAGRAM_PADDING + RowsAbove(nodes, rows, lanes, i) as real * ROW_GAP
  }

  /** Where lane `i` puts a node. */
  function LaneY(nodes: map<Id, Bounds>, rows: map<Id, nat>, lanes: seq<seq<Id>>, i: nat, v: Id): real
    requires i < |lanes| && v in rows
  {
    Top(nodes, rows, lanes, i) + Position(LaneRows(nodes, rows, lanes[i]), rows[v]) as real * ROW_GAP
  }

  ghost predicate InLane(lanes: seq<seq<Id>>, n: nat, v: Id)
    requires n <= |lanes|
  {
    exists j :: 0 <= j < n && v in lanes[j]
  }

  /** The lane that decides: the last of the first `n` that lists the node. */
  ghost function LastLane(lanes: seq<seq<Id>>, n: nat, v: Id): (i: nat)
    requires n <= |lanes| && InLane(lanes, n, v)
    ensures i < n && v in lanes[i] && forall j :: i < j < n ==> v !in lanes[j]
  {
    if v in lanes[n - 1] then n - 1 else LastLane(lanes, n - 1, v)
  }

  /** The positions given by the first `n` lanes. */
  ghost predicate IsLaneYs(
    nodes: map<Id, Bounds>, rows: map<Id, nat>, lanes: seq<seq<Id>>, n: nat, ys: map<Id, real>)
    requires n <= |lanes|
  {
    forall v ::
      && (v in ys <==> v in nodes && v in rows && InLane(lanes, n, v))
      && (v in ys ==> ys[v] == LaneY(nodes, rows, lanes, LastLane(lanes, n, v), v))
  }

  // ---- Computing the positions ------------------------------------------------------

  /** One lane's nodes put into its band. */
  method ShiftLane(
      nodes: map<Id, Bounds>, rows: map<Id, nat>, refs: seq<Id>, used: seq<nat>, bandTop: real, ys0: map<Id, real>)
    returns (ys: map<Id, real>)
    ensures forall v :: v in ys <==> v in ys0 || (v in nodes && v in rows && v in refs)
    ensures forall v :: v in ys ==>
              ys[v] == if v in nodes && v in rows && v in refs
                  then bandTop + Position(used, rows[v]) as real * ROW_GAP else ys0[v]
  {
    hide Position;
    ys := ys0;
    for k := 0 to |refs|
      invariant forall v :: v in ys <==> v in ys0 || (v in nodes && v in rows && v in refs[..k])
      invariant forall v :: v in ys ==>
                  ys[v] == if v in nodes && v in rows && v in refs[..k]
                      then bandTop + Position(used, rows[v]) as real * ROW_GAP else ys0[v]
    {
      assert refs[..k + 1] == refs[..k] + [refs[k]];
      if refs[k] !in nodes || refs[k] !in rows {
        continue;
      }
      ys := ys[refs[k] := bandTop + Position(used, rows[refs[k]]) as real * ROW_GAP];
    }
    assert refs[..|refs|] == refs;
  }

  lemma {:induction false} RowsOfIs(nodes: map<Id, Bounds>, rows: map<Id, nat>, refs: seq<Id>)
    ensures forall v :: v in refs && v in nodes && v in rows ==> rows[v] in RowsOf(nodes, rows, refs)
    ensures forall r :: r in RowsOf(nodes, rows, refs) ==>
              exists v :: v in refs && v in nodes && v in rows && rows[v] == r
  {
    if |refs| > 0 {
      var rest, last := refs[..|refs| - 1], refs[|refs| - 1];
      RowsOfIs(nodes, rows, rest);
      assert refs == rest + [last];
      forall r | r in RowsOf(nodes, rows, refs)
        ensures exists v :: v in refs && v in nodes && v in rows && rows[v] == r
      {
        if r in RowsOf(nodes, rows, rest) {
          var v :| v in rest && v in nodes && v in rows && rows[v] == r;
          assert v in refs;
        } else {
          assert last in refs;
        }
      }
    }
  }

  lemma LaneRowsIs(nodes: map<Id, Bounds>, rows: map<Id, nat>, refs: seq<Id>)
    ensures Ascending(LaneRows(nodes, rows, refs))
    ensures forall v :: v in refs && v in nodes && v in rows ==> rows[v] in LaneRows(nodes, rows, refs)
    ensures forall r :: r in LaneRows(nodes, rows, refs) ==>
            exists v :: v in refs && v in nodes && v in rows && rows[v] == r
  {
    SortDedupIs(RowsOf(nodes, rows, refs));
    RowsOfIs(nodes, rows, refs);
  }

  lemma InLaneStep(lanes: seq<seq<Id>>, n: nat, v: Id)
    requires n < |lanes|
    ensures InLane(lanes, n + 1, v) <==> InLane(lanes, n, v) || v in lanes[n]
    ensures v in lanes[n] ==> LastLane(lanes, n + 1, v) == n
    ensures v !in lanes[n] && InLane(lanes, n, v) ==> LastLane(lanes, n + 1, v) == LastLane(lanes, n, v)
  {
    if v in lanes[n] {
      assert InLane(lanes, n + 1, v);
    }
  }

  lemma LaneYsStep(
    nodes: map<Id, Bounds>, rows: map<Id, nat>, lanes: seq<seq<Id>>, n: nat, ys0: map<Id, real>, ys: map<Id, real>)
    requires n < |lanes| && IsLaneYs(nodes, rows, lanes, n, ys0)
    requires forall v :: v in ys <==> v in ys0 || (v in nodes && v in rows && v in lanes[n])
    requires forall v :: v in ys ==>
               ys[v] == if v in nodes && v in rows && v in lanes[n] then LaneY(nodes, rows, lanes, n, v) else ys0[v]
    ensures IsLaneYs(nodes, rows, lanes, n + 1, ys)
  {
    hide LaneY, InLane, LastLane;
    forall v ensures (v in ys <==> v in nodes && v in rows && InLane(lanes, n + 1, v))
                     && (v in ys ==> ys[v] == LaneY(nodes, rows, lanes, LastLane(lanes, n + 1, v), v))
    {
      InLaneStep(lanes, n, v);
    }
  }

  method ComputeLaneYPositions(
      nodes: map<Id, Bounds>, lanes: seq<seq<Id>>, rows: map<Id, nat>)
      returns (ys: map<Id, real>)
    ensures IsLaneYs(nodes, rows, lanes, |lanes|, ys)
  {
    hide LaneRows, Position, IsLaneYs;
    ys := map[];
    var bandTop := DIAGRAM_PADDING;
    NoLanes(nodes, rows, lanes);
    for i := 0 to |lanes|
      invariant IsLaneYs(nodes, rows, lanes, i, ys) && bandTop == Top(nodes, rows, lanes, i)
    {
      var used := LaneRows(nodes, rows, lanes[i]);
      LaneRowsIs(nodes, rows, lanes[i]);
      if used == [] {
        LaneYsStep(nodes, rows, lanes, i, ys, ys);
        assert Top(nodes, rows, lanes, i + 1) == bandTop;
        continue;
      }
      var ys' := ShiftLane(nodes, rows, lanes[i], used, bandTop, ys);
      LaneYsStep(nodes, rows, lanes, i, ys, ys');
      ys := ys';
      bandTop := bandTop + |used| as real * ROW_GAP;
    }
  }

  lemma NoLanes(nodes: map<Id, Bounds>, rows: map<Id, nat>, lanes: seq<seq<Id>>)
    ensures IsLaneYs(nodes, rows, lanes, 0, map[])
  {
  }

  /** The boxes with the given upper edges entered. */
  ghost predicate IsShifted(boxes: map<Id, Bounds>, ys: map<Id, real>, moved: map<Id, Bounds>) {
    && moved.Keys == boxes.Keys
    && forall v :: v in boxes ==> moved[v] == if v in ys then boxes[v].(y := ys[v]) else boxes[v]
  }

  method ShiftNodes(boxes: map<Id, Bounds>, ys: map<Id, real>) returns (moved: map<Id, Bounds>)
    ensures IsShifted(boxes, ys, moved)
  {
    moved := boxes;
    var todo := ys.Keys;
    while todo != {}
      invariant todo <= ys.Keys && moved.Keys == boxes.Keys
      invariant forall v :: v in boxes ==> moved[v] == if v in ys && v !in todo then boxes[v].(y := ys[v]) else boxes[v]
      decreases |todo|
    {
      var v :| v in todo;
      if v in moved {
        moved := moved[v := moved[v].(y := ys[v])];
      }
      todo := todo - {v};
    }
  }

  /** A layout before boundary events are attached: columns by layer, rows by rank, nodes moved into lanes. */
  method LayOutNodes(g: ProcessGraph, lanes: seq<seq<Id>>)
    returns (layers: map<Id, nat>, rows: map<Id, nat>, boxes: map<Id, Bounds>, ys: map<Id, real>,
    moved: map<Id, Bounds>)
    requires WellFormed(g)
    ensures Layering.IsLayering(g, layers) && Layering.NoGaps(layers) && IsPlacement(g, layers, rows, boxes)
    ensures IsLaneYs(boxes, rows, lanes, |lanes|, ys) && IsShifted(boxes, ys, moved)
  {
    hide IsPlacement, IsLaneYs, IsShifted;
    layers := Layering.ComputeLayers(g);
    rows, boxes := PlaceNodes(g, layers);
    ys := ComputeLaneYPositions(boxes, lanes, rows);
    moved := ShiftNodes(boxes, ys);
  }

  // ---- Final rows -------------------------------------------------------------------

  /** The row a node ends up in: below those of earlier lanes, or its own when no lane lists it. */
  ghost function FinalRow(nodes: map<Id, Bounds>, rows: map<Id, nat>, lanes: seq<seq<Id>>, v: Id): nat
    requires v in rows
  {
    if InLane(lanes, |lanes|, v) then
      var i := LastLane(lanes, |lanes|, v);
      RowsAbove(nodes, rows, lanes, i) + Position(LaneRows(nodes, rows, lanes[i]), rows[v])
    else rows[v]
  }

  /** A placement and its lane shift. */
  ghost predicate ShiftedLayout(
    g: ProcessGraph, layers: map<Id, nat>, rows: map<Id, nat>, boxes: map<Id, Bounds>,
    lanes: seq<seq<Id>>, ys: map<Id, real>, moved: map<Id, Bounds>)
  {
    && IsPlacement(g, layers, rows, boxes)
    && IsLaneYs(boxes, rows, lanes, |lanes|, ys) && IsShifted(boxes, ys, moved)
  }

  lemma LaneYIsFinalRow(nodes: map<Id, Bounds>, rows: map<Id, nat>, lanes: seq<seq<Id>>, v: Id)
    requires v in rows && InLane(lanes, |lanes|, v)
    ensures LaneY(nodes, rows, lanes, LastLane(lanes, |lanes|, v), v)
         == DIAGRAM_PADDING + FinalRow(nodes, rows, lanes, v) as real * ROW_GAP
  {
    hide LastLane, Position, LaneRows, RowsAbove;
  }

  /** The final box of a node: its column and its final row. */
  lemma MovedBox(
    g: ProcessGraph, layers: map<Id, nat>, rows: map<Id, nat>, boxes: map<Id, Bounds>,
    lanes: seq<seq<Id>>, ys: map<Id, real>, moved: map<Id, Bounds>, n: NodeDescriptor)
    requires ShiftedLayout(g, layers, rows, boxes, lanes, ys, moved) && n in g.nodes
    ensures n.id in layers && n.id in rows && n.id in boxes && n.id in moved
    ensures boxes[n.id] == BoxAt(layers[n.id], rows[n.id], n.kind)
    ensures moved[n.id] == BoxAt(layers[n.id], FinalRow(boxes, rows, lanes, n.id), n.kind)
  {
    hide Ranked, Compact, LaneY, LastLane, Width, Height, Position, LaneRows, RowsAbove;
    NodeIds(g, n);
    if InLane(lanes, |lanes|, n.id) {
      LaneYIsFinalRow(boxes, rows, lanes, n.id);
    }
  }

  /**
   * Two nodes of any layout overlap after the shift exactly when they end up in one row and their
   * columns are the same or a subprocess reaches into the other's.
   */
  lemma ShiftedNodesOverlapIff(
    g: ProcessGraph, layers: map<Id, nat>, rows: map<Id, nat>, boxes: map<Id, Bounds>,
    lanes: seq<seq<Id>>, ys: map<Id, real>, moved: map<Id, Bounds>, a: NodeDescriptor, b: NodeDescriptor)
    requires ShiftedLayout(g, layers, rows, boxes, lanes, ys, moved) && a in g.nodes && b in g.nodes
    ensures a.id in layers && b.id in layers && a.id in rows && b.id in rows && a.id in moved && b.id in moved
    ensures Overlap(moved[a.id], moved[b.id]) <==>
            && FinalRow(boxes, rows, lanes, a.id) == FinalRow(boxes, rows, lanes, b.id)
            && (layers[a.id] == layers[b.id]
                || ReachesInto(layers[a.id], a.kind, layers[b.id]) || ReachesInto(layers[b.id], b.kind, layers[a.id]))
  {
    hide ShiftedLayout, Overlap, BoxAt, FinalRow, ReachesInto;
    MovedBox(g, layers, rows, boxes, lanes, ys, moved, a);
    MovedBox(g, layers, rows, boxes, lanes, ys, moved, b);
    BoxesOverlapIff(layers[a.id], FinalRow(boxes, rows, lanes, a.id), a.kind,
                    layers[b.id], FinalRow(boxes, rows, lanes, b.id), b.kind);
  }

  // ---- Bands ------------------------------------------------------------------------

  lemma {:induction false} PositionIs(s: seq<nat>, x: nat)
    requires x in s
    ensures Position(s, x) < |s| && s[Position(s, x)] == x
  {
    if s[0] != x {
      assert s == [s[0]] + s[1..];
      PositionIs(s[1..], x);
    }
  }

  lemma {:induction false} RowsAboveRise(
      nodes: map<Id, Bounds>, rows: map<Id, nat>, lanes: seq<seq<Id>>, i: nat, j: nat)
    requires i <= j <= |lanes|
    ensures RowsAbove(nodes, rows, lanes, i) <= RowsAbove(nodes, rows, lanes, j)
    decreases j - i
  {
    hide LaneRows;
    if i < j {
      RowsAboveRise(nodes, rows, lanes, i, j - 1);
    }
  }

  /** A laned node's final row is one of its lane's, and within a lane the rows keep their order. */
  lemma FinalRowInLane(nodes: map<Id, Bounds>, rows: map<Id, nat>, lanes: seq<seq<Id>>, v: Id)
    requires v in nodes && v in rows && InLane(lanes, |lanes|, v)
    ensures var i, r := LastLane(lanes, |lanes|, v), FinalRow(nodes, rows, lanes, v);
            && RowsAbove(nodes, rows, lanes, i) <= r < RowsAbove(nodes, rows, lanes, i + 1)
            && r - RowsAbove(nodes, rows, lanes, i) < |LaneRows(nodes, rows, lanes[i])|
            && LaneRows(nodes, rows, lanes[i])[r - RowsAbove(nodes, rows, lanes, i)] == rows[v]
  {
    hide LaneRows, Position;
    var i := LastLane(lanes, |lanes|, v);
    LaneRowsIs(nodes, rows, lanes[i]);
    PositionIs(LaneRows(nodes, rows, lanes[i]), rows[v]);
  }

  /** Final rows of laned nodes are ordered by lane first, then by row. */
  lemma FinalRowsFollowLanes(nodes: map<Id, Bounds>, rows: map<Id, nat>, lanes: seq<seq<Id>>, u: Id, v: Id)
    requires u in nodes && u in rows && InLane(lanes, |lanes|, u)
    requires v in nodes && v in rows && InLane(lanes, |lanes|, v)
    ensures var i, j := LastLane(lanes, |lanes|, u), LastLane(lanes, |lanes|, v);
            FinalRow(nodes, rows, lanes, u) < FinalRow(nodes, rows, lanes, v) <==>
                i < j || (i == j && rows[u] < rows[v])
  {
    hide LaneRows, FinalRow, RowsAbove, LastLane, InLane;
    var i, j := LastLane(lanes, |lanes|, u), LastLane(lanes, |lanes|, v);
    FinalRowInLane(nodes, rows, lanes, u);
    FinalRowInLane(nodes, rows, lanes, v);
    if i < j {
      RowsAboveRise(nodes, rows, lanes, i + 1, j);
    } else if j < i {
      RowsAboveRise(nodes, rows, lanes, j + 1, i);
    } else {
      LaneRowsIs(nodes, rows, lanes[i]);
      var above, used := RowsAbove(nodes, rows, lanes, i), LaneRows(nodes, rows, lanes[i]);
      AscendingIff(used, FinalRow(nodes, rows, lanes, u) - above, FinalRow(nodes, rows, lanes, v) - above);
    }
  }

  lemma AscendingIff(s: seq<nat>, p: nat, q: nat)
    requires Ascending(s) && p < |s| && q < |s|
    ensures p < q <==> s[p] < s[q]
  {
  }

  lemma RowsToHeights(p: nat, q: nat)
    ensures p <= q ==> p as real * ROW_GAP <= q as real * ROW_GAP
    ensures p < q ==> p as real * ROW_GAP + ROW_GAP <= q as real * ROW_GAP
  {
  }

  /** Every laned node lies within the band of its lane, and the bands follow in declaration order. */
  lemma LanesAreBands(
    g: ProcessGraph, layers: map<Id, nat>, rows: map<Id, nat>, boxes: map<Id, Bounds>,
    lanes: seq<seq<Id>>, ys: map<Id, real>, moved: map<Id, Bounds>, n: NodeDescriptor)
    requires ShiftedLayout(g, layers, rows, boxes, lanes, ys, moved) && n in g.nodes && InLane(lanes, |lanes|, n.id)
    ensures n.id in moved
    ensures var i := LastLane(lanes, |lanes|, n.id);
            && Top(boxes, rows, lanes, i) <= moved[n.id].y
            && moved[n.id].y + moved[n.id].height < Top(boxes, rows, lanes, i + 1)
            && forall j :: i < j <= |lanes| ==> Top(boxes, rows, lanes, i + 1) <= Top(boxes, rows, lanes, j)
  {
    hide ShiftedLayout, FinalRow, RowsAbove, Width, Height;
    MovedBox(g, layers, rows, boxes, lanes, ys, moved, n);
    Sizes(n.kind);
    var i, r := LastLane(lanes, |lanes|, n.id), FinalRow(boxes, rows, lanes, n.id);
    FinalRowInLane(boxes, rows, lanes, n.id);
    RowsToHeights(RowsAbove(boxes, rows, lanes, i), r);
    RowsToHeights(r, RowsAbove(boxes, rows, lanes, i + 1));
    forall j | i < j <= |lanes| ensures Top(boxes, rows, lanes, i + 1) <= Top(boxes, rows, lanes, j) {
      RowsAboveRise(boxes, rows, lanes, i + 1, j);
      RowsToHeights(RowsAbove(boxes, rows, lanes, i + 1), RowsAbove(boxes, rows, lanes, j));
    }
  }

  /**
   * After the shift two laned nodes overlap exactly when they did before and share their lane: among
   * laned nodes the shift never creates an overlap, whatever else the process holds.
   */
  lemma LanedNodesOverlapIff(
    g: ProcessGraph, layers: map<Id, nat>, rows: map<Id, nat>, boxes: map<Id, Bounds>,
    lanes: seq<seq<Id>>, ys: map<Id, real>, moved: map<Id, Bounds>, a: NodeDescriptor, b: NodeDescriptor)
    requires ShiftedLayout(g, layers, rows, boxes, lanes, ys, moved) && a in g.nodes && b in g.nodes && a.id != b.id
    requires InLane(lanes, |lanes|, a.id) && InLane(lanes, |lanes|, b.id)
    ensures a.id in moved && b.id in moved && a.id in boxes && b.id in boxes
    ensures Overlap(moved[a.id], moved[b.id]) <==>
            Overlap(boxes[a.id], boxes[b.id]) && LastLane(lanes, |lanes|, a.id) == LastLane(lanes, |lanes|, b.id)
  {
    hide BoxAt, IsLaneYs, Compact, Ranked, Precedes, Overlap, FinalRow, ReachesInto;
    ShiftedNodesOverlapIff(g, layers, rows, boxes, lanes, ys, moved, a, b);
    NodesOverlapIff(g, layers, rows, boxes, a, b);
    RowsDiffer(g, layers, rows, boxes, a, b);
    FinalRowsFollowLanes(boxes, rows, lanes, a.id, b.id);
    FinalRowsFollowLanes(boxes, rows, lanes, b.id, a.id);
  }

  lemma RowsDiffer(
    g: ProcessGraph, layers: map<Id, nat>, rows: map<Id, nat>, boxes: map<Id, Bounds>, a: NodeDescriptor,
        b: NodeDescriptor)
    requires IsPlacement(g, layers, rows, boxes) && a in g.nodes && b in g.nodes && a.id != b.id
    ensures a.id in layers && b.id in layers && a.id in rows && b.id in rows
    ensures layers[a.id] == layers[b.id] ==> rows[a.id] != rows[b.id]
  {
    hide Boxed, Precedes, Compact;
    NodeIds(g, a);
    NodeIds(g, b);
    assert Ranked(g, layers, rows, layers[a.id]);
  }

  /** A band is no taller than its lane needs: each of its rows is that of a node the lane lists. */
  lemma BandsAreFull(nodes: map<Id, Bounds>, rows: map<Id, nat>, lanes: seq<seq<Id>>, i: nat, r: nat) returns (v: Id)
    requires i < |lanes| && RowsAbove(nodes, rows, lanes, i) <= r < RowsAbove(nodes, rows, lanes, i + 1)
    ensures v in lanes[i] && v in nodes && v in rows
    ensures LaneY(nodes, rows, lanes, i, v) == DIAGRAM_PADDING + r as real * ROW_GAP
  {
    hide LaneRows, Position;
    var used, k := LaneRows(nodes, rows, lanes[i]), r - RowsAbove(nodes, rows, lanes, i);
    LaneRowsIs(nodes, rows, lanes[i]);
    assert used[k] in used;
    v :| v in lanes[i] && v in nodes && v in rows && rows[v] == used[k];
    PositionIs(used, rows[v]);
    AscendingIff(used, k, Position(used, rows[v]));
    AscendingIff(used, Position(used, rows[v]), k);
  }

  /** A node listed in exactly one lane stands in that one. */
  lemma OnlyLane(lanes: seq<seq<Id>>, v: Id, i: nat)
    requires i < |lanes| && v in lanes[i] && forall j :: 0 <= j < |lanes| && v in lanes[j] ==> j == i
    ensures InLane(lanes, |lanes|, v) && LastLane(lanes, |lanes|, v) == i
  {
    assert InLane(lanes, |lanes|, v);
  }

  /**
   * A node in no lane stays where it is, and one that is moved can land on it: so it goes with every
   * layout of two unlinked nodes, of any kinds, when only the second is in a lane.
   */
  lemma UnlanedNodeIsCovered(
    a: NodeDescriptor, b: NodeDescriptor, layers: map<Id, nat>, rows: map<Id, nat>, boxes: map<Id, Bounds>,
    ys: map<Id, real>, moved: map<Id, Bounds>)
    requires a.id != b.id && a.sourceIndex < b.sourceIndex
    requires Layering.IsLayering(Pair(a, b, None), layers)
    requires ShiftedLayout(Pair(a, b, None), layers, rows, boxes, [[b.id]], ys, moved)
    ensures a.id in boxes && b.id in boxes && a.id in moved && b.id in moved
    ensures !Overlap(boxes[a.id], boxes[b.id]) && Overlap(moved[a.id], moved[b.id])
  {
    hide WellFormed, Layering.IsLayering, IsPlacement, IsLaneYs, IsShifted, Overlap;
    var g, lanes := Pair(a, b, None), [[b.id]];
    assert g.nodes[0] == a && g.nodes[1] == b;
    PairLayers(a, b, None, layers);
    UnlinkedRows(a, b, rows, boxes);
    NodesOverlapIff(g, layers, rows, boxes, a, b);
    ShiftedNodesOverlapIff(g, layers, rows, boxes, lanes, ys, moved, a, b);
    MovedBox(g, layers, rows, boxes, lanes, ys, moved, b);
    OnlyLane(lanes, b.id, 0);
    assert !InLane(lanes, 1, a.id);
    assert lanes[0][..0] == [];
    assert RowsOf(boxes, rows, lanes[0]) == [1];
    assert SortDedup([1]) == [1];
    assert FinalRow(boxes, rows, lanes, b.id) == 0;
  }
}
