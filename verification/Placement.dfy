/**
 * Placing the nodes of a layered flow graph: one column per layer, the rows of a column ordered by
 * the mean row of a node's predecessors, then by document order, then by id.
 */
module Placement {
  import opened Common
  import opened FlowGraph
  import Layering
  import opened Waypoints

  const DIAGRAM_PADDING := 32.0
  const COLUMN_GAP := 196.0
  const ROW_GAP := 148.0

  function Width(kind: NodeKind): real {
    match kind
    case StartEvent | EndEvent | IntermediateCatchEvent | IntermediateThrowEvent | BoundaryEvent => 40.0
    case ExclusiveGateway | ParallelGateway | InclusiveGateway | EventBasedGateway | ComplexGateway => 56.0
    case Task | UserTask | ServiceTask | ScriptTask | ManualTask | ReceiveTask | BusinessRuleTask
       | CallActivity => 124.0
    case SubProcess | Transaction | EventSubProcess | AdhocSubProcess => 200.0
    case DataObject => 50.0
  }

  function Height(kind: NodeKind): real {
    match kind
    case StartEvent | EndEvent | IntermediateCatchEvent | IntermediateThrowEvent | BoundaryEvent => 40.0
    case ExclusiveGateway | ParallelGateway | InclusiveGateway | EventBasedGateway | ComplexGateway => 56.0
    case Task | UserTask | ServiceTask | ScriptTask | ManualTask | ReceiveTask | BusinessRuleTask
       | CallActivity => 82.0
    case SubProcess | Transaction | EventSubProcess | AdhocSubProcess => 120.0
    case DataObject => 50.0
  }

  function BoxAt(layer: nat, row: nat, kind: NodeKind): Bounds {
    Bounds(DIAGRAM_PADDING + layer as real * COLUMN_GAP, DIAGRAM_PADDING + row as real * ROW_GAP, Width(kind),
        Height(kind))
  }

  // ---- The order of a column --------------------------------------------------------

  function Positions(preds: seq<Id>, rows: map<Id, nat>): seq<nat> {
    if |preds| == 0 then [] else
      Positions(preds[..|preds| - 1], rows) + if preds[|preds| - 1] in rows then [rows[preds[|preds| - 1]]] else []
  }

  function Sum(s: seq<nat>): nat {
    if |s| == 0 then 0 else Sum(s[..|s| - 1]) + s[|s| - 1]
  }

  function Barycenter(g: ProcessGraph, rows: map<Id, nat>, n: NodeDescriptor): real {
    var positions := Positions(Layering.Preds(g.predecessors, n.id), rows);
    if |positions| == 0 then n.sourceIndex as real else Sum(positions) as real / |positions| as real
  }

  predicate Precedes(g: ProcessGraph, rows: map<Id, nat>, a: NodeDescriptor, b: NodeDescriptor) {
    var p, q := Barycenter(g, rows, a), Barycenter(g, rows, b);
    p < q || (p == q && (a.sourceIndex < b.sourceIndex
                         || (a.sourceIndex == b.sourceIndex && TextLeq(a.id.text, b.id.text))))
  }

  lemma PrecedesIsOrder(g: ProcessGraph, rows: map<Id, nat>, a: NodeDescriptor, b: NodeDescriptor, c: NodeDescriptor)
    ensures Precedes(g, rows, a, b) || Precedes(g, rows, b, a)
    ensures Precedes(g, rows, a, b) && Precedes(g, rows, b, a) ==> a.id == b.id
    ensures Precedes(g, rows, a, b) && Precedes(g, rows, b, c) ==> Precedes(g, rows, a, c)
  {
    hide Barycenter, TextLeq;
    TextOrderTotal(a.id.text, b.id.text);
    if TextLeq(a.id.text, b.id.text) && TextLeq(b.id.text, c.id.text) {
      TextOrderTransitive(a.id.text, b.id.text, c.id.text);
    }
  }

  function Place(g: ProcessGraph, rows: map<Id, nat>, x: NodeDescriptor, s: seq<NodeDescriptor>): seq<NodeDescriptor> {
    if |s| == 0 then [x]
    else if Precedes(g, rows, x, s[0]) then [x] + s
    else [s[0]] + Place(g, rows, x, s[1..])
  }

  function Ordered(g: ProcessGraph, rows: map<Id, nat>, s: seq<NodeDescriptor>): seq<NodeDescriptor> {
    if |s| == 0 then [] else Place(g, rows, s[0], Ordered(g, rows, s[1..]))
  }

  ghost predicate InOrder(g: ProcessGraph, rows: map<Id, nat>, s: seq<NodeDescriptor>) {
    forall i, j :: 0 <= i < j < |s| ==> Precedes(g, rows, s[i], s[j])
  }

  lemma {:induction false} PlaceMembers(g: ProcessGraph, rows: map<Id, nat>, x: NodeDescriptor, s: seq<NodeDescriptor>)
    ensures |Place(g, rows, x, s)| == |s| + 1
    ensures forall y :: y in Place(g, rows, x, s) <==> y == x || y in s
  {
    hide Precedes;
    if |s| > 0 && !Precedes(g, rows, x, s[0]) {
      PlaceMembers(g, rows, x, s[1..]);
      assert s == [s[0]] + s[1..];
    }
  }

  lemma ConsInOrder(g: ProcessGraph, rows: map<Id, nat>, x: NodeDescriptor, s: seq<NodeDescriptor>)
    requires InOrder(g, rows, s) && forall y :: y in s ==> Precedes(g, rows, x, y)
    ensures InOrder(g, rows, [x] + s)
  {
    hide Precedes;
    var t := [x] + s;
    forall i, j | 0 <= i < j < |t| ensures Precedes(g, rows, t[i], t[j]) {
      assert t[j] == s[j - 1];
      if i > 0 {
        assert t[i] == s[i - 1];
      }
    }
  }

  lemma {:induction false} PlaceInOrder(g: ProcessGraph, rows: map<Id, nat>, x: NodeDescriptor, s: seq<NodeDescriptor>)
    requires InOrder(g, rows, s)
    ensures InOrder(g, rows, Place(g, rows, x, s))
  {
    hide Precedes;
    if |s| > 0 {
      if Precedes(g, rows, x, s[0]) {
        forall y | y in s ensures Precedes(g, rows, x, y) {
          PrecedesIsOrder(g, rows, x, s[0], y);
        }
        ConsInOrder(g, rows, x, s);
      } else {
        PrecedesIsOrder(g, rows, x, s[0], x);
        PlaceInOrder(g, rows, x, s[1..]);
        PlaceMembers(g, rows, x, s[1..]);
        forall y | y in Place(g, rows, x, s[1..]) ensures Precedes(g, rows, s[0], y) {
        }
        ConsInOrder(g, rows, s[0], Place(g, rows, x, s[1..]));
      }
    }
  }

  ghost predicate HasId(s: seq<NodeDescriptor>, id: Id) {
    exists n :: n in s && n.id == id
  }

  lemma {:induction false} PlaceDistinct(g: ProcessGraph, rows: map<Id, nat>, x: NodeDescriptor, s: seq<NodeDescriptor>)
    requires DistinctIds(s) && !HasId(s, x.id)
    ensures DistinctIds(Place(g, rows, x, s))
  {
    hide Precedes;
    if |s| > 0 {
      if Precedes(g, rows, x, s[0]) {
        assert forall i :: 0 <= i < |s| ==> s[i] in s;
      } else {
        var rest := Place(g, rows, x, s[1..]);
        PlaceDistinct(g, rows, x, s[1..]);
        PlaceMembers(g, rows, x, s[1..]);
        forall k | 0 <= k < |rest| ensures rest[k].id != s[0].id {
          assert rest[k] in rest;
        }
      }
    }
  }

  /** The ordered column holds the same nodes, each once, in order. */
  lemma {:induction false} OrderedIs(g: ProcessGraph, rows: map<Id, nat>, s: seq<NodeDescriptor>)
    requires DistinctIds(s)
    ensures var r := Ordered(g, rows, s);
            && |r| == |s| && (forall y :: y in r <==> y in s)
            && InOrder(g, rows, r) && DistinctIds(r)
  {
    hide Precedes;
    if |s| > 0 {
      OrderedIs(g, rows, s[1..]);
      var r := Ordered(g, rows, s[1..]);
      PlaceMembers(g, rows, s[0], r);
      PlaceInOrder(g, rows, s[0], r);
      forall n | n in r ensures n.id != s[0].id {
        assert n in s[1..];
      }
      PlaceDistinct(g, rows, s[0], r);
      assert s == [s[0]] + s[1..];
    }
  }

  // ---- The columns, left to right ---------------------------------------------------

  /** Strictly ascending, without repetition. */
  ghost predicate Ascending(s: seq<nat>) {
    forall i, j :: 0 <= i < j < |s| ==> s[i] < s[j]
  }

  /** Sorting and dropping repetitions, one number at a time. */
  function Enter(x: nat, s: seq<nat>): seq<nat> {
    if |s| == 0 || x < s[0] then [x] + s
    else if x == s[0] then s
    else [s[0]] + Enter(x, s[1..])
  }

  function SortDedup(s: seq<nat>): seq<nat> {
    if |s| == 0 then [] else Enter(s[0], SortDedup(s[1..]))
  }

  lemma {:induction false} EnterIs(x: nat, s: seq<nat>)
    requires Ascending(s)
    ensures Ascending(Enter(x, s)) && forall y :: y in Enter(x, s) <==> y == x || y in s
  {
    if |s| > 0 && x > s[0] {
      EnterIs(x, s[1..]);
      var r := Enter(x, s[1..]);
      assert s == [s[0]] + s[1..];
      forall k | 0 <= k < |r| ensures s[0] < r[k] {
        assert r[k] in r;
      }
    }
  }

  lemma {:induction false} SortDedupIs(s: seq<nat>)
    ensures Ascending(SortDedup(s)) && forall y :: y in SortDedup(s) <==> y in s
  {
    if |s| > 0 {
      SortDedupIs(s[1..]);
      EnterIs(s[0], SortDedup(s[1..]));
      assert s == [s[0]] + s[1..];
    }
  }

  function InLayer(nodes: seq<NodeDescriptor>, layers: map<Id, nat>, layer: nat): seq<NodeDescriptor> {
    if |nodes| == 0 then [] else
      var rest := InLayer(nodes[..|nodes| - 1], layers, layer);
      var n := nodes[|nodes| - 1];
      if n.id in layers && layers[n.id] == layer then rest + [n] else rest
  }

  lemma {:induction false} InLayerIs(nodes: seq<NodeDescriptor>, layers: map<Id, nat>, layer: nat)
    ensures forall n :: n in InLayer(nodes, layers, layer) <==> n in nodes && n.id in layers && layers[n.id] == layer
    ensures DistinctIds(nodes) ==> DistinctIds(InLayer(nodes, layers, layer))
  {
    if |nodes| > 0 {
      var t, n := nodes[..|nodes| - 1], nodes[|nodes| - 1];
      InLayerIs(t, layers, layer);
      assert nodes == t + [n];
      if DistinctIds(nodes) {
        assert DistinctIds(t);
        var r := InLayer(t, layers, layer);
        forall k | 0 <= k < |r| ensures r[k].id != n.id {
          assert r[k] in r;
        }
      }
    }
  }

  function LayersOf(nodes: seq<NodeDescriptor>, layers: map<Id, nat>): seq<nat> {
    if |nodes| == 0 then [] else
      var n := nodes[|nodes| - 1];
      LayersOf(nodes[..|nodes| - 1], layers) + if n.id in layers then [layers[n.id]] else []
  }

  lemma {:induction false} LayersOfIs(nodes: seq<NodeDescriptor>, layers: map<Id, nat>)
    ensures forall l :: l in LayersOf(nodes, layers) <==> exists n :: n in nodes && n.id in layers && layers[n.id] == l
  {
    if |nodes| > 0 {
      var t, n := nodes[..|nodes| - 1], nodes[|nodes| - 1];
      LayersOfIs(t, layers);
      assert nodes == t + [n];
      forall l ensures l in LayersOf(nodes, layers) <==> exists m :: m in nodes && m.id in layers && layers[m.id] == l {
        if l in LayersOf(nodes, layers) {
          if l in LayersOf(t, layers) {
            var m :| m in t && m.id in layers && layers[m.id] == l;
            assert m in nodes;
          } else {
            assert n in nodes;
          }
        }
      }
    }
  }

  /** The rows known when a layer is ordered: those of the layers before it. */
  function Below(layers: map<Id, nat>, rows: map<Id, nat>, layer: nat): map<Id, nat> {
    map v | v in rows && v in layers && layers[v] < layer :: rows[v]
  }

  /** In a placed layer a node stands above another exactly when it precedes it. */
  ghost predicate Ranked(g: ProcessGraph, layers: map<Id, nat>, rows: map<Id, nat>, l: nat) {
    forall a, b :: a in g.nodes && b in g.nodes && a.id != b.id
                   && a.id in rows && b.id in rows && a.id in layers && b.id in layers
                   && layers[a.id] == layers[b.id] && layers[a.id] == l ==>
                     (rows[a.id] < rows[b.id] <==> Precedes(g, Below(layers, rows, l), a, b))
                     && rows[a.id] != rows[b.id]
  }

  /** The rows of a placed layer are 0 to its size less one. */
  ghost predicate Compact(layers: map<Id, nat>, rows: map<Id, nat>, l: nat) {
    forall v :: v in rows && v in layers && layers[v] == l && rows[v] > 0 ==>
      exists u :: u in rows && u in layers && layers[u] == l && rows[u] == rows[v] - 1
  }

  ghost predicate Boxed(g: ProcessGraph, layers: map<Id, nat>, rows: map<Id, nat>, boxes: map<Id, Bounds>) {
    && boxes.Keys == rows.Keys && rows.Keys <= layers.Keys
    && forall n :: n in g.nodes && n.id in rows ==> boxes[n.id] == BoxAt(layers[n.id], rows[n.id], n.kind)
  }

  /** The columns before `bound` are placed, and no others. */
  ghost predicate PlacedBelow(
    g: ProcessGraph, layers: map<Id, nat>, rows: map<Id, nat>, boxes: map<Id, Bounds>, bound: nat)
  {
    && (forall v :: v in rows <==> v in layers && layers[v] < bound)
    && (forall l: nat :: l < bound ==> Ranked(g, layers, rows, l) && Compact(layers, rows, l))
    && Boxed(g, layers, rows, boxes)
  }

  /** `rows` with one column's order entered. */
  ghost predicate ColumnAdded(rows0: map<Id, nat>, column: seq<NodeDescriptor>, k: nat, rows: map<Id, nat>)
    requires k <= |column|
  {
    && (forall v :: v in rows <==> v in rows0 || HasId(column[..k], v))
    && (forall v :: v in rows0 ==> rows[v] == rows0[v])
    && (forall i :: 0 <= i < k ==> column[i].id in rows && rows[column[i].id] == i)
  }

  lemma ColumnStep(rows0: map<Id, nat>, column: seq<NodeDescriptor>, k: nat, rows: map<Id, nat>)
    requires k < |column| && ColumnAdded(rows0, column, k, rows) && DistinctIds(column) && column[k].id !in rows0
    ensures ColumnAdded(rows0, column, k + 1, rows[column[k].id := k])
  {
    var n := column[k];
    assert column[..k + 1] == column[..k] + [n];
    forall v ensures HasId(column[..k + 1], v) <==> HasId(column[..k], v) || v == n.id {
      if HasId(column[..k], v) {
        var m :| m in column[..k] && m.id == v;
        assert m in column[..k + 1];
      }
      assert n in column[..k + 1];
    }
  }

  ghost predicate BoxesAdded(layer: nat, column: seq<NodeDescriptor>, boxes0: map<Id, Bounds>, boxes: map<Id, Bounds>) {
    && (forall v :: v in boxes0 ==> v in boxes && boxes[v] == boxes0[v])
    && (forall i :: 0 <= i < |column| ==>
          column[i].id in boxes && boxes[column[i].id] == BoxAt(layer, i, column[i].kind))
  }

  /** Gives the nodes of one ordered column their rows and boxes. */
  method EnterColumn(layer: nat, column: seq<NodeDescriptor>, rows0: map<Id, nat>, boxes0: map<Id, Bounds>)
    returns (rows: map<Id, nat>, boxes: map<Id, Bounds>)
    requires DistinctIds(column) && boxes0.Keys == rows0.Keys
    requires forall n :: n in column ==> n.id !in rows0
    ensures ColumnAdded(rows0, column, |column|, rows)
    ensures boxes.Keys == rows.Keys && BoxesAdded(layer, column, boxes0, boxes)
  {
    hide BoxAt;
    rows, boxes := rows0, boxes0;
    for k := 0 to |column|
      invariant ColumnAdded(rows0, column, k, rows)
      invariant boxes.Keys == rows.Keys && forall v :: v in rows0 ==> boxes[v] == boxes0[v]
      invariant forall i :: 0 <= i < k ==> boxes[column[i].id] == BoxAt(layer, i, column[i].kind)
    {
      var n := column[k];
      assert n in column;
      ColumnStep(rows0, column, k, rows);
      rows := rows[n.id := k];
      boxes := boxes[n.id := BoxAt(layer, k, n.kind)];
    }
  }

  method PlaceLayer(g: ProcessGraph, layers: map<Id, nat>, layer: nat, rows0: map<Id, nat>, boxes0: map<Id, Bounds>)
    returns (rows: map<Id, nat>, boxes: map<Id, Bounds>)
    requires WellFormed(g) && layers.Keys == Ids(g.nodes)
    requires PlacedBelow(g, layers, rows0, boxes0, layer)
    ensures PlacedBelow(g, layers, rows, boxes, layer + 1)
  {
    hide Precedes, BoxAt, PlacedBelow, Ordered, InLayer, BoxesAdded, ColumnAdded, InOrder, DistinctIds, Ids;
    var members := InLayer(g.nodes, layers, layer);
    InLayerIs(g.nodes, layers, layer);
    var column := Ordered(g, rows0, members);
    OrderedIs(g, rows0, members);
    BelowLayer(g, layers, rows0, boxes0, layer);
    rows, boxes := EnterColumn(layer, column, rows0, boxes0);
    ColumnPlaced(g, layers, layer, rows0, boxes0, column, rows, boxes);
  }

  lemma BelowLayer(g: ProcessGraph, layers: map<Id, nat>, rows: map<Id, nat>, boxes: map<Id, Bounds>, layer: nat)
    requires PlacedBelow(g, layers, rows, boxes, layer)
    ensures forall v :: v in rows <==> v in layers && layers[v] < layer
    ensures boxes.Keys == rows.Keys && Below(layers, rows, layer) == rows
  {
    hide Ranked, Compact, BoxAt;
  }

  ghost predicate IsColumn(
      g: ProcessGraph, layers: map<Id, nat>, layer: nat, rows0: map<Id, nat>, column: seq<NodeDescriptor>) {
    && (forall n :: n in column <==> n in g.nodes && n.id in layers && layers[n.id] == layer)
    && InOrder(g, rows0, column) && DistinctIds(column)
  }

  lemma ColumnPlaced(
    g: ProcessGraph, layers: map<Id, nat>, layer: nat, rows0: map<Id, nat>, boxes0: map<Id, Bounds>,
    column: seq<NodeDescriptor>, rows: map<Id, nat>, boxes: map<Id, Bounds>)
    requires WellFormed(g) && layers.Keys == Ids(g.nodes)
    requires PlacedBelow(g, layers, rows0, boxes0, layer)
    requires IsColumn(g, layers, layer, rows0, column)
    requires ColumnAdded(rows0, column, |column|, rows)
    requires boxes.Keys == rows.Keys && BoxesAdded(layer, column, boxes0, boxes)
    ensures PlacedBelow(g, layers, rows, boxes, layer + 1)
  {
    hide Precedes, BoxAt, Ranked, Compact, WellFormed, Ids, InOrder, Boxed, BoxesAdded;
    ColumnKeys(g, layers, layer, rows0, column, rows);
    forall l: nat | l < layer + 1 ensures Ranked(g, layers, rows, l) && Compact(layers, rows, l) {
      if l < layer {
        EarlierKept(g, layers, layer, rows0, rows, l);
      } else {
        ColumnRanked(g, layers, layer, rows0, column, rows);
      }
    }
    ColumnBoxed(g, layers, layer, rows0, boxes0, column, rows, boxes);
  }

  lemma ColumnKeys(
    g: ProcessGraph, layers: map<Id, nat>, layer: nat, rows0: map<Id, nat>, column: seq<NodeDescriptor>,
    rows: map<Id, nat>)
    requires layers.Keys == Ids(g.nodes)
    requires forall v :: v in rows0 <==> v in layers && layers[v] < layer
    requires IsColumn(g, layers, layer, rows0, column) && ColumnAdded(rows0, column, |column|, rows)
    ensures forall v :: v in rows <==> v in layers && layers[v] < layer + 1
    ensures Below(layers, rows, layer) == rows0
  {
    hide Precedes, InOrder;
    assert column[..|column|] == column;
    forall v | v in layers && layers[v] == layer ensures HasId(column, v) {
      var i :| 0 <= i < |g.nodes| && g.nodes[i].id == v;
      assert g.nodes[i] in column;
    }
  }

  lemma EarlierKept(g: ProcessGraph, layers: map<Id, nat>, layer: nat, rows0: map<Id, nat>, rows: map<Id, nat>, l: nat)
    requires l < layer && Ranked(g, layers, rows0, l) && Compact(layers, rows0, l)
    requires forall v :: v in rows0 <==> v in layers && layers[v] < layer
    requires forall v :: v in rows0 ==> v in rows && rows[v] == rows0[v]
    ensures Ranked(g, layers, rows, l) && Compact(layers, rows, l)
  {
    hide Precedes;
    assert Below(layers, rows, l) == Below(layers, rows0, l);
    forall v | v in rows && v in layers && layers[v] == l && rows[v] > 0
      ensures exists u :: u in rows && u in layers && layers[u] == l && rows[u] == rows[v] - 1
    {
      var u :| u in rows0 && u in layers && layers[u] == l && rows0[u] == rows0[v] - 1;
      assert u in rows;
    }
  }

  lemma ColumnRanked(
    g: ProcessGraph, layers: map<Id, nat>, layer: nat, rows0: map<Id, nat>, column: seq<NodeDescriptor>,
    rows: map<Id, nat>)
    requires IsColumn(g, layers, layer, rows0, column) && ColumnAdded(rows0, column, |column|, rows)
    requires forall v :: v in rows <==> v in layers && layers[v] < layer + 1
    requires forall v :: v in rows0 <==> v in layers && layers[v] < layer
    requires Below(layers, rows, layer) == rows0
    ensures Ranked(g, layers, rows, layer) && Compact(layers, rows, layer)
  {
    hide Precedes, Below;
    forall a, b | a in g.nodes && b in g.nodes && a.id != b.id && a.id in rows && b.id in rows
                  && a.id in layers && b.id in layers && layers[a.id] == layers[b.id] && layers[a.id] == layer
      ensures (rows[a.id] < rows[b.id] <==> Precedes(g, rows0, a, b)) && rows[a.id] != rows[b.id]
    {
      var i :| 0 <= i < |column| && column[i] == a;
      var j :| 0 <= j < |column| && column[j] == b;
      PrecedesIsOrder(g, rows0, a, b, a);
    }
    assert column[..|column|] == column;
    forall v | v in rows && v in layers && layers[v] == layer && rows[v] > 0
      ensures exists u :: u in rows && u in layers && layers[u] == layer && rows[u] == rows[v] - 1
    {
      var n :| n in column && n.id == v;
      var i :| 0 <= i < |column| && column[i] == n;
      assert column[i - 1] in column;
      var u := column[i - 1].id;
      assert rows[u] == rows[v] - 1;
    }
  }

  lemma ColumnBoxed(
    g: ProcessGraph, layers: map<Id, nat>, layer: nat, rows0: map<Id, nat>, boxes0: map<Id, Bounds>,
    column: seq<NodeDescriptor>, rows: map<Id, nat>, boxes: map<Id, Bounds>)
    requires Boxed(g, layers, rows0, boxes0)
    requires IsColumn(g, layers, layer, rows0, column) && ColumnAdded(rows0, column, |column|, rows)
    requires forall v :: v in rows <==> v in layers && layers[v] < layer + 1
    requires forall v :: v in rows0 <==> v in layers && layers[v] < layer
    requires boxes.Keys == rows.Keys && BoxesAdded(layer, column, boxes0, boxes)
    ensures Boxed(g, layers, rows, boxes)
  {
    hide Precedes, BoxAt, InOrder;
    forall n | n in g.nodes && n.id in rows ensures boxes[n.id] == BoxAt(layers[n.id], rows[n.id], n.kind) {
      if layers[n.id] == layer {
        assert n in column;
        var i :| 0 <= i < |column| && column[i] == n;
      }
    }
  }

  /** Every node has a box in the column of its layer. */
  ghost predicate IsPlacement(g: ProcessGraph, layers: map<Id, nat>, rows: map<Id, nat>, boxes: map<Id, Bounds>) {
    && layers.Keys == rows.Keys == Ids(g.nodes)
    && (forall l: nat :: Ranked(g, layers, rows, l) && Compact(layers, rows, l))
    && Boxed(g, layers, rows, boxes)
  }

  method PlaceNodes(g: ProcessGraph, layers: map<Id, nat>) returns (rows: map<Id, nat>, boxes: map<Id, Bounds>)
    requires WellFormed(g) && layers.Keys == Ids(g.nodes)
    ensures IsPlacement(g, layers, rows, boxes)
  {
    hide Ranked, Compact, Boxed, WellFormed, PlacedBelow;
    var layerIds := SortDedup(LayersOf(g.nodes, layers));
    SortDedupIs(LayersOf(g.nodes, layers));
    LayersOfIs(g.nodes, layers);
    rows, boxes := map[], map[];
    NothingPlaced(g, layers);
    ghost var bound := 0;
    for k := 0 to |layerIds|
      invariant PlacedBelow(g, layers, rows, boxes, bound)
      invariant forall j :: 0 <= j < |layerIds| ==> (layerIds[j] < bound <==> j < k)
    {
      SkipEmpty(g, layers, rows, boxes, bound, layerIds, k);
      rows, boxes := PlaceLayer(g, layers, layerIds[k], rows, boxes);
      bound := layerIds[k] + 1;
    }
    AllPlaced(g, layers, rows, boxes, bound, layerIds);
  }

  lemma NothingPlaced(g: ProcessGraph, layers: map<Id, nat>)
    ensures PlacedBelow(g, layers, map[], map[], 0)
  {
  }

  ghost predicate IsLayerIds(g: ProcessGraph, layers: map<Id, nat>, layerIds: seq<nat>) {
    && Ascending(layerIds)
    && forall l :: l in layerIds <==> exists n :: n in g.nodes && n.id in layers && layers[n.id] == l
  }

  lemma UsedLayer(g: ProcessGraph, layers: map<Id, nat>, layerIds: seq<nat>, v: Id)
    requires layers.Keys == Ids(g.nodes) && IsLayerIds(g, layers, layerIds) && v in layers
    ensures layers[v] in layerIds
  {
    var i :| 0 <= i < |g.nodes| && g.nodes[i].id == v;
    assert g.nodes[i] in g.nodes;
  }

  lemma SkipEmpty(g: ProcessGraph, layers: map<Id, nat>, rows: map<Id, nat>, boxes: map<Id, Bounds>, bound: nat,
                  layerIds: seq<nat>, k: nat)
    requires layers.Keys == Ids(g.nodes) && IsLayerIds(g, layers, layerIds) && k < |layerIds|
    requires PlacedBelow(g, layers, rows, boxes, bound)
    requires forall j :: 0 <= j < |layerIds| ==> (layerIds[j] < bound <==> j < k)
    ensures PlacedBelow(g, layers, rows, boxes, layerIds[k])
  {
    hide Boxed, Precedes;
    forall v | v in layers && layers[v] < layerIds[k] ensures layers[v] < bound {
      UsedLayer(g, layers, layerIds, v);
    }
    forall l | bound <= l < layerIds[k] ensures Ranked(g, layers, rows, l) && Compact(layers, rows, l) {
    }
  }

  lemma AllPlaced(
      g: ProcessGraph, layers: map<Id, nat>, rows: map<Id, nat>, boxes: map<Id, Bounds>, bound: nat,
      layerIds: seq<nat>)
    requires layers.Keys == Ids(g.nodes) && IsLayerIds(g, layers, layerIds)
    requires PlacedBelow(g, layers, rows, boxes, bound)
    requires forall j :: 0 <= j < |layerIds| ==> layerIds[j] < bound
    ensures IsPlacement(g, layers, rows, boxes)
  {
    hide Boxed, Precedes;
    forall v | v in layers ensures layers[v] < bound {
      UsedLayer(g, layers, layerIds, v);
    }
    forall l: nat | bound <= l ensures Ranked(g, layers, rows, l) && Compact(layers, rows, l) {
    }
  }

  // ---- When boxes overlap -----------------------------------------------------------

  /** The boxes share more than a border. */
  predicate Overlap(a: Bounds, b: Bounds) {
    a.x < b.x + b.width && b.x < a.x + a.width && a.y < b.y + b.height && b.y < a.y + a.height
  }

  predicate IsWide(kind: NodeKind) {
    kind in {SubProcess, Transaction, EventSubProcess, AdhocSubProcess}
  }

  lemma Sizes(kind: NodeKind)
    ensures 0.0 < Height(kind) <= 120.0 < ROW_GAP && 0.0 < Width(kind) <= 200.0
    ensures if IsWide(kind) then Width(kind) > COLUMN_GAP else Width(kind) < COLUMN_GAP
  {
  }

  lemma RowsApart(r: nat, s: nat)
    ensures r < s ==> r as real * ROW_GAP + ROW_GAP <= s as real * ROW_GAP
    ensures r < s ==> r as real * COLUMN_GAP + COLUMN_GAP <= s as real * COLUMN_GAP
    ensures r + 1 < s ==> r as real * COLUMN_GAP + 2.0 * COLUMN_GAP <= s as real * COLUMN_GAP
    ensures r + 1 == s ==> r as real * COLUMN_GAP + COLUMN_GAP == s as real * COLUMN_GAP
  {
  }

  /** Whether the columns overlap where the first is `k`, the second `l`. */
  lemma ColumnsOverlapIff(k: nat, l: nat, a: NodeKind, b: NodeKind)
    requires k < l
    ensures BoxAt(l, 0, b).x < BoxAt(k, 0, a).x + Width(a) <==> l == k + 1 && IsWide(a)
    ensures BoxAt(k, 0, a).x < BoxAt(l, 0, b).x + Width(b)
  {
    hide Width, IsWide;
    Sizes(a);
    Sizes(b);
    RowsApart(k, l);
  }

  /** One node's box reaches into the next column, where the other one is. */
  predicate ReachesInto(k: nat, a: NodeKind, l: nat) {
    l == k + 1 && IsWide(a)
  }

  /** Boxes overlap exactly when they share a place, or a subprocess is followed in its row by a neighbour. */
  lemma BoxesOverlapIff(k: nat, r: nat, a: NodeKind, l: nat, s: nat, b: NodeKind)
    ensures Overlap(BoxAt(k, r, a), BoxAt(l, s, b)) <==>
            r == s && (k == l || ReachesInto(k, a, l) || ReachesInto(l, b, k))
  {
    hide Width, Height, IsWide, Overlap, BoxAt;
    if r != s {
      OtherRow(k, r, a, l, s, b);
    } else {
      SameRow(k, r, a, l, b);
      if k < l {
        ColumnsOverlapIff(k, l, a, b);
      } else if l < k {
        ColumnsOverlapIff(l, k, b, a);
      } else {
        Sizes(a);
        Sizes(b);
      }
    }
  }

  lemma OtherRow(k: nat, r: nat, a: NodeKind, l: nat, s: nat, b: NodeKind)
    requires r != s
    ensures !Overlap(BoxAt(k, r, a), BoxAt(l, s, b))
  {
    hide Width, Height;
    Sizes(a);
    Sizes(b);
    if r < s {
      RowsApart(r, s);
    } else {
      RowsApart(s, r);
    }
  }

  lemma SameRow(k: nat, r: nat, a: NodeKind, l: nat, b: NodeKind)
    ensures Overlap(BoxAt(k, r, a), BoxAt(l, r, b)) <==>
            BoxAt(k, 0, a).x < BoxAt(l, 0, b).x + Width(b) && BoxAt(l, 0, b).x < BoxAt(k, 0, a).x + Width(a)
    ensures k == l ==> BoxAt(k, 0, a).x == BoxAt(l, 0, b).x
  {
    hide Width, Height;
    Sizes(a);
    Sizes(b);
  }

  /** A subprocess stands directly left of another node, in the same row. */
  ghost predicate Crowded(
      g: ProcessGraph, layers: map<Id, nat>, rows: map<Id, nat>, a: NodeDescriptor, b: NodeDescriptor) {
    && a in g.nodes && b in g.nodes && a.id in rows && b.id in rows && a.id in layers && b.id in layers
    && rows[a.id] == rows[b.id] && ReachesInto(layers[a.id], a.kind, layers[b.id])
  }

  /** Two nodes of a placement overlap exactly when one crowds the other. */
  lemma NodesOverlapIff(
    g: ProcessGraph, layers: map<Id, nat>, rows: map<Id, nat>, boxes: map<Id, Bounds>, a: NodeDescriptor,
        b: NodeDescriptor)
    requires IsPlacement(g, layers, rows, boxes) && a in g.nodes && b in g.nodes && a.id != b.id
    ensures a.id in boxes && b.id in boxes
    ensures Overlap(boxes[a.id], boxes[b.id]) <==> Crowded(g, layers, rows, a, b) || Crowded(g, layers, rows, b, a)
  {
    hide Overlap, BoxAt, Precedes, Compact, ReachesInto;
    NodeIds(g, a);
    NodeIds(g, b);
    assert Ranked(g, layers, rows, layers[a.id]);
    BoxesOverlapIff(layers[a.id], rows[a.id], a.kind, layers[b.id], rows[b.id], b.kind);
  }

  lemma NodeIds(g: ProcessGraph, n: NodeDescriptor)
    requires n in g.nodes
    ensures n.id in Ids(g.nodes)
  {
  }

  /** Without subprocesses no two boxes of a placement overlap. */
  lemma NarrowNodesNeverOverlap(
    g: ProcessGraph, layers: map<Id, nat>, rows: map<Id, nat>, boxes: map<Id, Bounds>, a: NodeDescriptor,
        b: NodeDescriptor)
    requires IsPlacement(g, layers, rows, boxes) && a in g.nodes && b in g.nodes && a.id != b.id
    requires forall n :: n in g.nodes ==> Width(n.kind) <= COLUMN_GAP
    ensures a.id in boxes && b.id in boxes && !Overlap(boxes[a.id], boxes[b.id])
  {
    hide Overlap, Width;
    Sizes(a.kind);
    Sizes(b.kind);
    NodesOverlapIff(g, layers, rows, boxes, a, b);
  }

  // ---- What decides the rows --------------------------------------------------------

  /** The rows of the predecessors that have one, added up flow by flow. */
  function RowSum(preds: seq<Id>, rows: map<Id, nat>): nat {
    if |preds| == 0 then 0
    else RowSum(preds[..|preds| - 1], rows) + if preds[|preds| - 1] in rows then rows[preds[|preds| - 1]] else 0
  }

  /** How many flows come from predecessors that have a row. */
  function RowCount(preds: seq<Id>, rows: map<Id, nat>): nat {
    if |preds| == 0 then 0
    else RowCount(preds[..|preds| - 1], rows) + if preds[|preds| - 1] in rows then 1 else 0
  }

  lemma {:induction false} PositionsAddUp(preds: seq<Id>, rows: map<Id, nat>)
    ensures |Positions(preds, rows)| == RowCount(preds, rows) && Sum(Positions(preds, rows)) == RowSum(preds, rows)
  {
    if |preds| > 0 {
      var rest, p := preds[..|preds| - 1], preds[|preds| - 1];
      PositionsAddUp(rest, rows);
      var before := Positions(rest, rows);
      if p in rows {
        assert (before + [rows[p]])[..|before|] == before;
      } else {
        assert before + [] == before;
      }
    }
  }

  /** The barycenter is the mean row of the predecessors placed so far, or the source index when there is none. */
  lemma BarycenterIsMean(g: ProcessGraph, rows: map<Id, nat>, n: NodeDescriptor)
    ensures var preds := Layering.Preds(g.predecessors, n.id);
            if RowCount(preds, rows) == 0 then Barycenter(g, rows, n) == n.sourceIndex as real
            else Barycenter(g, rows, n) * RowCount(preds, rows) as real == RowSum(preds, rows) as real
  {
    PositionsAddUp(Layering.Preds(g.predecessors, n.id), rows);
  }

  /** Within a layer the node with the lower mean stands above, then the earlier one in the document, then by id. */
  lemma LowerMeanStandsAbove(
    g: ProcessGraph, layers: map<Id, nat>, rows: map<Id, nat>, boxes: map<Id, Bounds>, a: NodeDescriptor,
        b: NodeDescriptor)
    requires IsPlacement(g, layers, rows, boxes) && a in g.nodes && b in g.nodes && a.id != b.id
    requires a.id in layers && b.id in layers && layers[a.id] == layers[b.id]
    ensures a.id in rows && b.id in rows && a.id in boxes && b.id in boxes
    ensures var placed := Below(layers, rows, layers[a.id]);
            var p, q := Barycenter(g, placed, a), Barycenter(g, placed, b);
            && (p < q ==> rows[a.id] < rows[b.id] && boxes[a.id].y < boxes[b.id].y)
            && (p == q && a.sourceIndex < b.sourceIndex ==> rows[a.id] < rows[b.id])
            && (p == q && a.sourceIndex == b.sourceIndex && TextLeq(a.id.text, b.id.text) ==> rows[a.id] < rows[b.id])
  {
    hide Barycenter, TextLeq, Compact, Below, Width, Height;
    NodeIds(g, a);
    NodeIds(g, b);
    assert Ranked(g, layers, rows, layers[a.id]);
    RowsApart(rows[a.id], rows[b.id]);
  }

  // ---- Graphs of two nodes ----------------------------------------------------------

  function PairEdges(a: NodeDescriptor, b: NodeDescriptor, flow: Option<Id>): seq<EdgeDescriptor> {
    if flow.Some? then [EdgeDescriptor(flow.value, a.id, b.id)] else []
  }

  /** Two nodes, with one flow from the first to the second when `flow` names it. */
  function Pair(a: NodeDescriptor, b: NodeDescriptor, flow: Option<Id>): (g: ProcessGraph)
    requires a.id != b.id
    ensures WellFormed(g) && Ids(g.nodes) == {a.id, b.id}
  {
    var out := if flow.Some? then [b.id] else [];
    var into := if flow.Some? then [a.id] else [];
    var g := ProcessGraph([a, b], PairEdges(a, b, flow), map[a.id := [], b.id := into], map[a.id := out, b.id := []]);
    PairWellFormed(a, b, flow, g);
    g
  }

  lemma PairWellFormed(a: NodeDescriptor, b: NodeDescriptor, flow: Option<Id>, g: ProcessGraph)
    requires a.id != b.id && g.nodes == [a, b] && g.edges == PairEdges(a, b, flow)
    requires g.predecessors == map[a.id := [], b.id := if flow.Some? then [a.id] else []]
    requires g.successors == map[a.id := if flow.Some? then [b.id] else [], b.id := []]
    ensures WellFormed(g) && Ids(g.nodes) == {a.id, b.id}
  {
    hide Sources, Targets;
    assert g.nodes[0] == a && g.nodes[1] == b;
    PairLists(a, b, flow, a.id);
    PairLists(a, b, flow, b.id);
  }

  lemma PairLists(a: NodeDescriptor, b: NodeDescriptor, flow: Option<Id>, v: Id)
    ensures Sources(PairEdges(a, b, flow), v) == if flow.Some? && v == b.id then [a.id] else []
    ensures Targets(PairEdges(a, b, flow), v) == if flow.Some? && v == a.id then [b.id] else []
  {
    var edges := PairEdges(a, b, flow);
    if flow.Some? {
      assert edges[..0] == [];
      assert Sources(edges[..0], v) == [] && Targets(edges[..0], v) == [];
    }
  }

  lemma PairFlow(a: NodeDescriptor, b: NodeDescriptor, flow: Option<Id>, u: Id, v: Id)
    requires a.id != b.id
    ensures Layering.HasFlow(Pair(a, b, flow), u, v) <==> flow.Some? && u == a.id && v == b.id
  {
    hide WellFormed, Ids;
  }

  lemma PairPath(a: NodeDescriptor, b: NodeDescriptor, flow: Option<Id>, p: seq<Id>)
    requires a.id != b.id && Layering.IsPath(Pair(a, b, flow), p)
    ensures |p| == 1 || (flow.Some? && p == [a.id, b.id])
  {
    hide WellFormed, Ids, Layering.HasFlow;
    var g, n := Pair(a, b, flow), |p|;
    if n > 1 {
      assert Layering.HasFlow(g, p[n - 2], p[n - 1]) && Layering.IsPath(g, p[..n - 1]);
      PairFlow(a, b, flow, p[n - 2], p[n - 1]);
      if n > 2 {
        PairFlow(a, b, flow, p[..n - 1][n - 3], p[..n - 1][n - 2]);
      }
    }
  }

  lemma PairLongestPaths(a: NodeDescriptor, b: NodeDescriptor, flow: Option<Id>, layers: map<Id, nat>)
    requires a.id != b.id && Layering.IsLayering(Pair(a, b, flow), layers)
    ensures layers.Keys == {a.id, b.id}
    ensures forall v :: v in layers ==> Layering.LongestPathTo(Pair(a, b, flow), v, layers[v])
  {
    hide Layering.LongestPathTo, Layering.IsPath, Layering.NextLayer, Layering.SeenBefore, WellFormed;
    var g := Pair(a, b, flow);
    forall c ensures !Layering.IsCycle(g, c) {
      if Layering.IsPath(g, c) {
        PairPath(a, b, flow, c);
      }
    }
  }

  /** Unlinked nodes share the first layer, linked ones take two. */
  lemma PairLayers(a: NodeDescriptor, b: NodeDescriptor, flow: Option<Id>, layers: map<Id, nat>)
    requires a.id != b.id && Layering.IsLayering(Pair(a, b, flow), layers)
    ensures layers == map[a.id := 0, b.id := if flow.Some? then 1 else 0]
  {
    hide Layering.IsLayering, WellFormed;
    var g := Pair(a, b, flow);
    PairLongestPaths(a, b, flow, layers);
    var p :| Layering.PathTo(g, p, a.id) && |p| == layers[a.id] + 1;
    PairPath(a, b, flow, p);
    var q :| Layering.PathTo(g, q, b.id) && |q| == layers[b.id] + 1;
    PairPath(a, b, flow, q);
    if flow.Some? {
      var r := [a.id, b.id];
      assert r[..1] == [a.id] && Layering.IsPath(g, [a.id]) && Layering.HasFlow(g, a.id, b.id);
      assert Layering.PathTo(g, r, b.id);
    }
  }

  /** Alone in its layer a node stands in the first row. */
  lemma LinkedRows(
    a: NodeDescriptor, b: NodeDescriptor, flow: Id, rows: map<Id, nat>, boxes: map<Id, Bounds>)
    requires a.id != b.id && IsPlacement(Pair(a, b, Some(flow)), map[a.id := 0, b.id := 1], rows, boxes)
    ensures a.id in rows && b.id in rows && rows[a.id] == 0 && rows[b.id] == 0
  {
    hide Precedes, Ranked, Boxed;
    var layers := map[a.id := 0, b.id := 1];
    assert Compact(layers, rows, 0) && Compact(layers, rows, 1);
    assert a.id in Ids([a, b]) && b.id in Ids([a, b]) by { assert [a, b][0] == a && [a, b][1] == b; }
    assert rows.Keys == layers.Keys;
  }

  /**
   * Whatever the kinds, a node wider than the column gap covers part of the node its only flow leads
   * to: no graph can be spared a subprocess by what follows it.
   */
  lemma SubProcessCoversNext(
    a: NodeDescriptor, b: NodeDescriptor, flow: Id, layers: map<Id, nat>, rows: map<Id, nat>, boxes: map<Id, Bounds>)
    requires a.id != b.id && Width(a.kind) > COLUMN_GAP
    requires Layering.IsLayering(Pair(a, b, Some(flow)), layers)
    requires IsPlacement(Pair(a, b, Some(flow)), layers, rows, boxes)
    ensures a.id in boxes && b.id in boxes && Overlap(boxes[a.id], boxes[b.id])
  {
    hide IsPlacement, Layering.IsLayering, WellFormed, Width, Overlap;
    Sizes(a.kind);
    PairLayers(a, b, Some(flow), layers);
    LinkedRows(a, b, flow, rows, boxes);
    var g := Pair(a, b, Some(flow));
    assert g.nodes[0] == a && g.nodes[1] == b;
    assert Crowded(g, layers, rows, a, b);
    NodesOverlapIff(g, layers, rows, boxes, a, b);
  }

  /** Unlinked nodes stand below each other in document order. */
  lemma UnlinkedRows(a: NodeDescriptor, b: NodeDescriptor, rows: map<Id, nat>, boxes: map<Id, Bounds>)
    requires a.id != b.id && a.sourceIndex < b.sourceIndex
    requires IsPlacement(Pair(a, b, None), map[a.id := 0, b.id := 0], rows, boxes)
    ensures rows == map[a.id := 0, b.id := 1]
  {
    hide Ranked, Compact, Boxed;
    var layers, g := map[a.id := 0, b.id := 0], Pair(a, b, None);
    assert a.id in Ids([a, b]) && b.id in Ids([a, b]) by { assert [a, b][0] == a && [a, b][1] == b; }
    assert rows.Keys == layers.Keys;
    UnlinkedOrder(a, b, layers, rows);
    TwoRows(a.id, b.id, layers, rows);
    assert rows == map[a.id := 0, b.id := 1];
  }

  lemma UnlinkedOrder(a: NodeDescriptor, b: NodeDescriptor, layers: map<Id, nat>, rows: map<Id, nat>)
    requires a.id != b.id && a.sourceIndex < b.sourceIndex && layers == map[a.id := 0, b.id := 0]
    requires a.id in rows && b.id in rows && Ranked(Pair(a, b, None), layers, rows, 0)
    ensures rows[a.id] < rows[b.id]
  {
    hide Precedes, Below;
    var g := Pair(a, b, None);
    assert g.nodes[0] == a && g.nodes[1] == b;
    NoPredecessorOrder(a, b, Below(layers, rows, 0));
  }

  lemma TwoRows(a: Id, b: Id, layers: map<Id, nat>, rows: map<Id, nat>)
    requires a != b && layers == map[a := 0, b := 0] && rows.Keys == {a, b}
    requires Compact(layers, rows, 0) && rows[a] < rows[b]
    ensures rows[a] == 0 && rows[b] == 1
  {
  }

  lemma NoPredecessorOrder(a: NodeDescriptor, b: NodeDescriptor, rows: map<Id, nat>)
    requires a.id != b.id && a.sourceIndex < b.sourceIndex
    ensures Precedes(Pair(a, b, None), rows, a, b)
  {
    assert Barycenter(Pair(a, b, None), rows, a) == a.sourceIndex as real;
    assert Barycenter(Pair(a, b, None), rows, b) == b.sourceIndex as real;
  }
}
