/**
 * The flow graph the BPMN auto-layout works on: nodes in document order and a multigraph of
 * sequence flows kept as predecessor and successor lists.
 */
module FlowGraph {
  import opened Common

  datatype NodeKind =
    | StartEvent | EndEvent | IntermediateCatchEvent | IntermediateThrowEvent | BoundaryEvent
    | Task | UserTask | ServiceTask | ScriptTask | ManualTask | ReceiveTask | BusinessRuleTask | CallActivity
    | ExclusiveGateway | ParallelGateway | InclusiveGateway | EventBasedGateway | ComplexGateway
    | SubProcess | Transaction | EventSubProcess | AdhocSubProcess
    | DataObject

  /** A flow element of the process as the layout reads it. */
  datatype FlowElement =
    | SequenceFlow(id: Option<Id>, sourceRef: Option<Id>, targetRef: Option<Id>)
    | FlowNode(id: Option<Id>, kind: NodeKind)

  datatype LayoutError =
    | MissingId
    | MissingReference
    | NoRenderableNodes
    | UnknownSource(edge: Id, ref: Id)
    | UnknownTarget(edge: Id, ref: Id)

  datatype NodeDescriptor = NodeDescriptor(id: Id, kind: NodeKind, sourceIndex: nat)

  datatype EdgeDescriptor = EdgeDescriptor(id: Id, sourceRef: Id, targetRef: Id)

  datatype ProcessGraph = ProcessGraph(
    nodes: seq<NodeDescriptor>,
    edges: seq<EdgeDescriptor>,
    predecessors: map<Id, seq<Id>>,
    successors: map<Id, seq<Id>>)

  ghost function Ids(nodes: seq<NodeDescriptor>): set<Id> {
    set i | 0 <= i < |nodes| :: nodes[i].id
  }

  /** Sources of the flows into `v`, one entry per flow, in flow order. */
  function Sources(edges: seq<EdgeDescriptor>, v: Id): seq<Id> {
    if |edges| == 0 then [] else
      var rest := Sources(edges[..|edges| - 1], v);
      var e := edges[|edges| - 1];
      if e.targetRef == v then rest + [e.sourceRef] else rest
  }

  /** Targets of the flows out of `u`, one entry per flow, in flow order. */
  function Targets(edges: seq<EdgeDescriptor>, u: Id): seq<Id> {
    if |edges| == 0 then [] else
      var rest := Targets(edges[..|edges| - 1], u);
      var e := edges[|edges| - 1];
      if e.sourceRef == u then rest + [e.targetRef] else rest
  }

  ghost predicate DistinctIds(nodes: seq<NodeDescriptor>) {
    forall i, j :: 0 <= i < j < |nodes| ==> nodes[i].id != nodes[j].id
  }

  ghost predicate WellFormed(g: ProcessGraph) {
    && DistinctIds(g.nodes)
    && (forall i :: 0 <= i < |g.edges| ==>
          g.edges[i].sourceRef in Ids(g.nodes) && g.edges[i].targetRef in Ids(g.nodes))
    && g.predecessors.Keys == Ids(g.nodes)
    && g.successors.Keys == Ids(g.nodes)
    && (forall v :: v in Ids(g.nodes) ==> g.predecessors[v] == Sources(g.edges, v))
    && (forall u :: u in Ids(g.nodes) ==> g.successors[u] == Targets(g.edges, u))
  }

  // ---- Building the graph ---------------------------------------------------------

  /** An id already present keeps its place and takes the new value. */
  function UpsertNode(nodes: seq<NodeDescriptor>, n: NodeDescriptor): seq<NodeDescriptor> {
    if |nodes| == 0 then [n]
    else if nodes[0].id == n.id then [n] + nodes[1..]
    else [nodes[0]] + UpsertNode(nodes[1..], n)
  }

  function UpsertEdge(edges: seq<EdgeDescriptor>, e: EdgeDescriptor): seq<EdgeDescriptor> {
    if |edges| == 0 then [e]
    else if edges[0].id == e.id then [e] + edges[1..]
    else [edges[0]] + UpsertEdge(edges[1..], e)
  }

  predicate Complete(e: FlowElement) {
    e.id.Some? && (e.SequenceFlow? ==> e.sourceRef.Some? && e.targetRef.Some?)
  }

  function NodesOf(elements: seq<FlowElement>): seq<NodeDescriptor>
    requires forall i :: 0 <= i < |elements| ==> Complete(elements[i])
  {
    if |elements| == 0 then [] else
      var rest := NodesOf(elements[..|elements| - 1]);
      var e := elements[|elements| - 1];
      assert Complete(e);
      if e.FlowNode? then UpsertNode(rest, NodeDescriptor(e.id.value, e.kind, |elements| - 1)) else rest
  }

  function EdgesOf(elements: seq<FlowElement>): seq<EdgeDescriptor>
    requires forall i :: 0 <= i < |elements| ==> Complete(elements[i])
  {
    if |elements| == 0 then [] else
      var rest := EdgesOf(elements[..|elements| - 1]);
      var e := elements[|elements| - 1];
      assert Complete(e);
      if e.SequenceFlow? then UpsertEdge(rest, EdgeDescriptor(e.id.value, e.sourceRef.value, e.targetRef.value))
      else rest
  }

  lemma {:induction false} UpsertKeepsDistinct(nodes: seq<NodeDescriptor>, n: NodeDescriptor)
    requires DistinctIds(nodes)
    ensures DistinctIds(UpsertNode(nodes, n))
    ensures Ids(UpsertNode(nodes, n)) == Ids(nodes) + {n.id}
  {
    if |nodes| == 0 {
      IdsCons(n, []);
    } else {
      var r := UpsertNode(nodes, n);
      if nodes[0].id == n.id {
        assert forall i :: 0 < i < |r| ==> r[i] == nodes[i];
        IdsCons(n, nodes[1..]);
        IdsCons(nodes[0], nodes[1..]);
        assert nodes == [nodes[0]] + nodes[1..];
      } else {
        UpsertKeepsDistinct(nodes[1..], n);
        var t := UpsertNode(nodes[1..], n);
        IdsCons(nodes[0], t);
        IdsCons(nodes[0], nodes[1..]);
        assert nodes == [nodes[0]] + nodes[1..];
        forall i | 0 <= i < |t| ensures t[i].id != nodes[0].id {
          assert t[i].id in Ids(nodes[1..]) + {n.id};
        }
        assert forall i :: 0 < i < |r| ==> r[i] == t[i - 1];
      }
    }
  }

  lemma IdsCons(n: NodeDescriptor, nodes: seq<NodeDescriptor>)
    ensures Ids([n] + nodes) == Ids(nodes) + {n.id}
  {
    var r := [n] + nodes;
    assert r[0] == n && forall i :: 0 <= i < |nodes| ==> r[i + 1] == nodes[i];
  }

  /** The node ids are those of the flow-node elements, each kept once. */
  lemma {:induction false} NodesOfIds(elements: seq<FlowElement>)
    requires forall i :: 0 <= i < |elements| ==> Complete(elements[i])
    ensures DistinctIds(NodesOf(elements))
    ensures Ids(NodesOf(elements)) == set i | 0 <= i < |elements| && elements[i].FlowNode? :: elements[i].id.value
  {
    if |elements| > 0 {
      var rest := elements[..|elements| - 1];
      NodesOfIds(rest);
      var e := elements[|elements| - 1];
      assert Complete(e);
      if e.FlowNode? {
        UpsertKeepsDistinct(NodesOf(rest), NodeDescriptor(e.id.value, e.kind, |elements| - 1));
      }
      assert forall i :: 0 <= i < |rest| ==> rest[i] == elements[i];
    }
  }

  // ---- What the graph holds, element by element -------------------------------------

  function Count(s: seq<Id>, x: Id): nat {
    if |s| == 0 then 0 else Count(s[..|s| - 1], x) + if s[|s| - 1] == x then 1 else 0
  }

  /** Element `i` is a flow node, and the last one with its id. */
  ghost predicate NodeAt(elements: seq<FlowElement>, i: nat) {
    && i < |elements| && elements[i].FlowNode?
    && forall j :: i < j < |elements| && elements[j].FlowNode? ==> elements[j].id != elements[i].id
  }

  /** Element `i` is a sequence flow from `u` to `v`, and the last flow with its id. */
  ghost predicate FlowAt(elements: seq<FlowElement>, i: nat, u: Id, v: Id) {
    && i < |elements| && elements[i].SequenceFlow?
    && elements[i].sourceRef == Some(u) && elements[i].targetRef == Some(v)
    && forall j :: i < j < |elements| && elements[j].SequenceFlow? ==> elements[j].id != elements[i].id
  }

  /** The ids of the flows from `u` to `v`; when no flow id is repeated, one per such element. */
  ghost function FlowIds(elements: seq<FlowElement>, u: Id, v: Id): set<Option<Id>> {
    set i | 0 <= i < |elements| && FlowAt(elements, i, u, v) :: elements[i].id
  }

  /**
   * The graph holds each flow node with its kind and its place in the document, and each flow from
   * its source to its target: as often in both lists as there are such flows.
   */
  ghost predicate IsGraphOf(g: ProcessGraph, elements: seq<FlowElement>) {
    NodesMatch(g, elements) && FlowsCounted(g, elements) && EndsAreNodes(g, elements)
  }

  ghost predicate IsNodeOf(elements: seq<FlowElement>, n: NodeDescriptor) {
    && NodeAt(elements, n.sourceIndex)
    && elements[n.sourceIndex].id == Some(n.id) && elements[n.sourceIndex].kind == n.kind
  }

  ghost predicate NodesMatch(g: ProcessGraph, elements: seq<FlowElement>) {
    forall n :: n in g.nodes <==> IsNodeOf(elements, n)
  }

  ghost predicate FlowsCounted(g: ProcessGraph, elements: seq<FlowElement>) {
    && (forall u, v :: v in g.predecessors ==> Count(g.predecessors[v], u) == |FlowIds(elements, u, v)|)
    && (forall u, v :: u in g.successors ==> Count(g.successors[u], v) == |FlowIds(elements, u, v)|)
  }

  ghost predicate EndsAreNodes(g: ProcessGraph, elements: seq<FlowElement>) {
    forall i: nat, u, v :: FlowAt(elements, i, u, v) ==> u in g.predecessors && v in g.predecessors
  }

  ghost predicate DistinctEdges(edges: seq<EdgeDescriptor>) {
    forall i, j :: 0 <= i < j < |edges| ==> edges[i].id != edges[j].id
  }

  lemma {:induction false} UpsertEdgeIs(edges: seq<EdgeDescriptor>, d: EdgeDescriptor)
    requires DistinctEdges(edges)
    ensures forall x :: x in UpsertEdge(edges, d) <==> x == d || (x in edges && x.id != d.id)
    ensures DistinctEdges(UpsertEdge(edges, d))
  {
    if |edges| > 0 {
      var first, rest := edges[0], edges[1..];
      assert edges == [first] + rest;
      UpsertEdgeIs(rest, d);
      if first.id != d.id {
        var t := UpsertEdge(rest, d);
        forall k | 0 <= k < |t| ensures t[k].id != first.id {
          assert t[k] in t;
        }
      }
    }
  }

  lemma {:induction false} UpsertNodeIs(nodes: seq<NodeDescriptor>, n: NodeDescriptor)
    requires DistinctIds(nodes)
    ensures forall x :: x in UpsertNode(nodes, n) <==> x == n || (x in nodes && x.id != n.id)
  {
    if |nodes| > 0 {
      assert nodes == [nodes[0]] + nodes[1..];
      UpsertNodeIs(nodes[1..], n);
    }
  }

  lemma NodeAtStep(elements: seq<FlowElement>, i: nat)
    requires |elements| > 0
    ensures var n := |elements| - 1;
            NodeAt(elements, i) <==>
              || (i == n && elements[n].FlowNode?)
              || (NodeAt(elements[..n], i) && (elements[n].FlowNode? ==> elements[n].id != elements[i].id))
  {
    var n := |elements| - 1;
    var rest := elements[..n];
    assert forall j :: 0 <= j < n ==> rest[j] == elements[j];
  }

  lemma FlowAtStep(elements: seq<FlowElement>, i: nat, u: Id, v: Id)
    requires |elements| > 0
    ensures var n := |elements| - 1;
            FlowAt(elements, i, u, v) <==>
              || (i == n && elements[n] == SequenceFlow(elements[n].id, Some(u), Some(v)))
              || (FlowAt(elements[..n], i, u, v) && (elements[n].SequenceFlow? ==> elements[n].id != elements[i].id))
  {
    var n := |elements| - 1;
    var rest := elements[..n];
    assert forall j :: 0 <= j < n ==> rest[j] == elements[j];
  }

  /** Each node is its deciding element. */
  lemma {:induction false} NodesOfAre(elements: seq<FlowElement>, n: NodeDescriptor)
    requires forall i :: 0 <= i < |elements| ==> Complete(elements[i])
    ensures n in NodesOf(elements) <==> IsNodeOf(elements, n)
  {
    if |elements| > 0 {
      var rest, e := elements[..|elements| - 1], elements[|elements| - 1];
      assert Complete(e) && forall j :: 0 <= j < |rest| ==> rest[j] == elements[j];
      NodesOfAre(rest, n);
      NodesOfIds(rest);
      NodeAtStep(elements, n.sourceIndex);
      hide NodeAt, DistinctIds, Ids, UpsertNode;
      if e.FlowNode? {
        UpsertNodeIs(NodesOf(rest), NodeDescriptor(e.id.value, e.kind, |rest|));
      }
    }
  }

  /** The flow with this id, source and target decides. */
  ghost predicate HasFlowElement(elements: seq<FlowElement>, d: EdgeDescriptor) {
    exists i: nat :: FlowAt(elements, i, d.sourceRef, d.targetRef) && elements[i].id == Some(d.id)
  }

  lemma HasFlowStep(elements: seq<FlowElement>, d: EdgeDescriptor)
    requires |elements| > 0
    ensures var n := |elements| - 1;
            HasFlowElement(elements, d) <==>
              || elements[n] == SequenceFlow(Some(d.id), Some(d.sourceRef), Some(d.targetRef))
              || (HasFlowElement(elements[..n], d) && (elements[n].SequenceFlow? ==> elements[n].id != Some(d.id)))
  {
    var n := |elements| - 1;
    var rest := elements[..n];
    assert forall j :: 0 <= j < n ==> rest[j] == elements[j];
    if HasFlowElement(elements, d) {
      var i: nat :| FlowAt(elements, i, d.sourceRef, d.targetRef) && elements[i].id == Some(d.id);
      FlowAtStep(elements, i, d.sourceRef, d.targetRef);
      if i < n {
        assert FlowAt(rest, i, d.sourceRef, d.targetRef) && rest[i].id == Some(d.id);
      }
    }
    if i: nat :| FlowAt(rest, i, d.sourceRef, d.targetRef) && rest[i].id == Some(d.id) {
      FlowAtStep(elements, i, d.sourceRef, d.targetRef);
    }
    FlowAtStep(elements, n, d.sourceRef, d.targetRef);
  }

  /** Each edge is its deciding element. */
  lemma {:induction false} EdgesOfAre(elements: seq<FlowElement>)
    requires forall i :: 0 <= i < |elements| ==> Complete(elements[i])
    ensures DistinctEdges(EdgesOf(elements))
    ensures forall d :: d in EdgesOf(elements) <==> HasFlowElement(elements, d)
  {
    if |elements| > 0 {
      var rest, e := elements[..|elements| - 1], elements[|elements| - 1];
      assert Complete(e) && forall j :: 0 <= j < |rest| ==> rest[j] == elements[j];
      EdgesOfAre(rest);
      hide HasFlowElement, DistinctEdges, UpsertEdge;
      if e.SequenceFlow? {
        UpsertEdgeIs(EdgesOf(rest), EdgeDescriptor(e.id.value, e.sourceRef.value, e.targetRef.value));
      }
      forall d ensures d in EdgesOf(elements) <==> HasFlowElement(elements, d) {
        HasFlowStep(elements, d);
      }
    }
  }

  ghost function EdgeIds(edges: seq<EdgeDescriptor>, u: Id, v: Id): set<Option<Id>> {
    set d | d in edges && d.sourceRef == u && d.targetRef == v :: Some(d.id)
  }

  lemma {:induction false} CountIsEdgeIds(edges: seq<EdgeDescriptor>, u: Id, v: Id)
    requires DistinctEdges(edges)
    ensures Count(Sources(edges, v), u) == |EdgeIds(edges, u, v)|
    ensures Count(Targets(edges, u), v) == |EdgeIds(edges, u, v)|
  {
    if |edges| > 0 {
      var n := |edges| - 1;
      var rest, d := edges[..n], edges[n];
      CountIsEdgeIds(rest, u, v);
      CountSnoc(Sources(rest, v), d.sourceRef, u);
      CountSnoc(Targets(rest, u), d.targetRef, v);
      EdgeIdsSnoc(edges, u, v);
      hide Count, EdgeIds, DistinctEdges;
    }
  }

  lemma EdgeIdsSnoc(edges: seq<EdgeDescriptor>, u: Id, v: Id)
    requires |edges| > 0 && DistinctEdges(edges)
    ensures var rest, d := edges[..|edges| - 1], edges[|edges| - 1];
            |EdgeIds(edges, u, v)| == |EdgeIds(rest, u, v)| + if d.sourceRef == u && d.targetRef == v then 1 else 0
  {
    var rest, d := edges[..|edges| - 1], edges[|edges| - 1];
    assert edges == rest + [d];
    assert forall x :: x in rest ==> x.id != d.id;
    var here := if d.sourceRef == u && d.targetRef == v then {Some(d.id)} else {};
    assert EdgeIds(edges, u, v) == EdgeIds(rest, u, v) + here;
    assert EdgeIds(rest, u, v) !! here;
  }

  lemma CountSnoc(s: seq<Id>, x: Id, y: Id)
    ensures Count(s + [x], y) == Count(s, y) + if x == y then 1 else 0
  {
    assert (s + [x])[..|s|] == s;
  }

  lemma FlowIdsAre(elements: seq<FlowElement>, u: Id, v: Id)
    requires forall i :: 0 <= i < |elements| ==> Complete(elements[i])
    ensures FlowIds(elements, u, v) == EdgeIds(EdgesOf(elements), u, v)
  {
    EdgesOfAre(elements);
    hide EdgesOf, FlowAt;
    forall x ensures x in FlowIds(elements, u, v) <==> x in EdgeIds(EdgesOf(elements), u, v) {
      if x in FlowIds(elements, u, v) {
        var i :| 0 <= i < |elements| && FlowAt(elements, i, u, v) && elements[i].id == x;
        assert Complete(elements[i]);
        assert HasFlowElement(elements, EdgeDescriptor(x.value, u, v));
        assert EdgeDescriptor(x.value, u, v) in EdgesOf(elements);
      }
      if x in EdgeIds(EdgesOf(elements), u, v) {
        var d :| d in EdgesOf(elements) && d.sourceRef == u && d.targetRef == v && Some(d.id) == x;
        var i: nat :| FlowAt(elements, i, u, v) && elements[i].id == x;
        FlowAtInRange(elements, i, u, v);
      }
    }
  }

  lemma FlowAtInRange(elements: seq<FlowElement>, i: nat, u: Id, v: Id)
    requires FlowAt(elements, i, u, v)
    ensures i < |elements|
  {
  }

  lemma CollectedFlows(g: ProcessGraph, elements: seq<FlowElement>)
    requires forall i :: 0 <= i < |elements| ==> Complete(elements[i])
    requires WellFormed(g) && g.edges == EdgesOf(elements)
    ensures FlowsCounted(g, elements)
  {
    EdgesOfAre(elements);
    hide EdgesOf, Sources, Targets, Count, FlowIds, DistinctEdges, HasFlowElement, Complete;
    forall u, v ensures Count(Sources(g.edges, v), u) == |FlowIds(elements, u, v)| == Count(Targets(g.edges, u), v) {
      CountIsEdgeIds(g.edges, u, v);
      FlowIdsAre(elements, u, v);
    }
  }

  lemma CollectedEnds(g: ProcessGraph, elements: seq<FlowElement>)
    requires forall i :: 0 <= i < |elements| ==> Complete(elements[i])
    requires WellFormed(g) && g.edges == EdgesOf(elements)
    ensures EndsAreNodes(g, elements)
  {
    EdgesOfAre(elements);
    hide EdgesOf, FlowAt, DistinctEdges, Sources, Targets, Ids, DistinctIds;
    forall i: nat, u, v | FlowAt(elements, i, u, v) ensures u in g.predecessors && v in g.predecessors {
      FlowAtInRange(elements, i, u, v);
      assert Complete(elements[i]);
      var d := EdgeDescriptor(elements[i].id.value, u, v);
      assert HasFlowElement(elements, d);
      var k :| 0 <= k < |g.edges| && g.edges[k] == d;
    }
  }

  /** A well-formed graph on the collected nodes and edges is the graph of the elements. */
  lemma CollectedIsGraphOf(g: ProcessGraph, elements: seq<FlowElement>)
    requires forall i :: 0 <= i < |elements| ==> Complete(elements[i])
    requires WellFormed(g) && g.nodes == NodesOf(elements) && g.edges == EdgesOf(elements)
    ensures IsGraphOf(g, elements)
  {
    hide IsNodeOf, NodesOf, EdgesOf, WellFormed, FlowsCounted, EndsAreNodes, Complete;
    forall n ensures n in g.nodes <==> IsNodeOf(elements, n) {
      NodesOfAre(elements, n);
    }
    CollectedFlows(g, elements);
    CollectedEnds(g, elements);
  }

  /** Both endpoints of every flow are nodes. */
  ghost predicate EndpointsKnown(nodes: seq<NodeDescriptor>, edges: seq<EdgeDescriptor>) {
    forall i :: 0 <= i < |edges| ==> edges[i].sourceRef in Ids(nodes) && edges[i].targetRef in Ids(nodes)
  }

  /** In terms of the elements: every deciding flow leads from a flow node to a flow node. */
  lemma EndpointsKnownIff(elements: seq<FlowElement>)
    requires forall i :: 0 <= i < |elements| ==> Complete(elements[i])
    ensures EndpointsKnown(NodesOf(elements), EdgesOf(elements)) <==>
            forall i: nat, u, v :: FlowAt(elements, i, u, v) ==> IsNodeId(elements, u) && IsNodeId(elements, v)
  {
    NodesOfIds(elements);
    EdgesOfAre(elements);
    hide NodesOf, EdgesOf, FlowAt;
    var nodes, edges := NodesOf(elements), EdgesOf(elements);
    forall u ensures u in Ids(nodes) <==> IsNodeId(elements, u) {
    }
    if EndpointsKnown(nodes, edges) {
      forall i: nat, u, v | FlowAt(elements, i, u, v) ensures IsNodeId(elements, u) && IsNodeId(elements, v) {
        FlowAtInRange(elements, i, u, v);
        assert Complete(elements[i]);
        var d := EdgeDescriptor(elements[i].id.value, u, v);
        assert HasFlowElement(elements, d);
        var k :| 0 <= k < |edges| && edges[k] == d;
      }
    }
    if forall i: nat, u, v :: FlowAt(elements, i, u, v) ==> IsNodeId(elements, u) && IsNodeId(elements, v) {
      forall k | 0 <= k < |edges| ensures edges[k].sourceRef in Ids(nodes) && edges[k].targetRef in Ids(nodes) {
        assert edges[k] in edges;
        var i: nat :| FlowAt(elements, i, edges[k].sourceRef, edges[k].targetRef)
            && elements[i].id == Some(edges[k].id);
      }
    }
  }

  ghost predicate IsNodeId(elements: seq<FlowElement>, id: Id) {
    exists i :: 0 <= i < |elements| && elements[i].FlowNode? && elements[i].id == Some(id)
  }

  ghost predicate FirstIncomplete(elements: seq<FlowElement>, i: nat)
    requires i < |elements|
  {
    !Complete(elements[i]) && forall k :: 0 <= k < i ==> Complete(elements[k])
  }

  lemma {:induction false} NoNodesIff(elements: seq<FlowElement>)
    requires forall i :: 0 <= i < |elements| ==> Complete(elements[i])
    ensures NodesOf(elements) == [] <==> forall i :: 0 <= i < |elements| ==> !elements[i].FlowNode?
    decreases |elements|
  {
    if |elements| > 0 {
      var n := |elements| - 1;
      NoNodesIff(elements[..n]);
      assert forall i :: 0 <= i < n ==> elements[..n][i] == elements[i];
      UpsertIsNotEmpty(NodesOf(elements[..n]));
    }
  }

  lemma UpsertIsNotEmpty(nodes: seq<NodeDescriptor>)
    ensures forall n :: UpsertNode(nodes, n) != []
  {
  }

  method CollectProcessGraph(processId: Option<Id>, elements: seq<FlowElement>)
    returns (r: Result<ProcessGraph, LayoutError>)
    ensures r.Ok? <==>
            && processId.Some?
            && (forall i :: 0 <= i < |elements| ==> Complete(elements[i]))
            && NodesOf(elements) != []
            && EndpointsKnown(NodesOf(elements), EdgesOf(elements))
    ensures r.Ok? ==>
              && WellFormed(r.value)
              && r.value.nodes == NodesOf(elements)
              && r.value.edges == EdgesOf(elements)
              && IsGraphOf(r.value, elements)
    ensures processId.None? ==> r == Err(MissingId)
    ensures processId.Some? && r.Err? ==>
              || (exists i :: 0 <= i < |elements| && FirstIncomplete(elements, i)
                              && r.error == if elements[i].id.None? then MissingId else MissingReference)
              || ((forall i :: 0 <= i < |elements| ==> Complete(elements[i])) &&
                  if forall i :: 0 <= i < |elements| ==> !elements[i].FlowNode? then r.error == NoRenderableNodes
                  else exists k :: 0 <= k < |EdgesOf(elements)|
                                   && EndpointsKnown(NodesOf(elements), EdgesOf(elements)[..k])
                                   && Refuses(NodesOf(elements), EdgesOf(elements)[k], r.error))
  {
    hide IsGraphOf, Refuses, EndpointsKnown;
    if processId.None? {
      return Err(MissingId);
    }
    var nodes: seq<NodeDescriptor>, edges: seq<EdgeDescriptor> := [], [];
    for i := 0 to |elements|
      invariant forall k :: 0 <= k < i ==> Complete(elements[k])
      invariant nodes == NodesOf(elements[..i]) && edges == EdgesOf(elements[..i])
    {
      var e := elements[i];
      assert elements[..i + 1][..i] == elements[..i];
      if e.id.None? {
        assert FirstIncomplete(elements, i);
        return Err(MissingId);
      }
      match e {
        case SequenceFlow(id, source, target) =>
          if source.None? || target.None? {
            assert FirstIncomplete(elements, i);
            return Err(MissingReference);
          }
          edges := UpsertEdge(edges, EdgeDescriptor(id.value, source.value, target.value));
        case FlowNode(id, kind) =>
          nodes := UpsertNode(nodes, NodeDescriptor(id.value, kind, i));
      }
    }
    assert elements[..|elements|] == elements;
    NodesOfIds(elements);
    NoNodesIff(elements);
    if nodes == [] {
      return Err(NoRenderableNodes);
    }
    r := LinkFlows(nodes, edges);
    if r.Ok? {
      CollectedIsGraphOf(r.value, elements);
    }
  }

  /** Both maps after the flows in `edges` have been entered. */
  ghost predicate Linked(nodes: seq<NodeDescriptor>, edges: seq<EdgeDescriptor>,
                         predecessors: map<Id, seq<Id>>, successors: map<Id, seq<Id>>) {
    && predecessors.Keys == Ids(nodes)
    && successors.Keys == Ids(nodes)
    && (forall v :: v in Ids(nodes) ==> predecessors[v] == Sources(edges, v))
    && (forall u :: u in Ids(nodes) ==> successors[u] == Targets(edges, u))
  }

  lemma LinkOne(nodes: seq<NodeDescriptor>, edges: seq<EdgeDescriptor>, k: nat,
                predecessors: map<Id, seq<Id>>, successors: map<Id, seq<Id>>)
    requires k < |edges| && Linked(nodes, edges[..k], predecessors, successors) && EndpointsKnown(nodes, edges[..k])
    requires edges[k].sourceRef in Ids(nodes) && edges[k].targetRef in Ids(nodes)
    ensures EndpointsKnown(nodes, edges[..k + 1])
    ensures var e := edges[k];
            Linked(nodes, edges[..k + 1],
                   predecessors[e.targetRef := predecessors[e.targetRef] + [e.sourceRef]],
                   successors[e.sourceRef := successors[e.sourceRef] + [e.targetRef]])
  {
    assert edges[..k + 1][..k] == edges[..k];
  }

  /** The flow names an unknown source, or else an unknown target. */
  ghost predicate Refuses(nodes: seq<NodeDescriptor>, e: EdgeDescriptor, error: LayoutError) {
    if e.sourceRef !in Ids(nodes) then error == UnknownSource(e.id, e.sourceRef)
    else e.targetRef !in Ids(nodes) && error == UnknownTarget(e.id, e.targetRef)
  }

  /** Fills both adjacency maps flow by flow, refusing a flow with an unknown end. */
  method LinkFlows(
      nodes: seq<NodeDescriptor>, edges: seq<EdgeDescriptor>)
      returns (r: Result<ProcessGraph, LayoutError>)
    requires DistinctIds(nodes)
    ensures r.Ok? <==> EndpointsKnown(nodes, edges)
    ensures r.Ok? ==> WellFormed(r.value) && r.value.nodes == nodes && r.value.edges == edges
    ensures r.Err? ==>
              exists k :: 0 <= k < |edges| && EndpointsKnown(nodes, edges[..k]) && Refuses(nodes, edges[k], r.error)
  {
    var predecessors: map<Id, seq<Id>> := map i | 0 <= i < |nodes| :: nodes[i].id := [];
    var successors := predecessors;
    for k := 0 to |edges|
      invariant EndpointsKnown(nodes, edges[..k])
      invariant Linked(nodes, edges[..k], predecessors, successors)
    {
      var e := edges[k];
      if e.sourceRef !in predecessors {
        return Err(UnknownSource(e.id, e.sourceRef));
      }
      if e.targetRef !in predecessors {
        return Err(UnknownTarget(e.id, e.targetRef));
      }
      LinkOne(nodes, edges, k, predecessors, successors);
      predecessors := predecessors[e.targetRef := predecessors[e.targetRef] + [e.sourceRef]];
      successors := successors[e.sourceRef := successors[e.sourceRef] + [e.targetRef]];
    }
    assert edges[..|edges|] == edges;
    r := Ok(ProcessGraph(nodes, edges, predecessors, successors));
  }
}
