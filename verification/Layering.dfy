/**
 * The layer assignment of the BPMN auto-layout: Kahn's queue over the flow graph, followed by a
 * fallback pass for the nodes the queue never reaches.
 */
module Layering {
  import opened Common
  import opened FlowGraph

  // ---- Counting flows -------------------------------------------------------------

  lemma {:induction false} CountPositive(s: seq<Id>, x: Id)
    ensures Count(s, x) > 0 <==> x in s
  {
    if |s| > 0 {
      CountPositive(s[..|s| - 1], x);
      assert s == s[..|s| - 1] + [s[|s| - 1]];
    }
  }

  /** Parallel flows are seen equally often from both ends. */
  lemma {:induction false} BothEndsCountTheSame(edges: seq<EdgeDescriptor>, u: Id, v: Id)
    ensures Count(Sources(edges, v), u) == Count(Targets(edges, u), v)
  {
    if |edges| > 0 {
      BothEndsCountTheSame(edges[..|edges| - 1], u, v);
      var rest := Sources(edges[..|edges| - 1], v);
      var rest' := Targets(edges[..|edges| - 1], u);
      var e := edges[|edges| - 1];
      assert (rest + [e.sourceRef])[..|rest|] == rest;
      assert (rest' + [e.targetRef])[..|rest'|] == rest';
    }
  }

  lemma {:induction false} SourcesInNodes(g: ProcessGraph, edges: seq<EdgeDescriptor>, v: Id)
    requires forall i :: 0 <= i < |edges| ==>
               edges[i].sourceRef in Ids(g.nodes) && edges[i].targetRef in Ids(g.nodes)
    ensures forall u :: u in Sources(edges, v) ==> u in Ids(g.nodes)
    ensures forall u :: u in Targets(edges, v) ==> u in Ids(g.nodes)
  {
    if |edges| > 0 {
      SourcesInNodes(g, edges[..|edges| - 1], v);
    }
  }

  /** How many entries of `s` have not been given a layer. */
  ghost function Pending(s: seq<Id>, done: set<Id>): nat {
    if |s| == 0 then 0 else Pending(s[..|s| - 1], done) + if s[|s| - 1] in done then 0 else 1
  }

  lemma {:induction false} PendingZero(s: seq<Id>, done: set<Id>)
    ensures Pending(s, done) == 0 <==> forall x :: x in s ==> x in done
  {
    if |s| > 0 {
      PendingZero(s[..|s| - 1], done);
      assert s == s[..|s| - 1] + [s[|s| - 1]];
    }
  }

  lemma {:induction false} PendingAfterDone(s: seq<Id>, done: set<Id>, u: Id)
    requires u !in done
    ensures Pending(s, done + {u}) == Pending(s, done) - Count(s, u)
  {
    if |s| > 0 {
      PendingAfterDone(s[..|s| - 1], done, u);
    }
  }

  lemma {:induction false} PendingNone(s: seq<Id>)
    ensures Pending(s, {}) == |s|
  {
    if |s| > 0 {
      PendingNone(s[..|s| - 1]);
    }
  }

  // ---- Layers ---------------------------------------------------------------------

  /** One above the highest layered predecessor, or 0 when no predecessor is layered. */
  function NextLayer(preds: seq<Id>, layers: map<Id, nat>): nat {
    if |preds| == 0 then 0 else
      var last := preds[|preds| - 1];
      var rest := NextLayer(preds[..|preds| - 1], layers);
      if last in layers && rest <= layers[last] then layers[last] + 1 else rest
  }

  lemma {:induction false} NextLayerAbove(preds: seq<Id>, layers: map<Id, nat>, p: Id)
    requires p in preds && p in layers
    ensures layers[p] < NextLayer(preds, layers)
  {
    if p != preds[|preds| - 1] {
      NextLayerAbove(preds[..|preds| - 1], layers, p);
    }
  }

  lemma {:induction false} NextLayerReached(preds: seq<Id>, layers: map<Id, nat>) returns (p: Id)
    requires NextLayer(preds, layers) > 0
    ensures p in preds && p in layers && layers[p] == NextLayer(preds, layers) - 1
  {
    p := preds[|preds| - 1];
    if p !in layers || layers[p] != NextLayer(preds, layers) - 1 {
      p := NextLayerReached(preds[..|preds| - 1], layers);
    }
  }

  // ---- Source order ---------------------------------------------------------------

  /** Earlier in the document, ties broken by id. */
  predicate Before(index: map<Id, nat>, a: Id, b: Id)
    requires a in index && b in index
  {
    index[a] < index[b] || (index[a] == index[b] && TextLeq(a.text, b.text))
  }

  function Place(index: map<Id, nat>, x: Id, s: seq<Id>): (r: seq<Id>)
    requires x in index && forall y :: y in s ==> y in index
    ensures multiset(r) == multiset([x]) + multiset(s)
  {
    if |s| == 0 || Before(index, x, s[0]) then [x] + s else
      assert s == [s[0]] + s[1..];
      [s[0]] + Place(index, x, s[1..])
  }

  function InSourceOrder(index: map<Id, nat>, s: seq<Id>): (r: seq<Id>)
    requires forall y :: y in s ==> y in index
    ensures multiset(r) == multiset(s)
  {
    if |s| == 0 then [] else
      assert s == [s[0]] + s[1..];
      var rest := InSourceOrder(index, s[1..]);
      assert forall y :: y in rest ==> y in multiset(rest);
      Place(index, s[0], rest)
  }

  lemma {:induction false} SameMultisetFacts(s: seq<Id>, r: seq<Id>)
    requires multiset(r) == multiset(s)
    ensures forall x :: x in r <==> x in s
    ensures Distinct(s) ==> Distinct(r)
  {
    forall x ensures x in r <==> x in s {
      assert x in r <==> x in multiset(r);
      assert x in s <==> x in multiset(s);
    }
    if Distinct(s) {
      forall i, j | 0 <= i < j < |r| ensures r[i] != r[j] {
        if r[i] == r[j] {
          MultiplicityOfRepeat(r, i, j);
          MultiplicityOfDistinct(s, r[i]);
          assert false;
        }
      }
    }
  }

  lemma {:induction false} MultiplicityOfRepeat(r: seq<Id>, i: nat, j: nat)
    requires i < j < |r| && r[i] == r[j]
    ensures multiset(r)[r[i]] >= 2
  {
    assert r == r[..j] + r[j..];
    assert r[i] in r[..j] && r[j] in r[j..];
    assert multiset(r) == multiset(r[..j]) + multiset(r[j..]);
  }

  lemma {:induction false} MultiplicityOfDistinct(s: seq<Id>, x: Id)
    requires Distinct(s)
    ensures multiset(s)[x] <= 1
  {
    if |s| > 0 {
      MultiplicityOfDistinct(s[1..], x);
      assert s == [s[0]] + s[1..];
      assert multiset(s)[x] == multiset([s[0]])[x] + multiset(s[1..])[x];
      if s[0] == x {
        assert x !in s[1..];
      }
    }
  }

  lemma BeforeIsTotalOrder(index: map<Id, nat>, a: Id, b: Id, c: Id)
    requires a in index && b in index && c in index
    ensures Before(index, a, b) || Before(index, b, a)
    ensures Before(index, a, b) && Before(index, b, a) ==> a == b
    ensures Before(index, a, b) && Before(index, b, c) ==> Before(index, a, c)
  {
    TextOrderTotal(a.text, b.text);
    if TextLeq(a.text, b.text) && TextLeq(b.text, c.text) {
      TextOrderTransitive(a.text, b.text, c.text);
    }
  }

  ghost predicate Ordered(index: map<Id, nat>, s: seq<Id>)
    requires forall y :: y in s ==> y in index
  {
    forall i, j :: 0 <= i < j < |s| ==> Before(index, s[i], s[j])
  }

  lemma {:induction false} PlaceMembers(index: map<Id, nat>, x: Id, s: seq<Id>)
    requires x in index && forall y :: y in s ==> y in index
    ensures forall y :: y in Place(index, x, s) <==> y == x || y in s
  {
    hide TextLeq;
    if |s| > 0 && !Before(index, x, s[0]) {
      PlaceMembers(index, x, s[1..]);
    }
  }

  lemma OrderedCons(index: map<Id, nat>, x: Id, s: seq<Id>)
    requires x in index && forall y :: y in s ==> y in index
    requires Ordered(index, s) && forall y :: y in s ==> Before(index, x, y)
    ensures Ordered(index, [x] + s)
  {
    hide TextLeq;
  }

  lemma {:induction false} PlaceOrdered(index: map<Id, nat>, x: Id, s: seq<Id>)
    requires x in index && forall y :: y in s ==> y in index
    requires Ordered(index, s)
    ensures forall y :: y in Place(index, x, s) ==> y in index
    ensures Ordered(index, Place(index, x, s))
  {
    hide TextLeq;
    PlaceMembers(index, x, s);
    if |s| == 0 {
    } else if Before(index, x, s[0]) {
      forall y | y in s ensures Before(index, x, y) {
        BeforeIsTotalOrder(index, x, s[0], y);
      }
      OrderedCons(index, x, s);
    } else {
      PlaceOrdered(index, x, s[1..]);
      PlaceMembers(index, x, s[1..]);
      BeforeIsTotalOrder(index, s[0], x, x);
      OrderedCons(index, s[0], Place(index, x, s[1..]));
    }
  }

  lemma {:induction false} SortOrders(index: map<Id, nat>, s: seq<Id>)
    requires forall y :: y in s ==> y in index
    ensures forall y :: y in InSourceOrder(index, s) ==> y in index
    ensures Ordered(index, InSourceOrder(index, s))
  {
    hide TextLeq;
    SameMultisetFacts(s, InSourceOrder(index, s));
    if |s| > 0 {
      SortOrders(index, s[1..]);
      PlaceOrdered(index, s[0], InSourceOrder(index, s[1..]));
    }
  }

  // ---- Kahn's queue ---------------------------------------------------------------

  function SourceIndices(g: ProcessGraph): (m: map<Id, nat>)
    requires WellFormed(g)
    ensures m.Keys == Ids(g.nodes)
  {
    IndicesOf(g.nodes)
  }

  function IndicesOf(nodes: seq<NodeDescriptor>): (m: map<Id, nat>)
    ensures m.Keys == Ids(nodes)
  {
    if |nodes| == 0 then map[] else
      var n := nodes[|nodes| - 1];
      var rest := nodes[..|nodes| - 1];
      assert Ids(nodes) == Ids(rest) + {n.id} by {
        assert forall i :: 0 <= i < |rest| ==> nodes[i] == rest[i];
      }
      IndicesOf(rest)[n.id := n.sourceIndex]
  }

  /** Every layered node has all its predecessors layered and sits just above the highest. */
  ghost predicate Settled(g: ProcessGraph, layers: map<Id, nat>) {
    && layers.Keys <= g.predecessors.Keys
    && forall v :: v in layers ==>
         && (forall u :: u in g.predecessors[v] ==> u in layers)
         && layers[v] == NextLayer(g.predecessors[v], layers)
  }

  /** Every node without a layer waits for a predecessor without a layer. */
  ghost predicate Stuck(g: ProcessGraph, layers: map<Id, nat>) {
    forall v :: v in g.predecessors && v !in layers ==>
      exists u :: u in g.predecessors[v] && u !in layers
  }

  ghost predicate Closed(g: ProcessGraph, done: set<Id>) {
    forall v :: v in done && v in g.predecessors ==> forall u :: u in g.predecessors[v] ==> u in done
  }

  ghost predicate QueueInv(g: ProcessGraph, done: set<Id>, indegree: map<Id, nat>, queue: seq<Id>) {
    && indegree.Keys == g.predecessors.Keys
    && (forall v :: v in indegree ==> indegree[v] == Pending(g.predecessors[v], done))
    && Distinct(queue)
    && (forall v :: v in queue <==> v in indegree && v !in done && indegree[v] == 0)
  }

  lemma {:induction false} CountOfPrefix(s: seq<Id>, i: nat, x: Id)
    requires i <= |s|
    ensures Count(s[..i], x) <= Count(s, x)
    ensures i < |s| && s[i] == x ==> Count(s[..i], x) < Count(s, x)
  {
    if i < |s| {
      CountOfPrefix(s[..|s| - 1], i, x);
      assert s[..|s| - 1][..i] == s[..i];
      if i < |s| - 1 {
        assert s[..|s| - 1][i] == s[i];
      }
    } else {
      assert s[..i] == s;
    }
  }

  /** `queue` while the flows of `u` are being released: `u` itself has already left it. */
  ghost predicate ReleaseInv(g: ProcessGraph, u: Id, done: set<Id>, indegree: map<Id, nat>, queue: seq<Id>) {
    && indegree.Keys == g.predecessors.Keys
    && Distinct(queue)
    && (forall v :: v in queue <==> v in indegree && v !in done && v != u && indegree[v] == 0)
  }

  lemma StartRelease(g: ProcessGraph, u: Id, done: set<Id>, indegree: map<Id, nat>, queue: seq<Id>)
    requires QueueInv(g, done, indegree, [u] + queue)
    ensures ReleaseInv(g, u, done, indegree, queue)
    ensures u in indegree && u !in done && forall p :: p in g.predecessors[u] ==> p in done
  {
    var whole := [u] + queue;
    assert whole[0] == u;
    PendingZero(g.predecessors[u], done);
    assert forall i :: 0 <= i < |queue| ==> queue[i] == whole[i + 1];
  }

  /** A flow still to be released means its target is counted at least once more. */
  lemma FlowStillCounted(g: ProcessGraph, u: Id, done: set<Id>, i: nat)
    requires WellFormed(g) && u in g.predecessors && u !in done && Closed(g, done)
    requires forall p :: p in g.predecessors[u] ==> p in done
    requires i < |g.successors[u]|
    ensures var v := g.successors[u][i];
            && v in g.predecessors && v !in done && v != u
            && Pending(g.predecessors[v], done) > Count(g.successors[u][..i], v)
  {
    var v := g.successors[u][i];
    FlowTarget(g, u, v);
    PendingAfterDone(g.predecessors[v], done, u);
    BothEndsCountTheSame(g.edges, u, v);
    CountOfPrefix(g.successors[u], i, v);
  }

  /** The in-degrees after the first `i` flows out of `u` have been released. */
  ghost predicate Released(indegree0: map<Id, nat>, succ: seq<Id>, i: nat, indegree: map<Id, nat>) {
    && i <= |succ|
    && indegree.Keys == indegree0.Keys
    && forall v :: v in indegree ==> indegree[v] == indegree0[v] - Count(succ[..i], v)
  }

  lemma ReleasedStep(indegree0: map<Id, nat>, succ: seq<Id>, i: nat, indegree: map<Id, nat>, indegree': map<Id, nat>)
    requires i < |succ| && Released(indegree0, succ, i, indegree)
    requires succ[i] in indegree && indegree[succ[i]] > 0
    requires indegree' == indegree[succ[i] := indegree[succ[i]] - 1]
    ensures Released(indegree0, succ, i + 1, indegree')
  {
    assert succ[..i + 1][..i] == succ[..i];
  }

  lemma ReleaseStep(g: ProcessGraph, u: Id, done: set<Id>, v: Id,
                    indegree: map<Id, nat>, queue: seq<Id>,
                    indegree': map<Id, nat>, queue': seq<Id>)
    requires ReleaseInv(g, u, done, indegree, queue)
    requires v in indegree && v !in done && v != u && indegree[v] > 0
    requires indegree' == indegree[v := indegree[v] - 1]
    requires queue' == if indegree'[v] == 0 then queue + [v] else queue
    ensures ReleaseInv(g, u, done, indegree', queue')
  {
  }

  lemma FinishRelease(g: ProcessGraph, u: Id, done: set<Id>,
                      indegree0: map<Id, nat>, indegree: map<Id, nat>, queue: seq<Id>)
    requires WellFormed(g) && u in g.predecessors && u !in done
    requires indegree0.Keys == g.predecessors.Keys
    requires forall v :: v in indegree0 ==> indegree0[v] == Pending(g.predecessors[v], done)
    requires ReleaseInv(g, u, done, indegree, queue)
    requires Released(indegree0, g.successors[u], |g.successors[u]|, indegree)
    ensures QueueInv(g, done + {u}, indegree, queue)
  {
    var succ := g.successors[u];
    assert succ[..|succ|] == succ;
    forall v | v in indegree ensures indegree[v] == Pending(g.predecessors[v], done + {u}) {
      PendingAfterDone(g.predecessors[v], done, u);
      BothEndsCountTheSame(g.edges, u, v);
    }
  }

  /** The inner loop: node `u` has just been layered, so each flow out of it is released once. */
  method ReleaseSuccessors(g: ProcessGraph, u: Id, ghost done: set<Id>,
                           indegree0: map<Id, nat>, queue0: seq<Id>)
    returns (indegree: map<Id, nat>, queue: seq<Id>)
    requires WellFormed(g) && u in g.predecessors && u !in done && Closed(g, done)
    requires QueueInv(g, done, indegree0, [u] + queue0)
    ensures QueueInv(g, done + {u}, indegree, queue)
  {
    BeginRelease(g, u, done, indegree0, queue0);
    hide WellFormed, QueueInv, ReleaseInv, Released, Closed, Pending, Count;
    indegree, queue := indegree0, queue0;
    var succ := g.successors[u];
    for i := 0 to |succ|
      invariant ReleaseInv(g, u, done, indegree, queue)
      invariant Released(indegree0, succ, i, indegree)
    {
      NextFlowIsCounted(g, u, done, indegree0, queue0, i, indegree);
      var v := succ[i];
      ghost var indegree', queue' := indegree, queue;
      indegree := indegree[v := indegree[v] - 1];
      if indegree[v] == 0 {
        queue := queue + [v];
      }
      ReleasedStep(indegree0, succ, i, indegree', indegree);
      ReleaseStep(g, u, done, v, indegree', queue', indegree, queue);
    }
    FinishRelease(g, u, done, indegree0, indegree, queue);
  }

  lemma BeginRelease(g: ProcessGraph, u: Id, done: set<Id>, indegree: map<Id, nat>, queue: seq<Id>)
    requires WellFormed(g) && QueueInv(g, done, indegree, [u] + queue)
    ensures ReleaseInv(g, u, done, indegree, queue)
    ensures u in g.successors && Released(indegree, g.successors[u], 0, indegree)
    ensures indegree.Keys == g.predecessors.Keys
    ensures forall v :: v in indegree ==> indegree[v] == Pending(g.predecessors[v], done)
  {
    hide ReleaseInv, Pending;
    StartRelease(g, u, done, indegree, queue);
    assert g.successors[u][..0] == [];
  }

  lemma NextFlowIsCounted(g: ProcessGraph, u: Id, done: set<Id>, indegree0: map<Id, nat>, queue0: seq<Id>, i: nat,
                          indegree: map<Id, nat>)
    requires WellFormed(g) && u in g.predecessors && u !in done && Closed(g, done) && u in g.successors
    requires QueueInv(g, done, indegree0, [u] + queue0)
    requires i < |g.successors[u]| && Released(indegree0, g.successors[u], i, indegree)
    ensures var v := g.successors[u][i]; v in indegree && v !in done && v != u && indegree[v] > 0
  {
    hide WellFormed, Closed, Pending, Count, ReleaseInv;
    StartRelease(g, u, done, indegree0, queue0);
    FlowStillCounted(g, u, done, i);
  }

  lemma FlowTarget(g: ProcessGraph, u: Id, v: Id)
    requires WellFormed(g) && u in g.successors && v in g.successors[u]
    ensures v in g.predecessors && u in g.predecessors[v]
  {
    SourcesInNodes(g, g.edges, u);
    CountPositive(g.successors[u], v);
    BothEndsCountTheSame(g.edges, u, v);
    CountPositive(g.predecessors[v], u);
  }

  lemma {:induction false} NextLayerStable(preds: seq<Id>, layers: map<Id, nat>, layers': map<Id, nat>)
    requires forall p :: p in preds ==> p in layers && p in layers' && layers[p] == layers'[p]
    ensures NextLayer(preds, layers) == NextLayer(preds, layers')
  {
    if |preds| > 0 {
      NextLayerStable(preds[..|preds| - 1], layers, layers');
    }
  }

  /** The ids of the nodes in `keep`, in node order. */
  function IdsIn(nodes: seq<NodeDescriptor>, keep: set<Id>): seq<Id> {
    if |nodes| == 0 then []
    else if nodes[0].id in keep then [nodes[0].id] + IdsIn(nodes[1..], keep)
    else IdsIn(nodes[1..], keep)
  }

  lemma {:induction false} IdsInMembers(nodes: seq<NodeDescriptor>, keep: set<Id>)
    requires DistinctIds(nodes)
    ensures forall v :: v in IdsIn(nodes, keep) <==> v in keep && v in Ids(nodes)
    ensures Distinct(IdsIn(nodes, keep))
  {
    if |nodes| > 0 {
      IdsInMembers(nodes[1..], keep);
      IdsCons(nodes[0], nodes[1..]);
      assert nodes == [nodes[0]] + nodes[1..];
      assert nodes[0].id !in Ids(nodes[1..]);
    }
  }

  lemma InitialQueueInv(g: ProcessGraph, indegree: map<Id, nat>)
    requires WellFormed(g)
    requires indegree == map v | v in g.predecessors :: |g.predecessors[v]|
    ensures QueueInv(g, {}, indegree, IdsIn(g.nodes, set v | v in indegree && indegree[v] == 0))
  {
    IdsInMembers(g.nodes, set v | v in indegree && indegree[v] == 0);
    forall v | v in indegree ensures indegree[v] == Pending(g.predecessors[v], {}) {
      PendingNone(g.predecessors[v]);
    }
  }

  lemma SettledClosed(g: ProcessGraph, layers: map<Id, nat>)
    requires Settled(g, layers)
    ensures Closed(g, layers.Keys)
  {
  }

  lemma EmptyQueueStuck(g: ProcessGraph, layers: map<Id, nat>, indegree: map<Id, nat>)
    requires QueueInv(g, layers.Keys, indegree, [])
    ensures Stuck(g, layers)
  {
    forall v | v in g.predecessors && v !in layers
      ensures exists u :: u in g.predecessors[v] && u !in layers
    {
      PendingZero(g.predecessors[v], layers.Keys);
      assert v !in [];
    }
  }

  /** One turn of the queue loop: layer the first node in the queue and release its flows. */
  method LayerFirst(g: ProcessGraph, index: map<Id, nat>, layers0: map<Id, nat>,
                    indegree0: map<Id, nat>, queue0: seq<Id>)
    returns (u: Id, layers: map<Id, nat>, indegree: map<Id, nat>, queue: seq<Id>)
    requires WellFormed(g) && index.Keys == g.predecessors.Keys && |queue0| > 0
    requires Settled(g, layers0) && QueueInv(g, layers0.Keys, indegree0, queue0)
    ensures u in g.predecessors && u !in layers0 && layers.Keys == layers0.Keys + {u}
    ensures Settled(g, layers) && QueueInv(g, layers.Keys, indegree, queue)
  {
    hide WellFormed, QueueInv;
    u := queue0[0];
    var rest := queue0[1..];
    assert queue0 == [u] + rest;
    StartRelease(g, u, layers0.Keys, indegree0, rest);
    SettledClosed(g, layers0);
    layers := layers0[u := NextLayer(g.predecessors[u], layers0)];
    StillSettled(g, layers0, u, layers);
    assert layers.Keys == layers0.Keys + {u};
    indegree, queue := ReleaseSuccessors(g, u, layers0.Keys, indegree0, rest);
    queue := Sorted(g, index, layers.Keys, indegree, queue);
  }

  /** The queue loop. `popped` lists the nodes in the order they leave the queue. */
  method KahnPass(g: ProcessGraph) returns (layers: map<Id, nat>, ghost popped: seq<Id>)
    requires WellFormed(g)
    ensures Settled(g, layers) && Stuck(g, layers)
    ensures Distinct(popped) && Elements(popped) == layers.Keys
  {
    var index := SourceIndices(g);
    var indegree: map<Id, nat> := map v | v in g.predecessors :: |g.predecessors[v]|;
    var queue := IdsIn(g.nodes, set v | v in indegree && indegree[v] == 0);
    InitialQueueInv(g, indegree);
    layers, popped := map[], [];
    assert layers.Keys == {};
    queue := Sorted(g, index, layers.Keys, indegree, queue);
    while |queue| > 0
      invariant QueueInv(g, layers.Keys, indegree, queue) && Settled(g, layers)
      invariant Distinct(popped) && Elements(popped) == layers.Keys
      decreases g.predecessors.Keys - layers.Keys
    {
      var u;
      u, layers, indegree, queue := LayerFirst(g, index, layers, indegree, queue);
      assert u !in Elements(popped);
      DistinctAppend(popped, u);
      popped := popped + [u];
    }
    EmptyQueueStuck(g, layers, indegree);
  }

  lemma StillSettled(g: ProcessGraph, before: map<Id, nat>, u: Id, after: map<Id, nat>)
    requires Settled(g, before) && u in g.predecessors && u !in before
    requires forall p :: p in g.predecessors[u] ==> p in before
    requires after == before[u := NextLayer(g.predecessors[u], before)]
    ensures Settled(g, after)
  {
    forall v | v in after
      ensures (forall p :: p in g.predecessors[v] ==> p in after) && after[v] == NextLayer(g.predecessors[v], after)
    {
      NextLayerStable(g.predecessors[v], before, after);
    }
  }

  method Sorted(g: ProcessGraph, index: map<Id, nat>, ghost done: set<Id>,
                indegree: map<Id, nat>, queue0: seq<Id>) returns (queue: seq<Id>)
    requires index.Keys == g.predecessors.Keys
    requires QueueInv(g, done, indegree, queue0)
    ensures QueueInv(g, done, indegree, queue)
  {
    queue := InSourceOrder(index, queue0);
    SameMultisetFacts(queue0, queue);
  }

  // ---- Paths and cycles -----------------------------------------------------------

  ghost predicate HasFlow(g: ProcessGraph, u: Id, v: Id) {
    v in g.predecessors && u in g.predecessors[v]
  }

  /** A non-empty walk along sequence flows. */
  ghost predicate IsPath(g: ProcessGraph, p: seq<Id>) {
    && |p| > 0
    && p[|p| - 1] in g.predecessors
    && (|p| > 1 ==> HasFlow(g, p[|p| - 2], p[|p| - 1]) && IsPath(g, p[..|p| - 1]))
  }

  lemma {:induction false} PathPrefix(g: ProcessGraph, p: seq<Id>, k: nat)
    requires IsPath(g, p) && 0 < k <= |p|
    ensures IsPath(g, p[..k])
  {
    if k < |p| {
      PathPrefix(g, p[..|p| - 1], k);
      assert p[..|p| - 1][..k] == p[..k];
    } else {
      assert p[..k] == p;
    }
  }

  lemma {:induction false} PathSuffix(g: ProcessGraph, p: seq<Id>, k: nat)
    requires IsPath(g, p) && k < |p|
    ensures IsPath(g, p[k..])
  {
    if k < |p| - 1 {
      PathSuffix(g, p[..|p| - 1], k);
      assert p[k..][..|p[k..]| - 1] == p[..|p| - 1][k..];
    }
  }

  lemma PathExtend(g: ProcessGraph, p: seq<Id>, v: Id)
    requires IsPath(g, p) && HasFlow(g, p[|p| - 1], v)
    ensures PathTo(g, p + [v], v)
  {
    assert (p + [v])[..|p|] == p;
  }

  ghost predicate PathTo(g: ProcessGraph, p: seq<Id>, v: Id) {
    IsPath(g, p) && p[|p| - 1] == v
  }

  /** A closed walk with at least one flow; a self-loop is one. */
  ghost predicate IsCycle(g: ProcessGraph, p: seq<Id>) {
    IsPath(g, p) && |p| > 1 && p[0] == p[|p| - 1]
  }

  ghost predicate Acyclic(g: ProcessGraph) {
    forall p :: !IsCycle(g, p)
  }

  ghost predicate ReachableFromCycle(g: ProcessGraph, v: Id) {
    exists c, p :: IsCycle(g, c) && PathTo(g, p, v) && p[0] == c[0]
  }

  /** `n` flows is the length of the longest walk ending at `v`. */
  ghost predicate LongestPathTo(g: ProcessGraph, v: Id, n: nat) {
    && (exists p :: PathTo(g, p, v) && |p| == n + 1)
    && (forall p :: PathTo(g, p, v) ==> |p| <= n + 1)
  }

  lemma SettledFlow(g: ProcessGraph, layers: map<Id, nat>, u: Id, v: Id)
    requires Settled(g, layers) && v in layers && HasFlow(g, u, v)
    ensures u in layers && layers[u] < layers[v]
  {
    NextLayerAbove(g.predecessors[v], layers, u);
  }

  /** Walking back from a settled node stays among settled nodes, one layer lower at least each time. */
  lemma {:induction false} LayersFallAlongPath(g: ProcessGraph, layers: map<Id, nat>, p: seq<Id>)
    requires Settled(g, layers) && IsPath(g, p) && p[|p| - 1] in layers
    ensures p[0] in layers && layers[p[0]] + |p| - 1 <= layers[p[|p| - 1]]
  {
    if |p| > 1 {
      SettledFlow(g, layers, p[|p| - 2], p[|p| - 1]);
      LayersFallAlongPath(g, layers, p[..|p| - 1]);
    }
  }

  lemma {:induction false} PathOfLayerLength(g: ProcessGraph, layers: map<Id, nat>, v: Id) returns (p: seq<Id>)
    requires Settled(g, layers) && v in layers
    ensures PathTo(g, p, v) && |p| == layers[v] + 1
    decreases layers[v]
  {
    if layers[v] == 0 {
      p := [v];
    } else {
      var u := NextLayerReached(g.predecessors[v], layers);
      p := PathOfLayerLength(g, layers, u);
      PathExtend(g, p, v);
      p := p + [v];
    }
  }

  lemma SettledIsLongestPath(g: ProcessGraph, layers: map<Id, nat>, v: Id)
    requires Settled(g, layers) && v in layers
    ensures LongestPathTo(g, v, layers[v])
  {
    var p := PathOfLayerLength(g, layers, v);
    forall q | PathTo(g, q, v) ensures |q| <= layers[v] + 1 {
      LayersFallAlongPath(g, layers, q);
    }
  }

  lemma SourceIsNode(g: ProcessGraph, u: Id, v: Id)
    requires WellFormed(g) && HasFlow(g, u, v)
    ensures u in g.predecessors
  {
    SourcesInNodes(g, g.edges, v);
  }

  /** `n` flows can be walked back from a stuck node without meeting a layered one. */
  lemma {:induction false} WalkBack(g: ProcessGraph, layers: map<Id, nat>, v: Id, n: nat) returns (p: seq<Id>)
    requires WellFormed(g) && Stuck(g, layers) && v in g.predecessors && v !in layers
    ensures PathTo(g, p, v) && |p| == n + 1
    ensures forall x :: x in p ==> x in g.predecessors.Keys - layers.Keys
    decreases n
  {
    if n == 0 {
      p := [v];
    } else {
      var u :| u in g.predecessors[v] && u !in layers;
      SourceIsNode(g, u, v);
      hide WellFormed, Stuck;
      p := WalkBack(g, layers, u, n - 1);
      PathExtend(g, p, v);
      p := p + [v];
    }
  }

  lemma RepeatMeansCycle(g: ProcessGraph, p: seq<Id>, i: nat, j: nat)
    requires IsPath(g, p) && i < j < |p| && p[i] == p[j]
    ensures ReachableFromCycle(g, p[|p| - 1])
  {
    PathSuffix(g, p, i);
    var q := p[i..];
    PathPrefix(g, q, j + 1 - i);
    var c := q[..j + 1 - i];
    assert c[0] == p[i] && c[|c| - 1] == p[j];
    assert IsCycle(g, c) && PathTo(g, q, p[|p| - 1]) && q[0] == c[0];
  }

  lemma StuckMeansCycle(g: ProcessGraph, layers: map<Id, nat>, v: Id)
    requires WellFormed(g) && Stuck(g, layers) && v in g.predecessors && v !in layers
    ensures ReachableFromCycle(g, v)
  {
    var left := g.predecessors.Keys - layers.Keys;
    var p := WalkBack(g, layers, v, |left|);
    var i, j := Pigeonhole(p, left);
    RepeatMeansCycle(g, p, i, j);
  }

  lemma SettledMeansNoCycle(g: ProcessGraph, layers: map<Id, nat>, v: Id)
    requires Settled(g, layers) && v in layers
    ensures !ReachableFromCycle(g, v)
  {
    if c, p :| IsCycle(g, c) && PathTo(g, p, v) && p[0] == c[0] {
      LayersFallAlongPath(g, layers, p);
      LayersFallAlongPath(g, layers, c);
      assert false;
    }
  }

  /** What the queue leaves over is exactly what a cycle can reach. */
  lemma LeftOverIffReachableFromCycle(g: ProcessGraph, layers: map<Id, nat>)
    requires WellFormed(g) && Settled(g, layers) && Stuck(g, layers)
    ensures forall v :: v in g.predecessors ==> (v !in layers <==> ReachableFromCycle(g, v))
  {
    forall v | v in g.predecessors ensures v !in layers <==> ReachableFromCycle(g, v) {
      if v in layers {
        SettledMeansNoCycle(g, layers, v);
      } else {
        StuckMeansCycle(g, layers, v);
      }
    }
  }

  // ---- Fallback pass --------------------------------------------------------------

  /** Below every used layer there is another, down to 0. */
  ghost predicate NoGaps(layers: map<Id, nat>) {
    forall v :: v in layers && layers[v] > 0 ==> exists u :: u in layers && layers[u] == layers[v] - 1
  }

  ghost predicate Extends(layers: map<Id, nat>, before: map<Id, nat>) {
    before.Keys <= layers.Keys && forall v :: v in before ==> layers[v] == before[v]
  }

  lemma NoGapsAdd(preds: seq<Id>, before: map<Id, nat>, v: Id, after: map<Id, nat>)
    requires NoGaps(before) && v !in before
    requires after == before[v := NextLayer(preds, before)]
    ensures NoGaps(after)
  {
    forall x | x in after && after[x] > 0 ensures exists u :: u in after && after[u] == after[x] - 1 {
      if x == v {
        var u := NextLayerReached(preds, before);
        assert u in after && after[u] == after[v] - 1;
      } else {
        var u :| u in before && before[u] == before[x] - 1;
        assert u in after && after[u] == after[x] - 1;
      }
    }
  }

  lemma SettledNoGaps(g: ProcessGraph, layers: map<Id, nat>)
    requires Settled(g, layers)
    ensures NoGaps(layers)
  {
    forall v | v in layers && layers[v] > 0 ensures exists u :: u in layers && layers[u] == layers[v] - 1 {
      var u := NextLayerReached(g.predecessors[v], layers);
    }
  }

  /** `remaining` lists the nodes without a layer, each once, in source order. */
  ghost predicate IsRemaining(index: map<Id, nat>, layers: map<Id, nat>, remaining: seq<Id>) {
    && (forall v :: v in remaining <==> v in index && v !in layers)
    && Distinct(remaining)
    && Ordered(index, remaining)
  }

  function Remaining(g: ProcessGraph, layers: map<Id, nat>): seq<Id>
    requires WellFormed(g)
  {
    IdsInMembers(g.nodes, g.predecessors.Keys - layers.Keys);
    InSourceOrder(SourceIndices(g), IdsIn(g.nodes, g.predecessors.Keys - layers.Keys))
  }

  lemma RemainingIsRemaining(g: ProcessGraph, layers: map<Id, nat>)
    requires WellFormed(g)
    ensures IsRemaining(SourceIndices(g), layers, Remaining(g, layers))
  {
    hide TextLeq;
    var unordered := IdsIn(g.nodes, g.predecessors.Keys - layers.Keys);
    IdsInMembers(g.nodes, g.predecessors.Keys - layers.Keys);
    SameMultisetFacts(unordered, Remaining(g, layers));
    SortOrders(SourceIndices(g), unordered);
  }

  /** The part of `layers` the fallback pass can see when it reaches `v`. */
  ghost function SeenBefore(index: map<Id, nat>, settled: set<Id>, layers: map<Id, nat>, v: Id): map<Id, nat> {
    map u | u in layers && (u in settled || (u in index && v in index && u != v && Before(index, u, v))) :: layers[u]
  }

  function Preds(preds: map<Id, seq<Id>>, v: Id): seq<Id> {
    if v in preds then preds[v] else []
  }

  /** The layer map after the nodes in `s` have been layered in turn. */
  ghost function Fold(preds: map<Id, seq<Id>>, layers0: map<Id, nat>, s: seq<Id>): map<Id, nat> {
    if s == [] then layers0 else
      var before := Fold(preds, layers0, s[..|s| - 1]);
      before[s[|s| - 1] := NextLayer(Preds(preds, s[|s| - 1]), before)]
  }

  lemma {:induction false} FoldKeys(preds: map<Id, seq<Id>>, layers0: map<Id, nat>, s: seq<Id>)
    ensures forall u :: u in Fold(preds, layers0, s) <==> u in layers0 || u in s
  {
    if s != [] {
      FoldKeys(preds, layers0, s[..|s| - 1]);
      assert s == s[..|s| - 1] + [s[|s| - 1]];
    }
  }

  lemma {:induction false} FoldOnlyAdds(preds: map<Id, seq<Id>>, layers0: map<Id, nat>, s: seq<Id>, t: seq<Id>)
    requires Distinct(s + t) && forall v :: v in s + t ==> v !in layers0
    ensures Extends(Fold(preds, layers0, s + t), Fold(preds, layers0, s))
  {
    if t == [] {
      assert s + t == s;
    } else {
      var u := s + t;
      assert u[..|u| - 1] == s + t[..|t| - 1];
      FoldOnlyAdds(preds, layers0, s, t[..|t| - 1]);
      FoldKeys(preds, layers0, u[..|u| - 1]);
      assert u[|u| - 1] !in u[..|u| - 1];
    }
  }

  lemma SeenIsPrefix(index: map<Id, nat>, s: seq<Id>, i: nat, u: Id)
    requires (forall y :: y in s ==> y in index) && Ordered(index, s) && i < |s| && Distinct(s) && u in s
    ensures u in s[..i] <==> u != s[i] && Before(index, u, s[i])
  {
    hide TextLeq;
    var k :| 0 <= k < |s| && s[k] == u;
    if k < i {
      assert s[..i][k] == u;
    } else if k > i {
      assert Before(index, s[i], s[k]);
      BeforeIsTotalOrder(index, s[k], s[i], s[i]);
      assert u !in s[..i];
    }
  }

  lemma SeenAt(preds: map<Id, seq<Id>>, index: map<Id, nat>, layers0: map<Id, nat>, s: seq<Id>, i: nat, u: Id)
    requires layers0.Keys <= index.Keys && i < |s| && IsRemaining(index, layers0, s)
    requires Extends(Fold(preds, layers0, s), Fold(preds, layers0, s[..i]))
    ensures var seen, part := SeenBefore(index, layers0.Keys, Fold(preds, layers0, s), s[i]),
            Fold(preds, layers0, s[..i]);
            (u in seen <==> u in part) && (u in part ==> seen[u] == part[u])
  {
    hide TextLeq;
    FoldKeys(preds, layers0, s);
    FoldKeys(preds, layers0, s[..i]);
    if u in s {
      SeenIsPrefix(index, s, i, u);
    }
  }

  lemma SeenIsFold(preds: map<Id, seq<Id>>, index: map<Id, nat>, layers0: map<Id, nat>, s: seq<Id>, i: nat)
    requires layers0.Keys <= index.Keys && i < |s| && IsRemaining(index, layers0, s)
    ensures SeenBefore(index, layers0.Keys, Fold(preds, layers0, s), s[i]) == Fold(preds, layers0, s[..i])
  {
    var seen, part := SeenBefore(index, layers0.Keys, Fold(preds, layers0, s), s[i]), Fold(preds, layers0, s[..i]);
    FoldGrows(preds, index, layers0, s, i);
    hide *;
    forall u ensures (u in seen <==> u in part) && (u in part ==> seen[u] == part[u]) {
      SeenAt(preds, index, layers0, s, i, u);
    }
    assert seen.Keys == part.Keys;
  }

  lemma FoldGrows(preds: map<Id, seq<Id>>, index: map<Id, nat>, layers0: map<Id, nat>, s: seq<Id>, i: nat)
    requires i <= |s| && IsRemaining(index, layers0, s)
    ensures Extends(Fold(preds, layers0, s), Fold(preds, layers0, s[..i]))
  {
    hide TextLeq, Fold;
    assert s == s[..i] + s[i..];
    FoldOnlyAdds(preds, layers0, s[..i], s[i..]);
  }

  lemma FoldLayer(preds: map<Id, seq<Id>>, index: map<Id, nat>, layers0: map<Id, nat>, s: seq<Id>, i: nat)
    requires layers0.Keys <= index.Keys && IsRemaining(index, layers0, s) && i < |s|
    ensures s[i] in Fold(preds, layers0, s)
    ensures Fold(preds, layers0, s)[s[i]]
         == NextLayer(Preds(preds, s[i]), SeenBefore(index, layers0.Keys, Fold(preds, layers0, s), s[i]))
  {
    hide IsRemaining, NextLayer, SeenBefore, Fold, Preds;
    SeenIsFold(preds, index, layers0, s, i);
    FoldGrows(preds, index, layers0, s, i + 1);
    FoldLast(preds, layers0, s, i);
  }

  /** Each leftover node is layered from what was layered before it; nothing else changes. */
  ghost predicate FallbackLayers(
      preds: map<Id, seq<Id>>, index: map<Id, nat>, layers0: map<Id, nat>, layers: map<Id, nat>) {
    && layers.Keys == index.Keys
    && Extends(layers, layers0)
    && forall v :: v in layers && v !in layers0 ==>
         layers[v] == NextLayer(Preds(preds, v), SeenBefore(index, layers0.Keys, layers, v))
  }

  lemma FoldIsFallback(preds: map<Id, seq<Id>>, index: map<Id, nat>, layers0: map<Id, nat>, s: seq<Id>)
    requires layers0.Keys <= index.Keys && IsRemaining(index, layers0, s)
    ensures FallbackLayers(preds, index, layers0, Fold(preds, layers0, s))
  {
    hide TextLeq, Fold, SeenBefore, NextLayer;
    var layers := Fold(preds, layers0, s);
    FoldKeys(preds, layers0, s);
    assert layers.Keys == index.Keys;
    assert Extends(layers, layers0) by {
      assert [] + s == s;
      FoldOnlyAdds(preds, layers0, [], s);
      FoldEmpty(preds, layers0);
    }
    forall v | v in layers && v !in layers0
      ensures layers[v] == NextLayer(Preds(preds, v), SeenBefore(index, layers0.Keys, layers, v))
    {
      var i :| 0 <= i < |s| && s[i] == v;
      FoldLayer(preds, index, layers0, s, i);
    }
  }

  lemma FoldEmpty(preds: map<Id, seq<Id>>, layers0: map<Id, nat>)
    ensures Fold(preds, layers0, []) == layers0
  {
  }

  lemma FoldLast(preds: map<Id, seq<Id>>, layers0: map<Id, nat>, s: seq<Id>, i: nat)
    requires i < |s|
    ensures var part := Fold(preds, layers0, s[..i]);
            Fold(preds, layers0, s[..i + 1]) == part[s[i] := NextLayer(Preds(preds, s[i]), part)]
  {
    hide NextLayer, Preds;
    assert s[..i + 1][..i] == s[..i];
  }

  lemma NotYetFolded(preds: map<Id, seq<Id>>, index: map<Id, nat>, layers0: map<Id, nat>, s: seq<Id>, i: nat)
    requires IsRemaining(index, layers0, s) && i < |s|
    ensures s[i] !in Fold(preds, layers0, s[..i])
  {
    hide Fold, Ordered;
    FoldKeys(preds, layers0, s[..i]);
    assert s[i] in s;
    assert s[i] !in s[..i];
  }

  lemma FoldStep(preds: map<Id, seq<Id>>, index: map<Id, nat>, layers0: map<Id, nat>, s: seq<Id>, i: nat)
    requires IsRemaining(index, layers0, s) && i < |s|
    ensures var part := Fold(preds, layers0, s[..i]);
            && Fold(preds, layers0, s[..i + 1]) == part[s[i] := NextLayer(Preds(preds, s[i]), part)]
            && (NoGaps(part) ==> NoGaps(Fold(preds, layers0, s[..i + 1])))
  {
    hide NextLayer, Fold, IsRemaining, Preds, NoGaps;
    NotYetFolded(preds, index, layers0, s, i);
    FoldLast(preds, layers0, s, i);
    if NoGaps(Fold(preds, layers0, s[..i])) {
      NoGapsAdd(Preds(preds, s[i]), Fold(preds, layers0, s[..i]), s[i], Fold(preds, layers0, s[..i + 1]));
    }
  }

  lemma StartFallback(g: ProcessGraph, layers0: map<Id, nat>)
    requires WellFormed(g) && layers0.Keys <= g.predecessors.Keys
    ensures IsRemaining(SourceIndices(g), layers0, Remaining(g, layers0)) && layers0.Keys <= SourceIndices(g).Keys
    ensures Fold(g.predecessors, layers0, Remaining(g, layers0)[..0]) == layers0
  {
    hide IsRemaining, Remaining;
    RemainingIsRemaining(g, layers0);
    FoldEmpty(g.predecessors, layers0);
    assert Remaining(g, layers0)[..0] == [];
  }

  /** Gives every leftover node a layer, in source order. */
  method FallbackPass(g: ProcessGraph, layers0: map<Id, nat>) returns (layers: map<Id, nat>)
    requires WellFormed(g) && layers0.Keys <= g.predecessors.Keys && NoGaps(layers0)
    ensures FallbackLayers(g.predecessors, SourceIndices(g), layers0, layers) && NoGaps(layers)
  {
    hide *;
    var s := Remaining(g, layers0);
    StartFallback(g, layers0);
    layers := layers0;
    for i := 0 to |s|
      invariant layers == Fold(g.predecessors, layers0, s[..i]) && NoGaps(layers)
    {
      FoldStep(g.predecessors, SourceIndices(g), layers0, s, i);
      layers := layers[s[i] := NextLayer(Preds(g.predecessors, s[i]), layers)];
    }
    assert s[..|s|] == s;
    FoldIsFallback(g.predecessors, SourceIndices(g), layers0, s);
  }

  // ---- The whole computation ------------------------------------------------------

  ghost function OffCycle(g: ProcessGraph): set<Id> {
    set v | v in g.predecessors && !ReachableFromCycle(g, v)
  }

  /**
   * What the layer map is, without mention of queues: off the cycles the length of the longest
   * incoming path, elsewhere one above the highest predecessor that is off the cycles or earlier
   * in the document.
   */
  ghost predicate IsLayering(g: ProcessGraph, layers: map<Id, nat>)
    requires WellFormed(g)
  {
    && layers.Keys == g.predecessors.Keys
    && forall v :: v in layers ==>
         if v in OffCycle(g) then LongestPathTo(g, v, layers[v])
         else layers[v] == NextLayer(Preds(g.predecessors, v), SeenBefore(SourceIndices(g), OffCycle(g), layers, v))
  }

  method ComputeLayers(g: ProcessGraph) returns (layers: map<Id, nat>)
    requires WellFormed(g)
    ensures IsLayering(g, layers) && NoGaps(layers)
  {
    var settled, _ := KahnPass(g);
    SettledNoGaps(g, settled);
    LeftOverIffReachableFromCycle(g, settled);
    assert settled.Keys == OffCycle(g);
    layers := FallbackPass(g, settled);
    forall v | v in OffCycle(g) ensures LongestPathTo(g, v, layers[v]) {
      SettledIsLongestPath(g, settled, v);
    }
  }

  lemma {:induction false} LayersBelowAreUsed(layers: map<Id, nat>, v: Id, k: nat)
    requires NoGaps(layers) && v in layers && k <= layers[v]
    ensures Used(layers, k)
    decreases layers[v]
  {
    if k < layers[v] {
      var u :| u in layers && layers[u] == layers[v] - 1;
      LayersBelowAreUsed(layers, u, k);
    }
  }

  ghost predicate Used(layers: map<Id, nat>, k: nat) {
    exists v :: v in layers && layers[v] == k
  }

  /** The layers used are 0..m without a gap, and m is below the number of nodes. */
  lemma LayersAreDense(layers: map<Id, nat>, m: nat)
    requires NoGaps(layers) && Used(layers, m)
    ensures forall k :: 0 <= k <= m ==> Used(layers, k)
    ensures m < |layers.Keys|
  {
    var v :| v in layers && layers[v] == m;
    forall k | 0 <= k <= m ensures Used(layers, k) {
      LayersBelowAreUsed(layers, v, k);
    }
    var witnesses := OnePerLayer(layers, v, m + 1);
    DistinctLength(witnesses, layers.Keys);
  }

  lemma {:induction false} OnePerLayer(layers: map<Id, nat>, v: Id, n: nat) returns (w: seq<Id>)
    requires NoGaps(layers) && v in layers && n <= layers[v] + 1
    ensures |w| == n && Distinct(w)
    ensures forall i :: 0 <= i < |w| ==> w[i] in layers && layers[w[i]] == i
  {
    w := [];
    if n > 0 {
      w := OnePerLayer(layers, v, n - 1);
      LayersBelowAreUsed(layers, v, n - 1);
      var u :| u in layers && layers[u] == n - 1;
      assert u !in w;
      DistinctAppend(w, u);
      w := w + [u];
    }
  }

  /** Every sequence flow goes to a strictly higher layer. */
  ghost predicate FlowsRise(g: ProcessGraph, layers: map<Id, nat>) {
    forall u, v :: HasFlow(g, u, v) ==> u in layers && v in layers && layers[u] < layers[v]
  }

  /** Every flow goes strictly upwards exactly when there is no cycle. */
  lemma FlowsRiseIffAcyclic(g: ProcessGraph, layers: map<Id, nat>)
    requires WellFormed(g) && IsLayering(g, layers)
    ensures Acyclic(g) <==> FlowsRise(g, layers)
  {
    hide WellFormed, LongestPathTo, NextLayer, SeenBefore;
    if Acyclic(g) {
      forall u, v | HasFlow(g, u, v) ensures u in layers && layers[u] < layers[v] {
        SourceIsNode(g, u, v);
        assert u in OffCycle(g) && v in OffCycle(g);
        LongerPathAfterFlow(g, u, v, layers[u], layers[v]);
      }
    } else if FlowsRise(g, layers) {
      var c :| IsCycle(g, c);
      RisesAlongPath(g, layers, c);
      assert false;
    }
  }

  lemma LongerPathAfterFlow(g: ProcessGraph, u: Id, v: Id, m: nat, n: nat)
    requires HasFlow(g, u, v) && LongestPathTo(g, u, m) && LongestPathTo(g, v, n)
    ensures m < n
  {
    var p :| PathTo(g, p, u) && |p| == m + 1;
    PathExtend(g, p, v);
  }

  lemma {:induction false} RisesAlongPath(g: ProcessGraph, layers: map<Id, nat>, p: seq<Id>)
    requires IsPath(g, p) && layers.Keys == g.predecessors.Keys && FlowsRise(g, layers)
    ensures p[0] in layers && layers[p[0]] + |p| - 1 <= layers[p[|p| - 1]]
  {
    if |p| > 1 {
      RisesAlongPath(g, layers, p[..|p| - 1]);
    }
  }

  // ---- The layering in terms of the elements ----------------------------------------

  /** The graph has a flow exactly where the document has one. */
  lemma HasFlowIff(g: ProcessGraph, elements: seq<FlowElement>, u: Id, v: Id)
    requires IsGraphOf(g, elements) && v in g.predecessors
    ensures HasFlow(g, u, v) <==> exists i: nat :: FlowAt(elements, i, u, v)
  {
    hide FlowAt, Count;
    CountPositive(g.predecessors[v], u);
    assert Count(g.predecessors[v], u) == |FlowIds(elements, u, v)|;
    if i: nat :| FlowAt(elements, i, u, v) {
      FlowAtInRange(elements, i, u, v);
      assert elements[i].id in FlowIds(elements, u, v);
    } else {
      assert FlowIds(elements, u, v) == {};
    }
    if |FlowIds(elements, u, v)| > 0 {
      var x :| x in FlowIds(elements, u, v);
    }
  }

  /** Every sequence flow of the document leads from a lower to a higher layer. */
  ghost predicate ElementsRise(elements: seq<FlowElement>, layers: map<Id, nat>) {
    forall i: nat, u, v :: FlowAt(elements, i, u, v) ==> u in layers && v in layers && layers[u] < layers[v]
  }

  lemma FlowsRiseIffElementsRise(g: ProcessGraph, elements: seq<FlowElement>, layers: map<Id, nat>)
    requires IsGraphOf(g, elements)
    ensures FlowsRise(g, layers) <==> ElementsRise(elements, layers)
  {
    assert EndsAreNodes(g, elements);
    hide FlowAt, IsGraphOf, HasFlow;
    if FlowsRise(g, layers) {
      forall i: nat, u, v | FlowAt(elements, i, u, v) ensures u in layers && v in layers && layers[u] < layers[v] {
        HasFlowIff(g, elements, u, v);
      }
    }
    if ElementsRise(elements, layers) {
      forall u, v | HasFlow(g, u, v) ensures u in layers && v in layers && layers[u] < layers[v] {
        FlowHasTarget(g, u, v);
        HasFlowIff(g, elements, u, v);
      }
    }
  }

  /** Every sequence-flow element has its source in a lower layer than its target exactly when no flows form a cycle. */
  lemma ElementsRiseIffAcyclic(g: ProcessGraph, elements: seq<FlowElement>, layers: map<Id, nat>)
    requires WellFormed(g) && IsGraphOf(g, elements) && IsLayering(g, layers)
    ensures Acyclic(g) <==> ElementsRise(elements, layers)
  {
    hide *;
    FlowsRiseIffAcyclic(g, layers);
    FlowsRiseIffElementsRise(g, elements, layers);
  }

  lemma FlowHasTarget(g: ProcessGraph, u: Id, v: Id)
    requires HasFlow(g, u, v)
    ensures v in g.predecessors
  {
  }

  /** The source indices are those of the nodes. */
  lemma {:induction false} IndicesOfAre(nodes: seq<NodeDescriptor>, n: NodeDescriptor)
    requires DistinctIds(nodes) && n in nodes
    ensures n.id in IndicesOf(nodes) && IndicesOf(nodes)[n.id] == n.sourceIndex
  {
    var rest, last := nodes[..|nodes| - 1], nodes[|nodes| - 1];
    assert nodes == rest + [last];
    if n != last {
      assert DistinctIds(rest);
      IndicesOfAre(rest, n);
      var i :| 0 <= i < |rest| && rest[i] == n;
      assert nodes[i] == n;
    }
  }

  /** A node that comes earlier in the document goes first, and of two at the same place the one with the smaller id. */
  lemma EarlierGoesFirst(g: ProcessGraph, a: NodeDescriptor, b: NodeDescriptor)
    requires WellFormed(g) && a in g.nodes && b in g.nodes
    ensures a.id in SourceIndices(g) && b.id in SourceIndices(g)
    ensures a.sourceIndex < b.sourceIndex ==>
              Before(SourceIndices(g), a.id, b.id) && !Before(SourceIndices(g), b.id, a.id)
    ensures a.sourceIndex == b.sourceIndex ==> (Before(SourceIndices(g), a.id, b.id) <==> TextLeq(a.id.text, b.id.text))
  {
    hide TextLeq;
    IndicesOfAre(g.nodes, a);
    IndicesOfAre(g.nodes, b);
  }
}
