/**
 * Post-processing, first pass: every sequence flow of a scope is entered at its source and its
 * target, every boundary event at its activity, and each subprocess is a scope of its own.
 */
module FlowWiring {
  import opened Common
  import opened FlowModel

  // ---- Which element a reference means --------------------------------------------

  predicate Takes(e: Element, id: Id, boundary: bool) {
    e.Name() == Some(id) && if boundary then e.IsActivity() else e.HasFlowLists()
  }

  /** The last element of the scope that bears `id` and can take the entry, or -1. */
  function Resolve(elements: seq<Element>, id: Id, boundary: bool): (k: int)
    ensures -1 <= k < |elements|
    ensures k >= 0 ==> Takes(elements[k], id, boundary)
    ensures forall i :: k < i < |elements| ==> !Takes(elements[i], id, boundary)
  {
    if |elements| == 0 then -1
    else if Takes(elements[|elements| - 1], id, boundary) then |elements| - 1
    else Resolve(elements[..|elements| - 1], id, boundary)
  }

  predicate Means(elements: seq<Element>, ref: Option<Id>, boundary: bool, i: nat) {
    ref.Some? && Resolve(elements, ref.value, boundary) == i
  }

  function FlowsOf(elements: seq<Element>): seq<SequenceFlow> {
    if |elements| == 0 then [] else
      var rest := FlowsOf(elements[..|elements| - 1]);
      var e := elements[|elements| - 1];
      if e.Flow? then rest + [e.flow] else rest
  }

  /** The flows that leave element `i`, in document order. */
  function Leaving(elements: seq<Element>, flows: seq<SequenceFlow>, i: nat): seq<SequenceFlow> {
    if |flows| == 0 then [] else
      var rest := Leaving(elements, flows[..|flows| - 1], i);
      var f := flows[|flows| - 1];
      if Means(elements, f.sourceRef, false, i) then rest + [f] else rest
  }

  /** The flows that enter element `i`, in document order. */
  function Entering(elements: seq<Element>, flows: seq<SequenceFlow>, i: nat): seq<SequenceFlow> {
    if |flows| == 0 then [] else
      var rest := Entering(elements, flows[..|flows| - 1], i);
      var f := flows[|flows| - 1];
      if Means(elements, f.targetRef, false, i) then rest + [f] else rest
  }

  /** The boundary events among `events` attached to element `i`, in document order. */
  function Attached(elements: seq<Element>, events: seq<Element>, i: nat): seq<Element> {
    if |events| == 0 then [] else
      var rest := Attached(elements, events[..|events| - 1], i);
      var b := events[|events| - 1];
      if b.Node? && Means(elements, b.attachedTo, true, i) then rest + [b] else rest
  }

  function BoundaryEventsOf(elements: seq<Element>): seq<Element> {
    if |elements| == 0 then [] else
      var rest := BoundaryEventsOf(elements[..|elements| - 1]);
      var e := elements[|elements| - 1];
      if e.IsBoundaryEvent() then rest + [e] else rest
  }

  // ---- The result, element by element ---------------------------------------------

  function Wired(elements: seq<Element>, flows: seq<SequenceFlow>, i: nat): Element
    requires i < |elements|
  {
    var e := elements[i];
    if e.Flow? then e
    else e.(outgoing := e.outgoing + Leaving(elements, flows, i), incoming := e.incoming + Entering(elements, flows, i))
  }

  function WiredScope(elements: seq<Element>): (w: seq<Element>)
    ensures |w| == |elements|
  {
    seq(|elements|, i requires 0 <= i < |elements| => Wired(elements, FlowsOf(elements), i))
  }

  function WithEvents(wired: seq<Element>, events: seq<Element>, i: nat): Element
    requires i < |wired|
  {
    var e := wired[i];
    if e.Flow? then e else e.(boundaryEvents := e.boundaryEvents + Attached(wired, events, i))
  }

  function AttachedScope(wired: seq<Element>): (a: seq<Element>)
    ensures |a| == |wired|
  {
    seq(|wired|, i requires 0 <= i < |wired| => WithEvents(wired, BoundaryEventsOf(wired), i))
  }

  /** The scope after the pass, subprocesses included. */
  function Processed(elements: seq<Element>): (p: seq<Element>)
    ensures |p| == |elements|
    decreases elements, 1
  {
    var here := AttachedScope(WiredScope(elements));
    var inner := ProcessedInside(elements);
    seq(|elements|, i requires 0 <= i < |elements| =>
      if elements[i].IsSubProcess() then here[i].(children := inner[i]) else here[i])
  }

  function ProcessedInside(elements: seq<Element>): (p: seq<seq<Element>>)
    ensures |p| == |elements|
    decreases elements, 0
  {
    if |elements| == 0 then []
    else [if elements[0].IsSubProcess() then Processed(elements[0].children) else []] + ProcessedInside(elements[1..])
  }

  // ---- References keep their meaning while entries are added ----------------------

  predicate SameFace(a: Element, b: Element) {
    a.Flow? == b.Flow? && a.Name() == b.Name() && (a.Node? ==> a.kind == b.kind)
  }

  ghost predicate SameFaces(a: seq<Element>, b: seq<Element>) {
    |a| == |b| && forall i :: 0 <= i < |a| ==> SameFace(a[i], b[i])
  }

  lemma {:induction false} ResolveIs(elements: seq<Element>, id: Id, boundary: bool, k: int)
    requires -1 <= k < |elements| && (k >= 0 ==> Takes(elements[k], id, boundary))
    requires forall i :: k < i < |elements| ==> !Takes(elements[i], id, boundary)
    ensures Resolve(elements, id, boundary) == k
  {
    if k < |elements| - 1 {
      ResolveIs(elements[..|elements| - 1], id, boundary, k);
    }
  }

  lemma ResolveSame(a: seq<Element>, b: seq<Element>, id: Id, boundary: bool)
    requires SameFaces(a, b)
    ensures Resolve(a, id, boundary) == Resolve(b, id, boundary)
  {
    assert forall i :: 0 <= i < |a| ==> (Takes(a[i], id, boundary) <==> Takes(b[i], id, boundary));
    ResolveIs(b, id, boundary, Resolve(a, id, boundary));
  }

  /** The element a reference means, or -1 for none. */
  function Target(elements: seq<Element>, ref: Option<Id>, boundary: bool): int {
    if ref.Some? then Resolve(elements, ref.value, boundary) else -1
  }

  function WithOutgoing(elements: seq<Element>, k: int, f: SequenceFlow): seq<Element> {
    if 0 <= k < |elements| && elements[k].Node?
    then elements[k := elements[k].(outgoing := elements[k].outgoing + [f])] else elements
  }

  function WithIncoming(elements: seq<Element>, k: int, f: SequenceFlow): seq<Element> {
    if 0 <= k < |elements| && elements[k].Node?
    then elements[k := elements[k].(incoming := elements[k].incoming + [f])] else elements
  }

  function WithBoundaryEvent(elements: seq<Element>, k: int, b: Element): seq<Element> {
    if 0 <= k < |elements| && elements[k].Node?
    then elements[k := elements[k].(boundaryEvents := elements[k].boundaryEvents + [b])] else elements
  }

  // ---- The pass as it runs --------------------------------------------------------

  /** Searches the scope backwards. */
  method FindTarget(elements: seq<Element>, ref: Option<Id>, boundary: bool) returns (k: int)
    ensures k == Target(elements, ref, boundary)
  {
    if ref.None? {
      return -1;
    }
    k := |elements| - 1;
    while k >= 0 && !Takes(elements[k], ref.value, boundary)
      invariant -1 <= k < |elements|
      invariant forall i :: k < i < |elements| ==> !Takes(elements[i], ref.value, boundary)
    {
      k := k - 1;
    }
    ResolveIs(elements, ref.value, boundary, k);
  }

  method CollectFlows(elements: seq<Element>) returns (flows: seq<SequenceFlow>)
    ensures flows == FlowsOf(elements)
  {
    flows := [];
    for i := 0 to |elements|
      invariant flows == FlowsOf(elements[..i])
    {
      assert elements[..i + 1][..i] == elements[..i];
      if elements[i].Flow? {
        flows := flows + [elements[i].flow];
      }
    }
    assert elements[..|elements|] == elements;
  }

  method CollectBoundaryEvents(elements: seq<Element>) returns (events: seq<Element>)
    ensures events == BoundaryEventsOf(elements)
  {
    events := [];
    for i := 0 to |elements|
      invariant events == BoundaryEventsOf(elements[..i])
    {
      assert elements[..i + 1][..i] == elements[..i];
      if elements[i].IsBoundaryEvent() {
        events := events + [elements[i]];
      }
    }
    assert elements[..|elements|] == elements;
  }

  /** The scope with the given flows entered so far. */
  ghost predicate WiredWith(before: seq<Element>, flows: seq<SequenceFlow>, now: seq<Element>) {
    |now| == |before| && forall i :: 0 <= i < |before| ==> now[i] == Wired(before, flows, i)
  }

  lemma WiredFaces(before: seq<Element>, flows: seq<SequenceFlow>, now: seq<Element>)
    requires WiredWith(before, flows, now)
    ensures SameFaces(before, now)
  {
    hide Leaving, Entering;
  }

  /** One more flow: first its source end, then its target end. */
  lemma WiredStep(before: seq<Element>, flows: seq<SequenceFlow>, f: SequenceFlow, now: seq<Element>)
    requires WiredWith(before, flows, now)
    ensures WiredWith(before, flows + [f],
                      WithIncoming(WithOutgoing(now, Target(before, f.sourceRef, false), f),
                          Target(before, f.targetRef, false), f))
  {
    WiredFaces(before, flows, now);
    var more := flows + [f];
    assert more[..|flows|] == flows;
    var k, l := Target(before, f.sourceRef, false), Target(before, f.targetRef, false);
    var next := WithIncoming(WithOutgoing(now, k, f), l, f);
    forall i | 0 <= i < |before| ensures next[i] == Wired(before, more, i) {
      hide Resolve;
      assert Leaving(before, more, i) == Leaving(before, flows, i) + if i == k then [f] else [];
      assert Entering(before, more, i) == Entering(before, flows, i) + if i == l then [f] else [];
    }
  }

  lemma FacesKept(before: seq<Element>, now: seq<Element>, k: int, f: SequenceFlow)
    requires SameFaces(before, now)
    ensures SameFaces(before, WithOutgoing(now, k, f)) && SameFaces(before, WithIncoming(now, k, f))
  {
  }

  lemma TargetSame(a: seq<Element>, b: seq<Element>, ref: Option<Id>, boundary: bool)
    requires SameFaces(a, b)
    ensures Target(a, ref, boundary) == Target(b, ref, boundary)
  {
    if ref.Some? {
      ResolveSame(a, b, ref.value, boundary);
    }
  }

  method WireFlows(elements: seq<Element>) returns (wired: seq<Element>)
    ensures wired == WiredScope(elements)
  {
    var flows := CollectFlows(elements);
    wired := elements;
    assert flows[..0] == [];
    assert WiredWith(elements, [], wired);
    hide WiredWith, SameFaces, WithOutgoing, WithIncoming, Target;
    for k := 0 to |flows|
      invariant WiredWith(elements, flows[..k], wired)
    {
      var f := flows[k];
      WiredStep(elements, flows[..k], f, wired);
      WiredFaces(elements, flows[..k], wired);
      TargetSame(elements, wired, f.sourceRef, false);
      var source := FindTarget(wired, f.sourceRef, false);
      FacesKept(elements, wired, source, f);
      wired := WithOutgoing(wired, source, f);
      TargetSame(elements, wired, f.targetRef, false);
      var target := FindTarget(wired, f.targetRef, false);
      wired := WithIncoming(wired, target, f);
      assert flows[..k + 1] == flows[..k] + [f];
    }
    assert flows[..|flows|] == flows;
    WiredScopeIs(elements, wired);
  }

  lemma WiredScopeIs(elements: seq<Element>, wired: seq<Element>)
    requires WiredWith(elements, FlowsOf(elements), wired)
    ensures wired == WiredScope(elements)
  {
  }

  /** The scope with the given boundary events attached so far. */
  ghost predicate AttachedWith(wired: seq<Element>, events: seq<Element>, now: seq<Element>) {
    |now| == |wired| && forall i :: 0 <= i < |wired| ==> now[i] == WithEvents(wired, events, i)
  }

  lemma AttachedFaces(wired: seq<Element>, events: seq<Element>, now: seq<Element>)
    requires AttachedWith(wired, events, now)
    ensures SameFaces(wired, now)
  {
    hide Attached;
  }

  lemma AttachedStep(wired: seq<Element>, events: seq<Element>, b: Element, now: seq<Element>)
    requires AttachedWith(wired, events, now) && b.Node?
    ensures AttachedWith(wired, events + [b], WithBoundaryEvent(now, Target(wired, b.attachedTo, true), b))
  {
    AttachedFaces(wired, events, now);
    var more := events + [b];
    assert more[..|events|] == events;
    var k := Target(wired, b.attachedTo, true);
    var next := WithBoundaryEvent(now, k, b);
    forall i | 0 <= i < |wired| ensures next[i] == WithEvents(wired, more, i) {
      hide Resolve;
      assert Attached(wired, more, i) == Attached(wired, events, i) + if i == k then [b] else [];
    }
  }

  lemma {:induction false} BoundaryEventsAre(elements: seq<Element>)
    ensures forall i :: 0 <= i < |BoundaryEventsOf(elements)| ==> BoundaryEventsOf(elements)[i].IsBoundaryEvent()
  {
    if |elements| > 0 {
      BoundaryEventsAre(elements[..|elements| - 1]);
    }
  }

  method AttachBoundaryEvents(wired: seq<Element>) returns (attached: seq<Element>)
    ensures attached == AttachedScope(wired)
  {
    var events := CollectBoundaryEvents(wired);
    BoundaryEventsAre(wired);
    attached := wired;
    assert events[..0] == [];
    assert AttachedWith(wired, [], attached);
    hide AttachedWith, SameFaces, WithBoundaryEvent, Target;
    for k := 0 to |events|
      invariant AttachedWith(wired, events[..k], attached)
    {
      var b := events[k];
      AttachedStep(wired, events[..k], b, attached);
      AttachedFaces(wired, events[..k], attached);
      TargetSame(wired, attached, b.attachedTo, true);
      var activity := FindTarget(attached, b.attachedTo, true);
      attached := WithBoundaryEvent(attached, activity, b);
      assert events[..k + 1] == events[..k] + [b];
    }
    assert events[..|events|] == events;
    AttachedScopeIs(wired, attached);
  }

  lemma AttachedScopeIs(wired: seq<Element>, attached: seq<Element>)
    requires AttachedWith(wired, BoundaryEventsOf(wired), attached)
    ensures attached == AttachedScope(wired)
  {
  }

  lemma {:induction false} InsideAt(elements: seq<Element>, i: nat)
    requires i < |elements|
    ensures ProcessedInside(elements)[i] == if elements[i].IsSubProcess() then Processed(elements[i].children) else []
    decreases elements
  {
    if i > 0 {
      InsideAt(elements[1..], i - 1);
    }
  }

  /** What the two steps leave of an element besides its lists. */
  lemma HereFacts(elements: seq<Element>, i: nat)
    requires i < |elements|
    ensures var here := AttachedScope(WiredScope(elements));
            && SameFace(elements[i], here[i])
            && (elements[i].Node? ==> here[i].children == elements[i].children)
  {
    hide Leaving, Entering, Attached;
  }

  method ProcessScope(elements: seq<Element>) returns (result: seq<Element>)
    ensures result == Processed(elements)
    decreases elements
  {
    var wired := WireFlows(elements);
    var here := AttachBoundaryEvents(wired);
    result := here;
    hide WiredScope, AttachedScope, Resolve;
    for i := 0 to |elements|
      invariant |result| == |elements|
      invariant forall j :: 0 <= j < i ==> result[j] == Processed(elements)[j]
      invariant forall j :: i <= j < |elements| ==> result[j] == here[j]
    {
      HereFacts(elements, i);
      InsideAt(elements, i);
      if here[i].IsSubProcess() {
        var inner := ProcessScope(elements[i].children);
        result := result[i := result[i].(children := inner)];
      }
    }
  }

  // ---- What every node ends up with -----------------------------------------------

  /** The flows naming `id` as their source, in document order. */
  function FlowsFrom(flows: seq<SequenceFlow>, id: Id): seq<SequenceFlow> {
    if |flows| == 0 then [] else
      var rest := FlowsFrom(flows[..|flows| - 1], id);
      if flows[|flows| - 1].sourceRef == Some(id) then rest + [flows[|flows| - 1]] else rest
  }

  /** The flows naming `id` as their target, in document order. */
  function FlowsTo(flows: seq<SequenceFlow>, id: Id): seq<SequenceFlow> {
    if |flows| == 0 then [] else
      var rest := FlowsTo(flows[..|flows| - 1], id);
      if flows[|flows| - 1].targetRef == Some(id) then rest + [flows[|flows| - 1]] else rest
  }

  /** The boundary events naming `id` as their activity, in document order. */
  function EventsOn(elements: seq<Element>, id: Id): seq<Element> {
    if |elements| == 0 then [] else
      var rest := EventsOn(elements[..|elements| - 1], id);
      var e := elements[|elements| - 1];
      if e.IsBoundaryEvent() && e.attachedTo == Some(id) then rest + [e] else rest
  }

  /** With distinct ids a reference means the one element that bears the id and can take the entry. */
  lemma MeansIff(elements: seq<Element>, ref: Option<Id>, boundary: bool, i: nat)
    requires DistinctNames(elements) && i < |elements|
    ensures Means(elements, ref, boundary, i) <==> ref.Some? && Takes(elements[i], ref.value, boundary)
  {
    if ref.Some? && Takes(elements[i], ref.value, boundary) {
      ResolveIs(elements, ref.value, boundary, i);
    }
  }

  lemma {:induction false} LeavingIs(elements: seq<Element>, flows: seq<SequenceFlow>, i: nat)
    requires DistinctNames(elements) && i < |elements|
    ensures Leaving(elements, flows, i) ==
            if elements[i].HasFlowLists() && elements[i].Name().Some? then FlowsFrom(flows, elements[i].Name().value)
                else []
    ensures Entering(elements, flows, i) ==
            if elements[i].HasFlowLists() && elements[i].Name().Some? then FlowsTo(flows, elements[i].Name().value)
                else []
  {
    if |flows| > 0 {
      LeavingIs(elements, flows[..|flows| - 1], i);
      MeansIff(elements, flows[|flows| - 1].sourceRef, false, i);
      MeansIff(elements, flows[|flows| - 1].targetRef, false, i);
    }
  }

  lemma {:induction false} AttachedIs(wired: seq<Element>, elements: seq<Element>, i: nat)
    requires DistinctNames(wired) && i < |wired|
    ensures Attached(wired, BoundaryEventsOf(elements), i) ==
            if wired[i].IsActivity() && wired[i].Name().Some? then EventsOn(elements, wired[i].Name().value) else []
  {
    if |elements| > 0 {
      var rest, e := elements[..|elements| - 1], elements[|elements| - 1];
      AttachedIs(wired, rest, i);
      if e.IsBoundaryEvent() {
        MeansIff(wired, e.attachedTo, true, i);
        var events := BoundaryEventsOf(rest);
        assert (events + [e])[..|events|] == events;
      }
    }
  }

  lemma WiredKeepsNames(elements: seq<Element>)
    requires DistinctNames(elements)
    ensures DistinctNames(WiredScope(elements))
  {
    hide Leaving, Entering;
    var w := WiredScope(elements);
    assert forall i :: 0 <= i < |w| ==> w[i].Name() == elements[i].Name();
  }

  /** Neither attaching events nor the passes below change a boundary event once it is wired. */
  lemma BoundaryEventIsFinal(elements: seq<Element>, i: nat)
    requires i < |elements|
    ensures Processed(elements)[i].IsBoundaryEvent() <==> WiredScope(elements)[i].IsBoundaryEvent()
    ensures WiredScope(elements)[i].IsBoundaryEvent() ==> Processed(elements)[i] == WiredScope(elements)[i]
  {
    hide WiredScope, AttachedScope, ProcessedInside, Resolve, Leaving, Entering, Attached;
    HereFacts(elements, i);
    NotAttachedUnlessActivity(WiredScope(elements), i);
  }

  lemma NotAttachedUnlessActivity(wired: seq<Element>, i: nat)
    requires i < |wired|
    ensures wired[i].IsBoundaryEvent() ==> AttachedScope(wired)[i] == wired[i]
    ensures AttachedScope(wired)[i].IsBoundaryEvent() <==> wired[i].IsBoundaryEvent()
  {
    hide Attached;
    if wired[i].IsBoundaryEvent() {
      NoEventsOnEvent(wired, BoundaryEventsOf(wired), i);
    }
  }

  lemma {:induction false} NoEventsOnEvent(wired: seq<Element>, events: seq<Element>, i: nat)
    requires i < |wired| && !wired[i].IsActivity()
    ensures Attached(wired, events, i) == []
  {
    if |events| > 0 {
      NoEventsOnEvent(wired, events[..|events| - 1], i);
    }
  }

  lemma {:induction false} SameEventsOn(a: seq<Element>, b: seq<Element>, id: Id)
    requires |a| == |b|
    requires forall i :: 0 <= i < |a| ==>
               (a[i].IsBoundaryEvent() <==> b[i].IsBoundaryEvent()) && (a[i].IsBoundaryEvent() ==> a[i] == b[i])
    ensures EventsOn(a, id) == EventsOn(b, id)
  {
    if |a| > 0 {
      SameEventsOn(a[..|a| - 1], b[..|b| - 1], id);
    }
  }

  /**
   * With distinct ids, a node whose kind is covered gains exactly the scope's flows naming it, in
   * document order; an activity gains exactly its boundary events, each equal to the finished event
   * of the scope; and the elements of a subprocess are processed as a scope of their own.
   */
  lemma ProcessedExactly(elements: seq<Element>, i: nat)
    requires DistinctNames(elements) && i < |elements| && elements[i].Node?
    ensures var e, p, flows := elements[i], Processed(elements)[i], FlowsOf(elements);
            && p.Node? && p.nodeId == e.nodeId && p.kind == e.kind && p.attachedTo == e.attachedTo
            && p.elementMap == e.elementMap
            && p.outgoing == e.outgoing +
                 (if e.HasFlowLists() && e.nodeId.Some? then FlowsFrom(flows, e.nodeId.value) else [])
            && p.incoming == e.incoming +
                 (if e.HasFlowLists() && e.nodeId.Some? then FlowsTo(flows, e.nodeId.value) else [])
            && p.boundaryEvents == e.boundaryEvents +
                 (if e.IsActivity() && e.nodeId.Some? then EventsOn(Processed(elements), e.nodeId.value) else [])
            && p.children == if e.IsSubProcess() then Processed(e.children) else e.children
  {
    var wired := WiredScope(elements);
    LeavingIs(elements, FlowsOf(elements), i);
    WiredKeepsNames(elements);
    AttachedIs(wired, wired, i);
    HereFacts(elements, i);
    InsideAt(elements, i);
    if elements[i].nodeId.Some? {
      forall j | 0 <= j < |elements|
        ensures Processed(elements)[j].IsBoundaryEvent() <==> wired[j].IsBoundaryEvent()
        ensures wired[j].IsBoundaryEvent() ==> Processed(elements)[j] == wired[j]
      {
        BoundaryEventIsFinal(elements, j);
      }
      SameEventsOn(wired, Processed(elements), elements[i].nodeId.value);
    }
  }

  /** Sequence flows themselves are never changed. */
  lemma ProcessedFlow(elements: seq<Element>, i: nat)
    requires i < |elements| && elements[i].Flow?
    ensures Processed(elements)[i] == elements[i]
  {
  }

  // ---- Document order ---------------------------------------------------------------

  datatype Role = AsSource | AsTarget | AsAttached

  /** The element names `id` in this role. */
  predicate Names(e: Element, role: Role, id: Id) {
    match role
    case AsSource => e.Flow? && e.flow.sourceRef == Some(id)
    case AsTarget => e.Flow? && e.flow.targetRef == Some(id)
    case AsAttached => e.IsBoundaryEvent() && e.attachedTo == Some(id)
  }

  /** `places` lists, from first to last, the elements that name `id` in this role. */
  ghost predicate AllPlaces(elements: seq<Element>, role: Role, id: Id, places: seq<nat>) {
    && (forall k, l :: 0 <= k < l < |places| ==> places[k] < places[l])
    && (forall j :: j in places <==> 0 <= j < |elements| && Names(elements[j], role, id))
  }

  ghost predicate FlowsPicked(elements: seq<Element>, role: Role, id: Id, flows: seq<SequenceFlow>, places: seq<nat>) {
    AllPlaces(elements, role, id, places) && FlowsAt(elements, flows, places)
  }

  ghost predicate FlowsAt(elements: seq<Element>, flows: seq<SequenceFlow>, places: seq<nat>) {
    |flows| == |places| && forall k :: 0 <= k < |places| ==>
      places[k] < |elements| && elements[places[k]].Flow? && flows[k] == elements[places[k]].flow
  }

  lemma FlowsAtLonger(elements: seq<Element>, flows: seq<SequenceFlow>, places: seq<nat>)
    requires |elements| > 0 && FlowsAt(elements[..|elements| - 1], flows, places)
    ensures FlowsAt(elements, flows, places)
  {
    forall k | 0 <= k < |places| ensures elements[..|elements| - 1][places[k]] == elements[places[k]] {
    }
  }

  lemma FlowsAtSnoc(elements: seq<Element>, flows: seq<SequenceFlow>, places: seq<nat>, n: nat)
    requires n < |elements| && elements[n].Flow? && FlowsAt(elements, flows, places)
    ensures FlowsAt(elements, flows + [elements[n].flow], places + [n])
  {
  }

  ghost predicate EventsPicked(elements: seq<Element>, id: Id, events: seq<Element>, places: seq<nat>) {
    && AllPlaces(elements, AsAttached, id, places) && |events| == |places|
    && forall k :: 0 <= k < |places| ==> places[k] < |elements| && events[k] == elements[places[k]]
  }

  lemma PlacesSnoc(elements: seq<Element>, role: Role, id: Id, places: seq<nat>)
    requires |elements| > 0 && AllPlaces(elements[..|elements| - 1], role, id, places)
    ensures var n := |elements| - 1;
            AllPlaces(elements, role, id, if Names(elements[n], role, id) then places + [n] else places)
  {
    hide Names;
    var n := |elements| - 1;
    assert forall j :: 0 <= j < n ==> elements[..n][j] == elements[j];
    forall k | 0 <= k < |places| ensures places[k] < n {
      assert places[k] in places;
    }
  }

  lemma FlowsPickedSnoc(elements: seq<Element>, role: Role, id: Id, flows: seq<SequenceFlow>, places: seq<nat>)
    requires |elements| > 0 && !role.AsAttached? && FlowsPicked(elements[..|elements| - 1], role, id, flows, places)
    ensures var n := |elements| - 1;
            if Names(elements[n], role, id) then
              elements[n].Flow? && FlowsPicked(elements, role, id, flows + [elements[n].flow], places + [n])
            else FlowsPicked(elements, role, id, flows, places)
  {
    var n := |elements| - 1;
    assert Names(elements[n], role, id) ==> elements[n].Flow?;
    hide Names, AllPlaces, FlowsAt;
    PlacesSnoc(elements, role, id, places);
    FlowsAtLonger(elements, flows, places);
    if Names(elements[n], role, id) {
      FlowsAtSnoc(elements, flows, places, n);
    }
  }

  lemma EventsPickedSnoc(elements: seq<Element>, id: Id, events: seq<Element>, places: seq<nat>)
    requires |elements| > 0 && EventsPicked(elements[..|elements| - 1], id, events, places)
    ensures var n := |elements| - 1;
            if Names(elements[n], AsAttached, id) then EventsPicked(elements, id, events + [elements[n]], places + [n])
            else EventsPicked(elements, id, events, places)
  {
    var n := |elements| - 1;
    hide Names, AllPlaces;
    PlacesSnoc(elements, AsAttached, id, places);
    assert forall k :: 0 <= k < |places| ==> elements[..n][places[k]] == elements[places[k]];
  }

  lemma NothingPicked(role: Role, id: Id)
    ensures FlowsPicked([], role, id, [], []) && EventsPicked([], id, [], [])
  {
  }

  lemma FlowsSnoc(flows: seq<SequenceFlow>, f: SequenceFlow, id: Id)
    ensures FlowsFrom(flows + [f], id) == FlowsFrom(flows, id) + if f.sourceRef == Some(id) then [f] else []
    ensures FlowsTo(flows + [f], id) == FlowsTo(flows, id) + if f.targetRef == Some(id) then [f] else []
  {
    assert (flows + [f])[..|flows|] == flows;
  }

  /** The flows naming a node as their source are those elements of the scope, in document order. */
  lemma {:induction false} FlowsFromArePicked(elements: seq<Element>, id: Id) returns (places: seq<nat>)
    ensures FlowsPicked(elements, AsSource, id, FlowsFrom(FlowsOf(elements), id), places)
  {
    hide FlowsPicked;
    NothingPicked(AsSource, id);
    places := [];
    if |elements| > 0 {
      var n := |elements| - 1;
      places := FlowsFromArePicked(elements[..n], id);
      var flows := FlowsOf(elements[..n]);
      FlowsPickedSnoc(elements, AsSource, id, FlowsFrom(flows, id), places);
      if elements[n].Flow? {
        FlowsSnoc(flows, elements[n].flow, id);
      }
      hide FlowsFrom;
      if Names(elements[n], AsSource, id) {
        places := places + [n];
      }
    }
  }

  /** Likewise for the flows naming it as their target. */
  lemma {:induction false} FlowsToArePicked(elements: seq<Element>, id: Id) returns (places: seq<nat>)
    ensures FlowsPicked(elements, AsTarget, id, FlowsTo(FlowsOf(elements), id), places)
  {
    hide FlowsPicked;
    NothingPicked(AsTarget, id);
    places := [];
    if |elements| > 0 {
      var n := |elements| - 1;
      places := FlowsToArePicked(elements[..n], id);
      var flows := FlowsOf(elements[..n]);
      FlowsPickedSnoc(elements, AsTarget, id, FlowsTo(flows, id), places);
      if elements[n].Flow? {
        FlowsSnoc(flows, elements[n].flow, id);
      }
      hide FlowsTo;
      if Names(elements[n], AsTarget, id) {
        places := places + [n];
      }
    }
  }

  /** And for the boundary events naming it as their activity. */
  lemma {:induction false} EventsOnArePicked(elements: seq<Element>, id: Id) returns (places: seq<nat>)
    ensures EventsPicked(elements, id, EventsOn(elements, id), places)
  {
    hide EventsPicked;
    NothingPicked(AsAttached, id);
    places := [];
    if |elements| > 0 {
      var n := |elements| - 1;
      places := EventsOnArePicked(elements[..n], id);
      EventsPickedSnoc(elements, id, EventsOn(elements[..n], id), places);
      if Names(elements[n], AsAttached, id) {
        places := places + [n];
      }
    }
  }
}
