/**
 * Both passes of post-processing in a row: the wiring keeps names and nesting, so the maps built
 * afterwards index the wired elements.
 */
module PostProcessing {
  import opened Common
  import opened FlowModel
  import FlowWiring
  import ElementIndex
  import Nesting

  /** The same names, in the same places, at every depth. */
  ghost predicate SameTree(a: seq<Element>, b: seq<Element>)
    decreases a
  {
    && |a| == |b|
    && (|a| > 0 ==> SamePlace(a[0], b[0]) && SameTree(a[1..], b[1..]))
  }

  ghost predicate SamePlace(a: Element, b: Element)
    decreases a
  {
    && a.Name() == b.Name() && a.IsSubProcess() == b.IsSubProcess()
    && (a.IsSubProcess() ==> SameTree(a.children, b.children))
  }

  lemma {:induction false} SameTreeAt(a: seq<Element>, b: seq<Element>)
    requires |a| == |b| && forall i :: 0 <= i < |a| ==> SamePlace(a[i], b[i])
    ensures SameTree(a, b)
    decreases |a|
  {
    hide SamePlace;
    if |a| > 0 {
      SameTreeAt(a[1..], b[1..]);
    }
  }

  lemma {:induction false} SameTreeFacts(a: seq<Element>, b: seq<Element>)
    requires SameTree(a, b)
    ensures ElementIndex.Height(a) == ElementIndex.Height(b)
    ensures ElementIndex.SameNames(ElementIndex.Nested(a), ElementIndex.Nested(b))
    decreases a
  {
    if |a| > 0 {
      SameTreeFacts(a[1..], b[1..]);
      if a[0].IsSubProcess() {
        SameTreeFacts(a[0].children, b[0].children);
      }
    }
  }

  /** What the first pass leaves of an element. */
  lemma ProcessedPlace(elements: seq<Element>, i: nat)
    requires i < |elements|
    ensures var p := FlowWiring.Processed(elements)[i];
            && p.Name() == elements[i].Name() && p.IsSubProcess() == elements[i].IsSubProcess()
            && (elements[i].IsSubProcess() ==> p.children == FlowWiring.Processed(elements[i].children))
  {
    hide FlowWiring.AttachedScope, FlowWiring.WiredScope;
    FlowWiring.HereFacts(elements, i);
    FlowWiring.InsideAt(elements, i);
  }

  /** Wiring keeps names and nesting. */
  lemma {:induction false} ProcessedKeepsTree(elements: seq<Element>)
    ensures SameTree(FlowWiring.Processed(elements), elements)
    decreases elements
  {
    hide FlowWiring.Processed, SameTree;
    var processed := FlowWiring.Processed(elements);
    forall i | 0 <= i < |elements| ensures SamePlace(processed[i], elements[i]) {
      ProcessedPlace(elements, i);
      if elements[i].IsSubProcess() {
        ProcessedKeepsTree(elements[i].children);
      }
    }
    SameTreeAt(processed, elements);
  }

  /** The finished elements and the process map. */
  method PostProcessProcess(elements: seq<Element>, dataObjects: seq<Element>)
    returns (finished: seq<Element>, index: map<Id, Element>)
    ensures finished == ElementIndex.IndexedAll(FlowWiring.Processed(elements), 0)
    ensures index == ElementIndex.WithDataObjects(ElementIndex.Collected(finished, map[], 0), dataObjects)
  {
    var wired := FlowWiring.ProcessScope(elements);
    finished, index := ElementIndex.PopulateAllMaps(wired, dataObjects);
  }

  /**
   * With distinct ids the process map, and the map of every subprocess, is the index of the wired
   * and finished elements, under the ids of the original ones.
   */
  lemma WiredProcessIsIndexed(elements: seq<Element>)
    requires ElementIndex.Height(elements) <= ElementIndex.MAX_XML_NESTING_DEPTH
            && DistinctNames(ElementIndex.Nested(elements))
    ensures var finished := ElementIndex.IndexedAll(FlowWiring.Processed(elements), 0);
            && ElementIndex.IsIndex(ElementIndex.Collected(finished, map[], 0), finished)
            && ElementIndex.AllIndexed(ElementIndex.Nested(finished))
            && ElementIndex.SameNames(ElementIndex.Nested(finished), ElementIndex.Nested(elements))
  {
    var wired := FlowWiring.Processed(elements);
    ProcessedKeepsTree(elements);
    hide FlowWiring.Processed, ElementIndex.Nested, ElementIndex.Height, SameTree, ElementIndex.IsIndex,
        ElementIndex.AllIndexed;
    SameTreeFacts(wired, elements);
    ElementIndex.SameNamesDistinct(ElementIndex.Nested(wired), ElementIndex.Nested(elements));
    ElementIndex.ProcessIsIndexed(wired);
  }

  /** So it is for every process read from a document the validator accepts. */
  lemma AcceptedProcessIsIndexed(
      forest: seq<Nesting.Xml>, definitions: Nesting.Xml, process: Nesting.Xml, elements: seq<Element>)
    requires Nesting.Verdict(Nesting.Events(forest), []).None?
    requires Nesting.Inside(definitions, forest) && definitions.Nest?
    requires Nesting.Inside(process, definitions.children) && process.Nest?
    requires Nesting.AllReadFrom(elements, process.children) && DistinctNames(ElementIndex.Nested(elements))
    ensures var finished := ElementIndex.IndexedAll(FlowWiring.Processed(elements), 0);
            && ElementIndex.IsIndex(ElementIndex.Collected(finished, map[], 0), finished)
            && ElementIndex.AllIndexed(ElementIndex.Nested(finished))
            && ElementIndex.SameNames(ElementIndex.Nested(finished), ElementIndex.Nested(elements))
  {
    hide *;
    Nesting.AcceptedIsNeverCutOff(forest, definitions, process, elements);
    WiredProcessIsIndexed(elements);
  }

  // ---- What every finished element holds --------------------------------------------

  /** No scope repeats an id. */
  ghost predicate ScopesDistinct(elements: seq<Element>)
    decreases elements
  {
    DistinctNames(elements)
    && forall i :: 0 <= i < |elements| && elements[i].IsSubProcess() ==> ScopesDistinct(elements[i].children)
  }

  /** The list after is the list before with the scope's flows that name `id` appended in document order. */
  ghost predicate GainsFlows(
      scope: seq<Element>, role: FlowWiring.Role, id: Id, before: seq<SequenceFlow>, after: seq<SequenceFlow>) {
    exists places :: |before| <= |after| && after[..|before|] == before
                     && FlowWiring.FlowsPicked(scope, role, id, after[|before|..], places)
  }

  ghost predicate GainsEvents(scope: seq<Element>, id: Id, before: seq<Element>, after: seq<Element>) {
    exists places :: |before| <= |after| && after[..|before|] == before
                     && FlowWiring.EventsPicked(scope, id, after[|before|..], places)
  }

  /**
   * The finished node: as outgoing and incoming flows it gains exactly those of its own scope that
   * name it, as boundary events exactly the finished ones of its scope that are attached to it.
   */
  ghost predicate FinishedNode(scope: seq<Element>, finished: seq<Element>, e: Element, f: Element)
    requires e.Node?
  {
    && f.Node? && f.kind == e.kind && f.nodeId == e.nodeId && f.attachedTo == e.attachedTo
    && (if e.HasFlowLists() && e.nodeId.Some? then
          && GainsFlows(scope, FlowWiring.AsSource, e.nodeId.value, e.outgoing, f.outgoing)
          && GainsFlows(scope, FlowWiring.AsTarget, e.nodeId.value, e.incoming, f.incoming)
        else f.outgoing == e.outgoing && f.incoming == e.incoming)
    && (if e.IsActivity() && e.nodeId.Some? then
          GainsEvents(finished, e.nodeId.value, e.boundaryEvents, f.boundaryEvents)
        else f.boundaryEvents == e.boundaryEvents)
    && (!e.IsSubProcess() ==> f.children == e.children && f.elementMap == e.elementMap)
  }

  /** Every element of a scope is finished, and so is every scope inside it. */
  ghost predicate FinishedScope(scope: seq<Element>, finished: seq<Element>)
    decreases scope
  {
    |finished| == |scope| && forall i :: 0 <= i < |scope| ==>
      if scope[i].Flow? then finished[i] == scope[i]
      else && FinishedNode(scope, finished, scope[i], finished[i])
           && (scope[i].IsSubProcess() ==> FinishedScope(scope[i].children, finished[i].children))
  }

  lemma GainedFlows(scope: seq<Element>, id: Id, before: seq<SequenceFlow>)
    ensures GainsFlows(scope, FlowWiring.AsSource, id, before,
                       before + FlowWiring.FlowsFrom(FlowWiring.FlowsOf(scope), id))
    ensures GainsFlows(scope, FlowWiring.AsTarget, id, before,
                       before + FlowWiring.FlowsTo(FlowWiring.FlowsOf(scope), id))
  {
    hide FlowWiring.FlowsPicked, FlowWiring.FlowsFrom, FlowWiring.FlowsTo, FlowWiring.FlowsOf;
    var from := FlowWiring.FlowsFrom(FlowWiring.FlowsOf(scope), id);
    var to := FlowWiring.FlowsTo(FlowWiring.FlowsOf(scope), id);
    var p := FlowWiring.FlowsFromArePicked(scope, id);
    var q := FlowWiring.FlowsToArePicked(scope, id);
    assert (before + from)[|before|..] == from && (before + from)[..|before|] == before;
    assert (before + to)[|before|..] == to && (before + to)[..|before|] == before;
  }

  lemma GainedEvents(scope: seq<Element>, id: Id, before: seq<Element>)
    ensures GainsEvents(scope, id, before, before + FlowWiring.EventsOn(scope, id))
  {
    hide FlowWiring.EventsPicked, FlowWiring.EventsOn;
    var on := FlowWiring.EventsOn(scope, id);
    var p := FlowWiring.EventsOnArePicked(scope, id);
    assert (before + on)[|before|..] == on && (before + on)[..|before|] == before;
  }

  /** Indexing a scope leaves its boundary events alone. */
  lemma IndexedEvents(wired: seq<Element>, depth: nat, id: Id)
    ensures FlowWiring.EventsOn(ElementIndex.IndexedAll(wired, depth), id) == FlowWiring.EventsOn(wired, id)
  {
    hide ElementIndex.Indexed, ElementIndex.IndexedAll, FlowWiring.EventsOn;
    ElementIndex.IndexedAllAt(wired, depth);
    forall i | 0 <= i < |wired|
      ensures ElementIndex.IndexedAll(wired, depth)[i].IsBoundaryEvent() == wired[i].IsBoundaryEvent()
      ensures wired[i].IsBoundaryEvent() ==> ElementIndex.IndexedAll(wired, depth)[i] == wired[i]
    {
      ElementIndex.IndexedKeepsRest(wired[i], depth);
    }
    FlowWiring.SameEventsOn(ElementIndex.IndexedAll(wired, depth), wired, id);
  }

  lemma NodeFinished(scope: seq<Element>, depth: nat, i: nat)
    requires DistinctNames(scope) && i < |scope| && scope[i].Node?
    ensures var wired := FlowWiring.Processed(scope);
            FinishedNode(scope, ElementIndex.IndexedAll(wired, depth), scope[i], ElementIndex.Indexed(wired[i], depth))
  {
    hide ElementIndex.Indexed, ElementIndex.IndexedAll, FlowWiring.Processed, FlowWiring.FlowsPicked,
         FlowWiring.EventsPicked, DistinctNames;
    var e, wired := scope[i], FlowWiring.Processed(scope);
    FlowWiring.ProcessedExactly(scope, i);
    ElementIndex.IndexedKeepsRest(wired[i], depth);
    if e.nodeId.Some? {
      var id := e.nodeId.value;
      GainedFlows(scope, id, e.outgoing);
      GainedFlows(scope, id, e.incoming);
      IndexedEvents(wired, depth, id);
      GainedEvents(ElementIndex.IndexedAll(wired, depth), id, e.boundaryEvents);
    }
    NoMoreLists(e);
  }

  lemma NoMoreLists(e: Element)
    requires e.Node?
    ensures e.outgoing + [] == e.outgoing && e.incoming + [] == e.incoming && e.boundaryEvents + [] == e.boundaryEvents
  {
  }

  /** Beyond the cap nothing is indexed. */
  lemma {:induction false} BeyondCap(elements: seq<Element>, depth: nat)
    requires depth >= ElementIndex.MAX_XML_NESTING_DEPTH
    ensures ElementIndex.IndexedAll(elements, depth) == elements
    decreases |elements|
  {
    if |elements| > 0 {
      BeyondCap(elements[1..], depth);
    }
  }

  /**
   * With ids distinct within each scope, both passes together leave every node, at every depth, with
   * exactly its flows and its boundary events, whatever the nesting.
   */
  lemma {:induction false} EveryScopeIsFinished(scope: seq<Element>, depth: nat)
    requires ScopesDistinct(scope)
    ensures FinishedScope(scope, ElementIndex.IndexedAll(FlowWiring.Processed(scope), depth))
    decreases scope, 1
  {
    hide ElementIndex.Indexed, ElementIndex.IndexedAll, FlowWiring.Processed, FinishedNode, DistinctNames;
    var wired := FlowWiring.Processed(scope);
    var finished := ElementIndex.IndexedAll(wired, depth);
    ElementIndex.IndexedAllAt(wired, depth);
    forall i | 0 <= i < |scope|
      ensures if scope[i].Flow? then finished[i] == scope[i]
              else && finished[i].Node? && FinishedNode(scope, finished, scope[i], finished[i])
                   && (scope[i].IsSubProcess() ==> FinishedScope(scope[i].children, finished[i].children))
    {
      hide FinishedScope;
      ElementIndex.IndexedKeepsRest(wired[i], depth);
      if scope[i].Flow? {
        FlowWiring.ProcessedFlow(scope, i);
      } else {
        NodeFinished(scope, depth, i);
        FlowWiring.ProcessedExactly(scope, i);
        if scope[i].IsSubProcess() {
          InsideFinished(scope, depth, i);
        }
      }
    }
  }

  lemma {:induction false} InsideFinished(scope: seq<Element>, depth: nat, i: nat)
    requires ScopesDistinct(scope) && i < |scope| && scope[i].IsSubProcess()
    ensures var finished := ElementIndex.Indexed(FlowWiring.Processed(scope)[i], depth);
            finished.Node? && FinishedScope(scope[i].children, finished.children)
    decreases scope, 0
  {
    hide ElementIndex.Indexed, ElementIndex.IndexedAll, FlowWiring.Processed, FinishedScope, DistinctNames;
    var inner := FlowWiring.Processed(scope[i].children);
    ElementIndex.IndexedKeepsRest(FlowWiring.Processed(scope)[i], depth);
    FlowWiring.ProcessedExactly(scope, i);
    ProcessedPlace(scope, i);
    EveryScopeIsFinished(scope[i].children, depth + 1);
    if depth >= ElementIndex.MAX_XML_NESTING_DEPTH {
      BeyondCap(inner, depth + 1);
    }
  }
}
