/** Flow elements of a BPMN process as the converter's post-processing sees them. */
module FlowModel {
  import opened Common

  datatype Kind =
    | Task | UserTask | ServiceTask | CaseServiceTask | SendTask | ScriptTask | ManualTask | ReceiveTask
    | BusinessRuleTask | CallActivity
    | StartEvent | EndEvent | IntermediateCatchEvent | IntermediateThrowEvent | BoundaryEvent
    | ExclusiveGateway | ParallelGateway | InclusiveGateway | EventBasedGateway | ComplexGateway
    | SubProcess | Transaction | EventSubProcess | AdhocSubProcess
    | ValuedDataObject

  datatype SequenceFlow = SequenceFlow(id: Option<Id>, sourceRef: Option<Id>, targetRef: Option<Id>)

  /**
   * A sequence flow or any other element. `children` and `elementMap` belong to the subprocess
   * kinds, `attachedTo` to boundary events, `boundaryEvents` to activities.
   */
  datatype Element =
    | Flow(flow: SequenceFlow)
    | Node(kind: Kind, nodeId: Option<Id>,
           outgoing: seq<SequenceFlow>, incoming: seq<SequenceFlow>,
           boundaryEvents: seq<Element>, attachedTo: Option<Id>,
           children: seq<Element>, elementMap: map<Id, Element>)
  {
    function Name(): Option<Id> {
      if Flow? then flow.id else nodeId
    }

    /** The kinds whose flow lists the converter fills; a plain task is not among them. */
    predicate HasFlowLists() {
      Node? && kind != Task && kind != ValuedDataObject
    }

    predicate IsActivity() {
      Node? && kind in {Task, UserTask, ServiceTask, CaseServiceTask, SendTask, ScriptTask, ManualTask, ReceiveTask,
                        BusinessRuleTask, CallActivity, SubProcess, Transaction, EventSubProcess, AdhocSubProcess}
    }

    predicate IsSubProcess() {
      Node? && kind in {SubProcess, Transaction, EventSubProcess, AdhocSubProcess}
    }

    predicate IsBoundaryEvent() {
      Node? && kind == BoundaryEvent
    }
  }

  ghost predicate DistinctNames(elements: seq<Element>) {
    forall i, j :: 0 <= i < j < |elements| && elements[i].Name().Some? ==> elements[i].Name() != elements[j].Name()
  }
}
