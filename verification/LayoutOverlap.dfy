/** Which of the shapes that the completion puts on its grids overlap. */
module LayoutOverlap {
  import opened Common
  import opened FlowModel
  import opened Waypoints
  import opened EnsureLayout
  import Placement

  // ---- Slots of a scope -------------------------------------------------------------

  /** The slot of the `i`-th element of a scope when it is new. */
  function SlotAt(
      elements: seq<Shape>, parent: Option<Frame>, slot: nat, outer: nat, i: nat, before: map<Id, Bounds>): nat
    requires i <= |elements|
    decreases i
  {
    if i == 0 then if parent.Some? then slot else outer
    else SlotAt(elements[1..], parent, NextSlot(elements[0], parent, slot, before),
                outer + Unplaced(TakersIn(elements[0], parent.None?), before), i - 1, before)
  }

  predicate NewAt(elements: seq<Shape>, i: nat, before: map<Id, Bounds>) {
    i < |elements| && elements[i].Named() && elements[i].id.value !in before
  }

  /** Each new element is settled on the slot that its place in the scope gives it. */
  lemma {:induction false} SettledAt(
    elements: seq<Shape>, parent: Option<Frame>, slot: nat, outer: nat, i: nat, before: map<Id, Bounds>,
    after: map<Id, Bounds>)
    requires Nested(elements, parent, slot, outer, before, after) && NewAt(elements, i, before)
    ensures Settled(elements[i], parent, SlotAt(elements, parent, slot, outer, i, before), before, after)
    ensures elements[i].id.value in after
    ensures Extent(after[elements[i].id.value]) == FinalSize(elements[i], before)
    decreases i
  {
    hide Settled, TakersIn, Unplaced, ArtifactsSettled, FinalSize;
    if i > 0 {
      SettledAt(elements[1..], parent, NextSlot(elements[0], parent, slot, before),
                outer + Unplaced(TakersIn(elements[0], parent.None?), before), i - 1, before, after);
    }
  }

  lemma {:induction false} SlotsFromStart(
    elements: seq<Shape>, parent: Option<Frame>, slot: nat, outer: nat, i: nat, before: map<Id, Bounds>)
    requires i <= |elements|
    ensures (if parent.Some? then slot else outer) <= SlotAt(elements, parent, slot, outer, i, before)
    decreases i
  {
    hide TakersIn, Unplaced;
    if i > 0 {
      SlotsFromStart(elements[1..], parent, NextSlot(elements[0], parent, slot, before),
                     outer + Unplaced(TakersIn(elements[0], parent.None?), before), i - 1, before);
    }
  }

  lemma OwnSlot(e: Shape, before: map<Id, Bounds>)
    requires e.Named() && e.id.value !in before
    ensures Unplaced(TakersIn(e, true), before) >= 1
  {
    hide ContentTakers;
    assert e.id.value in TakersIn(e, true) - before.Keys;
  }

  /** New elements of a scope have different slots, in their order. */
  lemma {:induction false} SlotsRise(
    elements: seq<Shape>, parent: Option<Frame>, slot: nat, outer: nat, i: nat, j: nat, before: map<Id, Bounds>)
    requires NewAt(elements, i, before) && i < j <= |elements|
    ensures SlotAt(elements, parent, slot, outer, i, before) < SlotAt(elements, parent, slot, outer, j, before)
    decreases i
  {
    hide TakersIn, Unplaced;
    var next := NextSlot(elements[0], parent, slot, before);
    var taken := Unplaced(TakersIn(elements[0], parent.None?), before);
    if i > 0 {
      SlotsRise(elements[1..], parent, next, outer + taken, i - 1, j - 1, before);
    } else {
      OwnSlot(elements[0], before);
      SlotsFromStart(elements[1..], parent, next, outer + taken, j - 1, before);
    }
  }

  // ---- Boxes on a grid --------------------------------------------------------------

  /** Shapes of these sizes on slots `k` and `l` of a grid reach into each other. */
  predicate Cross(k: nat, a: Size, l: nat, b: Size, columnWidth: real, rowHeight: real) {
    && (k % 3 - l % 3) as real * columnWidth < b.width && (l % 3 - k % 3) as real * columnWidth < a.width
    && (k / 3 - l / 3) as real * rowHeight < b.height && (l / 3 - k / 3) as real * rowHeight < a.height
  }

  lemma Steps(k: nat, l: nat, step: real)
    ensures (k - l) as real * step == k as real * step - l as real * step
  {
  }

  lemma OnGridOverlapIff(
      a: Bounds, b: Bounds, x: real, y: real, columnWidth: real, rowHeight: real, k: nat, l: nat)
    requires OnGrid(a, x, y, columnWidth, rowHeight, k) && OnGrid(b, x, y, columnWidth, rowHeight, l)
    ensures Placement.Overlap(a, b) <==> Cross(k, Extent(a), l, Extent(b), columnWidth, rowHeight)
  {
    Steps(k % 3, l % 3, columnWidth);
    Steps(l % 3, k % 3, columnWidth);
    Steps(k / 3, l / 3, rowHeight);
    Steps(l / 3, k / 3, rowHeight);
  }

  predicate IsTask(kind: Kind) {
    SizeOf(kind).width == 140.0
  }

  lemma PlainSizes(kind: Kind)
    requires kind !in {SubProcess, Transaction, EventSubProcess, AdhocSubProcess}
    ensures 0.0 < SizeOf(kind).width <= 140.0 && 0.0 < SizeOf(kind).height <= 80.0
    ensures SizeOf(kind).width > 132.0 <==> IsTask(kind)
  {
  }

  /** Slots in different rows are a row apart, in one row as many columns as slots. */
  lemma SlotsApart(k: nat, l: nat)
    requires k < l
    ensures k / 3 <= l / 3
    ensures k / 3 == l / 3 ==> l % 3 - k % 3 == l - k
    ensures l == k + 1 && k % 3 != 2 ==> k / 3 == l / 3
  {
  }

  /** In one grid plain shapes reach into each other exactly when one is right of the other and its left is too wide. */
  lemma PlainCrossIff(k: nat, a: Size, l: nat, b: Size, columnWidth: real, rowHeight: real)
    requires k < l && 0.0 < a.width && 0.0 < b.width && 0.0 < b.height
    requires a.width <= 2.0 * columnWidth && 0.0 < a.height <= rowHeight
    ensures Cross(k, a, l, b, columnWidth, rowHeight) <==> l == k + 1 && k % 3 != 2 && a.width > columnWidth
  {
    SlotsApart(k, l);
    if k / 3 < l / 3 {
      AtLeast(l / 3 - k / 3, 1, rowHeight);
      assert !Cross(k, a, l, b, columnWidth, rowHeight);
    } else if l == k + 1 {
      assert (l % 3 - k % 3) as real * columnWidth == columnWidth;
    } else {
      AtLeast(l % 3 - k % 3, 2, columnWidth);
      assert !Cross(k, a, l, b, columnWidth, rowHeight);
    }
  }

  lemma AtLeast(n: int, m: int, step: real)
    requires n >= m && step > 0.0
    ensures n as real * step >= m as real * step
  {
  }

  // ---- Shapes of one container ------------------------------------------------------

  /** Two new shapes of a container overlap exactly when their cells and final sizes make them. */
  lemma ScopeOverlapIff(
      elements: seq<Shape>, frame: Frame, outer: nat, i: nat, j: nat, before: map<Id, Bounds>, after: map<Id, Bounds>)
    requires Nested(elements, Some(frame), 0, outer, before, after)
    requires NewAt(elements, i, before) && NewAt(elements, j, before) && i < j
    ensures elements[i].id.value in after && elements[j].id.value in after
    ensures var k := SlotAt(elements, Some(frame), 0, outer, i, before);
            var l := SlotAt(elements, Some(frame), 0, outer, j, before);
            k < l && (Placement.Overlap(after[elements[i].id.value], after[elements[j].id.value]) <==>
                      Cross(k, FinalSize(elements[i], before), l, FinalSize(elements[j], before), 132.0, 92.0))
  {
    hide SlotAt, Nested, Placement.Overlap, OnGrid, Cross, FinalSize, Within, Fits;
    var k := SlotAt(elements, Some(frame), 0, outer, i, before);
    var l := SlotAt(elements, Some(frame), 0, outer, j, before);
    SlotsRise(elements, Some(frame), 0, outer, i, j, before);
    SettledAt(elements, Some(frame), 0, outer, i, before, after);
    SettledAt(elements, Some(frame), 0, outer, j, before, after);
    var p := after[frame.id];
    OnGridOverlapIff(after[elements[i].id.value], after[elements[j].id.value], p.x + 28.0, p.y + 42.0, 132.0, 92.0,
        k, l);
  }

  /**
   * Two new nodes of a container that are no containers themselves overlap exactly when they are
   * neighbours in a row and the left one is a task: columns are narrower than tasks.
   */
  lemma NeighboursOverlapIff(
      elements: seq<Shape>, frame: Frame, outer: nat, i: nat, j: nat, before: map<Id, Bounds>, after: map<Id, Bounds>)
    requires Nested(elements, Some(frame), 0, outer, before, after)
    requires NewAt(elements, i, before) && NewAt(elements, j, before) && i < j
    requires !elements[i].IsContainer() && !elements[j].IsContainer()
    ensures elements[i].id.value in after && elements[j].id.value in after
    ensures var k := SlotAt(elements, Some(frame), 0, outer, i, before);
            var l := SlotAt(elements, Some(frame), 0, outer, j, before);
            Placement.Overlap(after[elements[i].id.value], after[elements[j].id.value]) <==>
              l == k + 1 && k % 3 != 2 && IsTask(elements[i].kind)
  {
    hide SlotAt, Nested, Placement.Overlap, Cross, SizeOf, IsTask;
    ScopeOverlapIff(elements, frame, outer, i, j, before, after);
    PlainSizes(elements[i].kind);
    PlainSizes(elements[j].kind);
    PlainCrossIff(SlotAt(elements, Some(frame), 0, outer, i, before), SizeOf(elements[i].kind),
                  SlotAt(elements, Some(frame), 0, outer, j, before), SizeOf(elements[j].kind), 132.0, 92.0);
  }

  // ---- Shapes of the outermost scopes -----------------------------------------------

  /** The slots taken before a process. */
  function ProcessSlot(processes: seq<Process>, outer: nat, p: nat, before: map<Id, Bounds>): nat
    requires p <= |processes|
    decreases p
  {
    if p == 0 then outer
    else ProcessSlot(processes[1..],
                     outer + Unplaced(ContentTakers(processes[0].elements, processes[0].artifacts, true), before),
                     p - 1, before)
  }

  /** The slot of the `i`-th outermost element of a process when it is new. */
  function OutermostSlot(processes: seq<Process>, p: nat, i: nat, before: map<Id, Bounds>): nat
    requires p < |processes| && i <= |processes[p].elements|
  {
    SlotAt(processes[p].elements, None, 0, ProcessSlot(processes, 0, p, before), i, before)
  }

  lemma {:induction false} ProcessNestedAt(
    processes: seq<Process>, outer: nat, p: nat, before: map<Id, Bounds>, after: map<Id, Bounds>)
    requires AllNested(processes, outer, before, after) && p < |processes|
    ensures Nested(processes[p].elements, None, 0, ProcessSlot(processes, outer, p, before), before, after)
    decreases p
  {
    hide Nested, Unplaced, ContentTakers, Takers, ArtifactsSettled;
    if p > 0 {
      ProcessNestedAt(processes[1..],
                      outer + Unplaced(ContentTakers(processes[0].elements, processes[0].artifacts, true), before),
                      p - 1, before, after);
    }
  }

  /** A scope's slots end with all its takers counted. */
  lemma {:induction false} LastSlot(elements: seq<Shape>, outer: nat, slot: nat, before: map<Id, Bounds>)
    requires Unique(elements)
    ensures SlotAt(elements, None, slot, outer, |elements|, before) == outer + Unplaced(Takers(elements, true), before)
    decreases |elements|
  {
    hide TakersIn, Unplaced, UniqueIn, IdsIn;
    if |elements| > 0 {
      var e, rest := elements[0], elements[1..];
      LastSlot(rest, outer + Unplaced(TakersIn(e, true), before), NextSlot(e, None, slot, before), before);
      TakersInCovered(e, true);
      TakersCovered(rest, true);
      UnplacedAdds(TakersIn(e, true), Takers(rest, true), before);
    } else {
      NoneUnplaced(before);
    }
  }

  lemma {:induction false} ProcessSlotsRise(
      processes: seq<Process>, outer: nat, p: nat, q: nat, before: map<Id, Bounds>)
    requires p < q <= |processes|
    ensures ProcessSlot(processes, outer, p, before)
            + Unplaced(ContentTakers(processes[p].elements, processes[p].artifacts, true), before)
         <= ProcessSlot(processes, outer, q, before)
    decreases q
  {
    hide Unplaced, ContentTakers;
    var next := outer + Unplaced(ContentTakers(processes[0].elements, processes[0].artifacts, true), before);
    if p > 0 {
      ProcessSlotsRise(processes[1..], next, p - 1, q - 1, before);
    } else if q > 1 {
      ProcessSlotsRise(processes[1..], next, 0, q - 1, before);
    }
  }

  /** New outermost nodes have different slots throughout the model, in document order. */
  lemma OutermostSlotsRise(
      processes: seq<Process>, p: nat, i: nat, q: nat, j: nat, before: map<Id, Bounds>)
    requires UniqueProcesses(processes) && p <= q < |processes| && (p < q || i < j)
    requires NewAt(processes[p].elements, i, before) && NewAt(processes[q].elements, j, before)
    ensures OutermostSlot(processes, p, i, before) < OutermostSlot(processes, q, j, before)
  {
    hide SlotAt, Unplaced, Takers, Unique, UniqueProcesses, ProcessSlot, NewAt;
    var here, there := ProcessSlot(processes, 0, p, before), ProcessSlot(processes, 0, q, before);
    NewAtMeans(processes[p].elements, i, before);
    NewAtMeans(processes[q].elements, j, before);
    if p == q {
      SlotsRise(processes[p].elements, None, 0, here, i, j, before);
    } else {
      UniqueAt(processes, p);
      SlotsRise(processes[p].elements, None, 0, here, i, |processes[p].elements|, before);
      LastSlot(processes[p].elements, here, 0, before);
      ProcessSlotsRise(processes, 0, p, q, before);
      MoreUnplaced(Takers(processes[p].elements, true), ArtifactIds(processes[p].artifacts), before);
      SlotsFromStart(processes[q].elements, None, 0, there, j, before);
    }
  }

  lemma NewAtMeans(elements: seq<Shape>, i: nat, before: map<Id, Bounds>)
    ensures NewAt(elements, i, before) ==> i < |elements|
  {
  }

  lemma MoreUnplaced(a: set<Id>, b: set<Id>, m: map<Id, Bounds>)
    ensures Unplaced(a, m) <= Unplaced(a + b, m)
  {
    assert a + b - m.Keys == (a - m.Keys) + (b - m.Keys - a);
  }

  lemma {:induction false} UniqueAt(processes: seq<Process>, p: nat)
    requires UniqueProcesses(processes) && p < |processes|
    ensures Unique(processes[p].elements)
    decreases p
  {
    hide Unique, Ids, ContentIds, ArtifactIds;
    if p > 0 {
      UniqueAt(processes[1..], p - 1);
    }
  }

  /**
   * In the completed layout two new nodes of outermost scopes, of one process or of two, are on
   * different cells, and overlap exactly when their cells and final sizes make them.
   */
  lemma OutermostOverlapIff(
      processes: seq<Process>, artifacts: seq<Artifact>, known: map<Id, Bounds>, generated: map<Id, Bounds>,
      p: nat, i: nat, q: nat, j: nat)
    requires UniqueProcesses(processes) && p <= q < |processes| && (p < q || i < j)
    requires NewAt(processes[p].elements, i, Merged(known, generated))
    requires NewAt(processes[q].elements, j, Merged(known, generated))
    ensures var before, after := Merged(known, generated), Completed(processes, artifacts, known, generated);
            var a, b := processes[p].elements[i], processes[q].elements[j];
            var k, l := OutermostSlot(processes, p, i, before), OutermostSlot(processes, q, j, before);
            && a.id.value in after && b.id.value in after && k < l
            && (Placement.Overlap(after[a.id.value], after[b.id.value]) <==>
                Cross(k, FinalSize(a, before), l, FinalSize(b, before), 180.0, 130.0))
  {
    hide SlotAt, Nested, AllNested, Placement.Overlap, OnGrid, Cross, FinalSize, ProcessSlot, UniqueProcesses, Merged,
        Completed;
    var before, after := Merged(known, generated), Completed(processes, artifacts, known, generated);
    var a, b := processes[p].elements[i], processes[q].elements[j];
    NewNodesAreNested(processes, artifacts, known, generated);
    ProcessNestedAt(processes, 0, p, before, after);
    ProcessNestedAt(processes, 0, q, before, after);
    SettledAt(processes[p].elements, None, 0, ProcessSlot(processes, 0, p, before), i, before, after);
    SettledAt(processes[q].elements, None, 0, ProcessSlot(processes, 0, q, before), j, before, after);
    OutermostSlotsRise(processes, p, i, q, j, before);
    OnGridOverlapIff(after[a.id.value], after[b.id.value], 80.0, 80.0, 180.0, 130.0,
                     OutermostSlot(processes, p, i, before), OutermostSlot(processes, q, j, before));
  }

  /** New outermost nodes that are no containers never overlap. */
  lemma OutermostNodesNeverOverlap(
      processes: seq<Process>, artifacts: seq<Artifact>, known: map<Id, Bounds>, generated: map<Id, Bounds>,
      p: nat, i: nat, q: nat, j: nat)
    requires UniqueProcesses(processes) && p <= q < |processes| && (p < q || i < j)
    requires NewAt(processes[p].elements, i, Merged(known, generated)) && !processes[p].elements[i].IsContainer()
    requires NewAt(processes[q].elements, j, Merged(known, generated)) && !processes[q].elements[j].IsContainer()
    ensures var after := Completed(processes, artifacts, known, generated);
            var a, b := processes[p].elements[i].id.value, processes[q].elements[j].id.value;
            a in after && b in after && !Placement.Overlap(after[a], after[b])
  {
    hide OutermostSlot, Placement.Overlap, Cross, SizeOf, IsTask, UniqueProcesses, Merged, Completed;
    var before := Merged(known, generated);
    OutermostOverlapIff(processes, artifacts, known, generated, p, i, q, j);
    var a, b := processes[p].elements[i], processes[q].elements[j];
    PlainSizes(a.kind);
    PlainSizes(b.kind);
    PlainCrossIff(OutermostSlot(processes, p, i, before), SizeOf(a.kind), OutermostSlot(processes, q, j, before),
                  SizeOf(b.kind), 180.0, 130.0);
  }

  /** A new outermost container, 220 wide at least, covers part of a new node on the next cell of its row. */
  lemma OutermostContainerCoversNext(
      processes: seq<Process>, artifacts: seq<Artifact>, known: map<Id, Bounds>, generated: map<Id, Bounds>,
      p: nat, i: nat, q: nat, j: nat)
    requires UniqueProcesses(processes) && p <= q < |processes| && (p < q || i < j)
    requires NewAt(processes[p].elements, i, Merged(known, generated)) && processes[p].elements[i].IsContainer()
    requires NewAt(processes[q].elements, j, Merged(known, generated))
    requires OutermostSlot(processes, p, i, Merged(known, generated)) % 3 != 2
    requires OutermostSlot(processes, q, j, Merged(known, generated))
          == OutermostSlot(processes, p, i, Merged(known, generated)) + 1
    ensures var after := Completed(processes, artifacts, known, generated);
            var a, b := processes[p].elements[i].id.value, processes[q].elements[j].id.value;
            a in after && b in after && Placement.Overlap(after[a], after[b])
  {
    hide OutermostSlot, Placement.Overlap, SizeOf, GrownSize, DirectNodes, UniqueProcesses, Merged, Completed;
    var before := Merged(known, generated);
    OutermostOverlapIff(processes, artifacts, known, generated, p, i, q, j);
    var a, b := processes[p].elements[i], processes[q].elements[j];
    NewSize(a, before);
    NewSize(b, before);
    SlotsApart(OutermostSlot(processes, p, i, before), OutermostSlot(processes, q, j, before));
  }

  /** A new shape is at least as large as its kind. */
  lemma NewSize(e: Shape, before: map<Id, Bounds>)
    requires e.Named() && e.id.value !in before
    ensures FinalSize(e, before).width > 0.0 && FinalSize(e, before).height > 0.0
    ensures e.IsContainer() ==> FinalSize(e, before).width >= 220.0 && FinalSize(e, before).height >= 140.0
  {
    hide DirectNodes;
  }

  // ---- Artifacts --------------------------------------------------------------------

  function ArtifactSize(a: Artifact): Size {
    if a.Group? then Size(320.0, 180.0) else Size(180.0, 64.0)
  }

  lemma {:induction false} ArtifactSlotsRise(artifacts: seq<Artifact>, i: nat, j: nat, before: map<Id, Bounds>)
    requires i < j < |artifacts| && NewArtifact(artifacts, i, before)
    ensures Unplaced(ArtifactIds(artifacts[..i]), before) < Unplaced(ArtifactIds(artifacts[..j]), before)
  {
    hide ArtifactIds, Unplaced;
    LaterIds(artifacts, i, j);
    FewerUnplaced(ArtifactIds(artifacts[..i]), ArtifactIds(artifacts[..j]), ArtifactId(artifacts[i]).value, before);
  }

  lemma LaterIds(artifacts: seq<Artifact>, i: nat, j: nat)
    requires i < j < |artifacts| && ArtifactId(artifacts[i]).Some?
    requires forall k :: 0 <= k < i ==> ArtifactId(artifacts[k]) != ArtifactId(artifacts[i])
    ensures ArtifactIds(artifacts[..i]) <= ArtifactIds(artifacts[..j])
    ensures ArtifactId(artifacts[i]).value in ArtifactIds(artifacts[..j]) - ArtifactIds(artifacts[..i])
  {
    assert artifacts[..j][..i] == artifacts[..i] && artifacts[..j][i] == artifacts[i];
    ArtifactIdIn(artifacts[..j], i);
  }

  lemma FewerUnplaced(few: set<Id>, many: set<Id>, id: Id, m: map<Id, Bounds>)
    requires few <= many && id in many - few && id !in m
    ensures Unplaced(few, m) < Unplaced(many, m)
  {
    hide Unplaced;
    assert few + {id} + many == many;
    UnplacedOne(id, m);
    UnplacedAdds(few, {id}, m);
    MoreUnplaced(few + {id}, many, m);
  }

  /**
   * Two new artifacts of one scope are on different cells and overlap exactly when these and their
   * sizes make them; the earlier one is then a group. None reaches into the box of its container.
   */
  lemma ArtifactsOverlapIff(
      artifacts: seq<Artifact>, box: Option<Bounds>, outer: nat, i: nat, j: nat,
      before: map<Id, Bounds>, after: map<Id, Bounds>)
    requires ArtifactsSettled(artifacts, box, outer, before, after) && i < j < |artifacts|
    requires NewArtifact(artifacts, i, before) && NewArtifact(artifacts, j, before)
    ensures var k := outer + Unplaced(ArtifactIds(artifacts[..i]), before);
            var l := outer + Unplaced(ArtifactIds(artifacts[..j]), before);
            && ArtifactId(artifacts[i]).value in after && ArtifactId(artifacts[j]).value in after && k < l
            && var a, b := after[ArtifactId(artifacts[i]).value], after[ArtifactId(artifacts[j]).value];
            && (Placement.Overlap(a, b) <==>
                Cross(k, ArtifactSize(artifacts[i]), l, ArtifactSize(artifacts[j]), 200.0, 100.0))
            && (Placement.Overlap(a, b) ==> artifacts[i].Group?)
            && (box.Some? ==> !Placement.Overlap(a, box.value) && !Placement.Overlap(b, box.value))
  {
    hide ArtifactIds, NewArtifact, Unplaced, Cross, OnGrid, Placement.Overlap;
    var k, l := outer + Unplaced(ArtifactIds(artifacts[..i]), before),
                outer + Unplaced(ArtifactIds(artifacts[..j]), before);
    ArtifactSlotsRise(artifacts, i, j, before);
    assert ArtifactSettled(artifacts[i], box, k, after) && ArtifactSettled(artifacts[j], box, l, after);
    var a, b := after[ArtifactId(artifacts[i]).value], after[ArtifactId(artifacts[j]).value];
    if box.Some? {
      var x, y := box.value.x + 24.0, box.value.y + box.value.height + 24.0;
      OnGridOverlapIff(a, b, x, y, 200.0, 100.0, k, l);
      BelowIsClear(a, box.value, x, y, k);
      BelowIsClear(b, box.value, x, y, l);
    } else {
      OnGridOverlapIff(a, b, 80.0, 500.0, 200.0, 100.0, k, l);
    }
    if !artifacts[i].Group? {
      AnnotationIsClear(k, ArtifactSize(artifacts[i]), l, ArtifactSize(artifacts[j]));
    }
  }

  lemma BelowIsClear(b: Bounds, box: Bounds, x: real, y: real, slot: nat)
    requires OnGrid(b, x, y, 200.0, 100.0, slot) && y >= box.y + box.height
    ensures !Placement.Overlap(b, box)
  {
    assert (slot / 3) as real >= 0.0;
  }

  lemma AnnotationIsClear(k: nat, a: Size, l: nat, b: Size)
    requires k < l && 0.0 < a.width <= 200.0 && 0.0 < a.height <= 100.0 && 0.0 < b.width && 0.0 < b.height
    ensures !Cross(k, a, l, b, 200.0, 100.0)
  {
    PlainCrossIff(k, a, l, b, 200.0, 100.0);
  }

  // ---- Witnesses --------------------------------------------------------------------

  /** Two tasks that are new in a container and all it holds overlap in the completed layout. */
  lemma NeighbourTasksOverlap(
      kind: Kind, first: Kind, second: Kind, c: Id, a: Id, b: Id, known: map<Id, Bounds>, generated: map<Id, Bounds>)
    requires kind in {SubProcess, Transaction, EventSubProcess, AdhocSubProcess} && IsTask(first) && IsTask(second)
    requires c != a && c != b && a != b
    requires a !in Merged(known, generated) && b !in Merged(known, generated)
    ensures var tasks := [Shape(first, Some(a), [], []), Shape(second, Some(b), [], [])];
            var after := Completed([Process([Shape(kind, Some(c), tasks, [])], [])], [], known, generated);
            a in after && b in after && Placement.Overlap(after[a], after[b])
  {
    hide SizeOf, Completed, Merged, Placement.Overlap, Nested, ArtifactsSettled, Unplaced, Takers;
    var tasks := [Shape(first, Some(a), [], []), Shape(second, Some(b), [], [])];
    var outer := Shape(kind, Some(c), tasks, []);
    var before, after := Merged(known, generated), Completed([Process([outer], [])], [], known, generated);
    TaskIsPlain(first);
    TaskIsPlain(second);
    PairIsUnique(outer);
    NewNodesAreNested([Process([outer], [])], [], known, generated);
    OnlyContent(outer, before, after);
    var frame := Frame(c, FinalSize(outer, before));
    NeighboursOverlapIff(tasks, frame, InnerSlot(outer, None, 0, before), 0, 1, before, after);
    assert tasks[1..][0] == tasks[1];
    assert SlotAt(tasks, Some(frame), 0, InnerSlot(outer, None, 0, before), 0, before) == 0;
    assert SlotAt(tasks, Some(frame), 0, InnerSlot(outer, None, 0, before), 1, before) == 1;
  }

  lemma TaskIsPlain(kind: Kind)
    requires IsTask(kind)
    ensures kind !in {SubProcess, Transaction, EventSubProcess, AdhocSubProcess}
  {
  }

  lemma OnlyContent(outer: Shape, before: map<Id, Bounds>, after: map<Id, Bounds>)
    requires outer.Named() && outer.IsContainer() && AllNested([Process([outer], [])], 0, before, after)
    ensures Nested(outer.children, Some(Frame(outer.id.value, FinalSize(outer, before))), 0,
                   InnerSlot(outer, None, 0, before), before, after)
  {
    hide FinalSize, Unplaced, Takers, ArtifactsSettled;
    assert Nested([outer], None, 0, 0, before, after);
    assert NestedOne(outer, None, 0, 0, before, after);
  }

  lemma PairIsUnique(outer: Shape)
    requires outer.Named() && outer.IsContainer() && outer.artifacts == [] && |outer.children| == 2
    requires outer.children[0].Named() && outer.children[1].Named()
    requires !outer.children[0].IsContainer() && !outer.children[1].IsContainer()
    requires outer.id != outer.children[0].id && outer.children[0].id != outer.children[1].id
    requires outer.children[1].id != outer.id
    ensures UniqueProcesses([Process([outer], [])])
  {
    var a, b := outer.children[0], outer.children[1];
    assert Ids([]) == {} && ArtifactIds([]) == {} && Unique([]);
    assert IdsIn(a) == {a.id.value} && IdsIn(b) == {b.id.value} && UniqueIn(a) && UniqueIn(b);
    assert outer.children[1..] == [b] && [b][1..] == [] && [outer][1..] == [];
    assert Ids([b]) == {b.id.value} && Ids(outer.children) == {a.id.value, b.id.value};
    assert Unique([b]) && Unique(outer.children);
    assert UniqueIn(outer) && Unique([outer]);
    assert [Process([outer], [])][1..] == [];
  }
}
