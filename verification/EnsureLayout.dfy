/**
 * Completing the shapes of a model: locations that are already known stay, and every other element
 * is put on a grid, inside its container when it has one. A container is first widened for what it
 * holds.
 */
module EnsureLayout {
  import opened Common
  import opened FlowModel
  import opened Waypoints

  datatype Artifact = Association | TextAnnotation(annotationId: Option<Id>) | Group(groupId: Option<Id>)

  /** A sequence flow, or an element with the content of its scope when it is a subprocess. */
  datatype Shape = Connector | Shape(kind: Kind, id: Option<Id>, children: seq<Shape>, artifacts: seq<Artifact>)
  {
    predicate Named() {
      Shape? && id.Some?
    }

    predicate IsContainer() {
      Shape? && kind in {SubProcess, Transaction, EventSubProcess, AdhocSubProcess}
    }
  }

  datatype Size = Size(width: real, height: real)

  function SizeOf(kind: Kind): Size {
    match kind
    case Task | UserTask | ServiceTask | CaseServiceTask | SendTask | ScriptTask | ManualTask | ReceiveTask
       | BusinessRuleTask | CallActivity => Size(140.0, 80.0)
    case StartEvent | EndEvent | IntermediateCatchEvent | IntermediateThrowEvent => Size(42.0, 42.0)
    case BoundaryEvent => Size(36.0, 36.0)
    case ExclusiveGateway | ParallelGateway | InclusiveGateway | EventBasedGateway | ComplexGateway => Size(64.0, 64.0)
    case SubProcess | Transaction | EventSubProcess | AdhocSubProcess => Size(220.0, 140.0)
    case ValuedDataObject => Size(48.0, 62.0)
  }

  /** The locations so far and the next free slot of the outermost grid. */
  datatype State = State(locations: map<Id, Bounds>, slot: nat)

  // ---- One step each ----------------------------------------------------------------

  function Max(a: real, b: real): real {
    if a >= b then a else b
  }

  function DirectNodes(elements: seq<Shape>): nat {
    if |elements| == 0 then 0 else DirectNodes(elements[..|elements| - 1]) + if elements[|elements| - 1].Shape? then 1
        else 0
  }

  /** A container's size made large enough for the grid of `n` nodes. */
  function GrownSize(size: Size, n: nat): Size {
    if n == 0 then size else
      var columns, rows := if n < 3 then n else 3, (n + 2) / 3;
      Size(Max(size.width, 48.0 + columns as real * 132.0), Max(size.height, 68.0 + rows as real * 92.0))
  }

  function Extent(b: Bounds): Size {
    Size(b.width, b.height)
  }

  function Grown(b: Bounds, n: nat): Bounds {
    var size := GrownSize(Extent(b), n);
    b.(width := size.width, height := size.height)
  }

  function Cell(parent: Option<Bounds>, slot: nat, size: Size): Bounds {
    if parent.Some? then
      Bounds(parent.value.x + 28.0 + (slot % 3) as real * 132.0, parent.value.y + 42.0 + (slot / 3) as real * 92.0,
          size.width, size.height)
    else
      Bounds(80.0 + (slot % 3) as real * 180.0, 80.0 + (slot / 3) as real * 130.0, size.width, size.height)
  }

  function ArtifactId(a: Artifact): Option<Id> {
    match a case Association => None case TextAnnotation(id) => id case Group(id) => id
  }

  function ArtifactCell(parent: Option<Bounds>, slot: nat, a: Artifact): Bounds {
    var x := if parent.Some? then parent.value.x + 24.0 else 80.0;
    var y := if parent.Some? then parent.value.y + parent.value.height + 24.0 else 500.0;
    Bounds(x + (slot % 3) as real * 200.0, y + (slot / 3) as real * 100.0,
           if a.Group? then 320.0 else 180.0, if a.Group? then 180.0 else 64.0)
  }

  function PutArtifact(a: Artifact, parent: Option<Bounds>, s: State): State {
    if ArtifactId(a).None? || ArtifactId(a).value in s.locations then s
    else State(s.locations[ArtifactId(a).value := ArtifactCell(parent, s.slot, a)], s.slot + 1)
  }

  predicate IsNew(e: Shape, s: State) {
    e.Named() && e.id.value !in s.locations
  }

  /** `e` on the next cell of its container's grid, or of the outermost one. */
  function Put(e: Shape, parent: Option<Bounds>, local: nat, s: State): State
    requires e.Named()
  {
    if !IsNew(e, s) then s
    else if parent.Some? then s.(locations := s.locations[e.id.value := Cell(parent, local, SizeOf(e.kind))])
    else State(s.locations[e.id.value := Cell(parent, s.slot, SizeOf(e.kind))], s.slot + 1)
  }

  function NextLocal(e: Shape, parent: Option<Bounds>, local: nat, s: State): nat {
    if IsNew(e, s) && parent.Some? then local + 1 else local
  }

  function GrowParent(parent: Option<Id>, n: nat, s: State): State {
    if parent.Some? && parent.value in s.locations then
      s.(locations := s.locations[parent.value := Grown(s.locations[parent.value], n)])
    else s
  }

  function BoxOf(id: Option<Id>, s: State): Option<Bounds> {
    if id.Some? && id.value in s.locations then Some(s.locations[id.value]) else None
  }

  // ---- The recursion ----------------------------------------------------------------

  function FillArtifacts(artifacts: seq<Artifact>, parent: Option<Bounds>, s: State): State {
    if |artifacts| == 0 then s else FillArtifacts(artifacts[1..], parent, PutArtifact(artifacts[0], parent, s))
  }

  function FillContent(elements: seq<Shape>, artifacts: seq<Artifact>, parentId: Option<Id>, s: State): State
    decreases elements, 1
  {
    var grown := GrowParent(parentId, DirectNodes(elements), s);
    var parent := BoxOf(parentId, grown);
    FillArtifacts(artifacts, parent, FillElements(elements, parent, 0, grown))
  }

  /** One element and what it contains. */
  function FillOne(e: Shape, parent: Option<Bounds>, local: nat, s: State): State
    decreases e, 2
  {
    if !e.Named() then s else
      var put := Put(e, parent, local, s);
      if e.IsContainer() then FillContent(e.children, e.artifacts, e.id, put) else put
  }

  function FillElements(elements: seq<Shape>, parent: Option<Bounds>, local: nat, s: State): State
    decreases elements, 0
  {
    if |elements| == 0 then s else
      FillElements(elements[1..], parent, NextLocal(elements[0], parent, local, s),
          FillOne(elements[0], parent, local, s))
  }

  // ---- The recursion as it runs -----------------------------------------------------

  method FillArtifactLayout(artifacts: seq<Artifact>, parent: Option<Bounds>, s0: State) returns (s: State)
    ensures s == FillArtifacts(artifacts, parent, s0)
  {
    hide PutArtifact;
    s := s0;
    for i := 0 to |artifacts|
      invariant FillArtifacts(artifacts[i..], parent, s) == FillArtifacts(artifacts, parent, s0)
    {
      assert artifacts[i..][0] == artifacts[i] && artifacts[i..][1..] == artifacts[i + 1..];
      s := PutArtifact(artifacts[i], parent, s);
    }
  }

  method FillContainerLayout(
      elements: seq<Shape>, artifacts: seq<Artifact>, parentId: Option<Id>, s0: State)
      returns (s: State)
    ensures s == FillContent(elements, artifacts, parentId, s0)
    decreases elements
  {
    hide Put, GrowParent, FillArtifacts, DirectNodes;
    s := GrowParent(parentId, DirectNodes(elements), s0);
    var parent := BoxOf(parentId, s);
    var local := 0;
    ghost var grown := s;
    for i := 0 to |elements|
      invariant FillElements(elements[i..], parent, local, s) == FillElements(elements, parent, 0, grown)
    {
      var e := elements[i];
      assert elements[i..][0] == e && elements[i..][1..] == elements[i + 1..];
      if !e.Named() {
        continue;
      }
      var next := NextLocal(e, parent, local, s);
      s := Put(e, parent, local, s);
      if e.IsContainer() {
        s := FillContainerLayout(e.children, e.artifacts, e.id, s);
      }
      local := next;
    }
    s := FillArtifactLayout(artifacts, parent, s);
  }

  // ---- What is placed ---------------------------------------------------------------

  function ArtifactIds(artifacts: seq<Artifact>): set<Id> {
    set a | a in artifacts && ArtifactId(a).Some? :: ArtifactId(a).value
  }

  /** The ids in a shape whose enclosing containers all have ids. */
  function IdsIn(e: Shape): set<Id>
    decreases e, 1
  {
    if !e.Named() then {}
    else if e.IsContainer() then {e.id.value} + Ids(e.children) + ArtifactIds(e.artifacts)
    else {e.id.value}
  }

  function Ids(elements: seq<Shape>): set<Id>
    decreases elements, 0
  {
    if |elements| == 0 then {} else IdsIn(elements[0]) + Ids(elements[1..])
  }

  /** Nothing located is moved or made smaller. */
  ghost predicate Kept(before: map<Id, Bounds>, after: map<Id, Bounds>) {
    forall v :: v in before ==>
      && v in after && after[v].x == before[v].x && after[v].y == before[v].y
      && after[v].width >= before[v].width && after[v].height >= before[v].height
  }

  /** Nothing outside `changed` is touched, everything in it is located. */
  ghost predicate Only(before: map<Id, Bounds>, after: map<Id, Bounds>, changed: set<Id>) {
    && after.Keys == before.Keys + changed
    && forall v :: v in before && v !in changed ==> after[v] == before[v]
  }

  lemma KeptTransitive(a: map<Id, Bounds>, b: map<Id, Bounds>, c: map<Id, Bounds>)
    requires Kept(a, b) && Kept(b, c)
    ensures Kept(a, c)
  {
  }

  lemma OnlyTransitive(a: map<Id, Bounds>, b: map<Id, Bounds>, c: map<Id, Bounds>, x: set<Id>, y: set<Id>)
    requires Only(a, b, x) && Only(b, c, y)
    ensures Only(a, c, x + y)
  {
  }

  lemma {:induction false} ArtifactsPlaced(artifacts: seq<Artifact>, parent: Option<Bounds>, s: State)
    ensures Only(s.locations, FillArtifacts(artifacts, parent, s).locations, ArtifactIds(artifacts))
    ensures forall v :: v in s.locations ==> FillArtifacts(artifacts, parent, s).locations[v] == s.locations[v]
    decreases |artifacts|
  {
    hide PutArtifact, ArtifactId;
    if |artifacts| > 0 {
      var put, rest := PutArtifact(artifacts[0], parent, s), ArtifactIds(artifacts[1..]);
      ArtifactsPlaced(artifacts[1..], parent, put);
      ArtifactPut(artifacts[0], parent, s);
      FirstArtifact(artifacts);
      hide ArtifactIds;
      OnlyTransitive(s.locations, put.locations, FillArtifacts(artifacts, parent, s).locations,
          ArtifactIds([artifacts[0]]), rest);
    }
  }

  lemma ArtifactPut(a: Artifact, parent: Option<Bounds>, s: State)
    ensures Only(s.locations, PutArtifact(a, parent, s).locations, ArtifactIds([a]))
    ensures forall v :: v in s.locations ==> PutArtifact(a, parent, s).locations[v] == s.locations[v]
  {
    hide ArtifactCell;
    assert ArtifactIds([a]) == if ArtifactId(a).Some? then {ArtifactId(a).value} else {};
  }

  lemma FirstArtifact(artifacts: seq<Artifact>)
    requires |artifacts| > 0
    ensures ArtifactIds(artifacts) == ArtifactIds([artifacts[0]]) + ArtifactIds(artifacts[1..])
  {
    hide ArtifactId;
    assert artifacts == [artifacts[0]] + artifacts[1..];
  }

  lemma GrowKeeps(parent: Option<Id>, n: nat, s: State)
    ensures Kept(s.locations, GrowParent(parent, n, s).locations)
    ensures GrowParent(parent, n, s).locations.Keys == s.locations.Keys
    ensures forall v :: v in s.locations && Some(v) != parent ==>
            GrowParent(parent, n, s).locations[v] == s.locations[v]
  {
  }

  lemma PutKeeps(e: Shape, parent: Option<Bounds>, local: nat, s: State)
    requires e.Named()
    ensures Kept(s.locations, Put(e, parent, local, s).locations)
    ensures Only(s.locations, Put(e, parent, local, s).locations, {e.id.value})
    ensures forall v :: v in s.locations ==> Put(e, parent, local, s).locations[v] == s.locations[v]
  {
    hide Cell;
  }

  /** The container's own box and the boxes of what it contains, in one. */
  function ContentIds(elements: seq<Shape>, artifacts: seq<Artifact>): set<Id> {
    Ids(elements) + ArtifactIds(artifacts)
  }

  /** Filling a scope touches its container and its content only, and keeps what was there. */
  lemma {:induction false} ContentPlaced(elements: seq<Shape>, artifacts: seq<Artifact>, parentId: Option<Id>, s: State)
    ensures Kept(s.locations, FillContent(elements, artifacts, parentId, s).locations)
    ensures FillContent(elements, artifacts, parentId, s).locations.Keys == s.locations.Keys
            + ContentIds(elements, artifacts)
    ensures forall v :: v in s.locations && Some(v) != parentId && v !in Ids(elements) ==>
              FillContent(elements, artifacts, parentId, s).locations[v] == s.locations[v]
    decreases elements, 1
  {
    hide GrowParent, DirectNodes, Ids, FillElements, FillArtifacts, ArtifactIds;
    var grown := GrowParent(parentId, DirectNodes(elements), s);
    GrowKeeps(parentId, DirectNodes(elements), s);
    var parent := BoxOf(parentId, grown);
    ElementsPlaced(elements, parent, 0, grown);
    var filled := FillElements(elements, parent, 0, grown);
    ArtifactsPlaced(artifacts, parent, filled);
    KeptTransitive(s.locations, grown.locations, filled.locations);
    KeptTransitive(s.locations, filled.locations, FillArtifacts(artifacts, parent, filled).locations);
  }

  lemma {:induction false} OnePlaced(e: Shape, parent: Option<Bounds>, local: nat, s: State)
    ensures Kept(s.locations, FillOne(e, parent, local, s).locations)
    ensures Only(s.locations, FillOne(e, parent, local, s).locations, IdsIn(e))
    decreases e, 2
  {
    hide Put, FillContent, Ids, ArtifactIds;
    if e.Named() {
      var put := Put(e, parent, local, s);
      PutKeeps(e, parent, local, s);
      if e.IsContainer() {
        ContentPlaced(e.children, e.artifacts, e.id, put);
        KeptTransitive(s.locations, put.locations, FillOne(e, parent, local, s).locations);
      }
    }
  }

  lemma {:induction false} ElementsPlaced(elements: seq<Shape>, parent: Option<Bounds>, local: nat, s: State)
    ensures Kept(s.locations, FillElements(elements, parent, local, s).locations)
    ensures Only(s.locations, FillElements(elements, parent, local, s).locations, Ids(elements))
    decreases elements, 0
  {
    hide FillOne, IdsIn;
    if |elements| > 0 {
      var one := FillOne(elements[0], parent, local, s);
      OnePlaced(elements[0], parent, local, s);
      var next := NextLocal(elements[0], parent, local, s);
      ElementsPlaced(elements[1..], parent, next, one);
      var all := FillElements(elements, parent, local, s);
      KeptTransitive(s.locations, one.locations, all.locations);
      OnlyTransitive(s.locations, one.locations, all.locations, IdsIn(elements[0]), Ids(elements[1..]));
    }
  }

  // ---- New nodes lie inside their container -----------------------------------------

  /** No id occurs twice. */
  predicate Unique(elements: seq<Shape>)
    decreases elements, 0
  {
    |elements| > 0 ==> UniqueIn(elements[0]) && IdsIn(elements[0]) !! Ids(elements[1..]) && Unique(elements[1..])
  }

  predicate UniqueIn(e: Shape)
    decreases e, 1
  {
    e.Named() && e.IsContainer() ==>
      && Unique(e.children) && Ids(e.children) !! ArtifactIds(e.artifacts)
      && e.id.value !in ContentIds(e.children, e.artifacts)
  }

  predicate Within(inner: Bounds, outer: Bounds) {
    && outer.x <= inner.x && inner.x + inner.width <= outer.x + outer.width
    && outer.y <= inner.y && inner.y + inner.height <= outer.y + outer.height
  }

  /** A container and the size it ends up with. */
  datatype Frame = Frame(id: Id, size: Size)

  /** The size an element ends up with: its own or the default one, and for a container what its content asks for. */
  function FinalSize(e: Shape, before: map<Id, Bounds>): Size
    requires e.Named()
  {
    var own := if e.id.value in before then Extent(before[e.id.value]) else SizeOf(e.kind);
    if e.IsContainer() then GrownSize(own, DirectNodes(e.children)) else own
  }

  /** A shape of this size on cell `slot` stays inside a container of that size. */
  predicate Fits(slot: nat, inner: Size, outer: Size) {
    && 28.0 + (slot % 3) as real * 132.0 + inner.width <= outer.width
    && 42.0 + (slot / 3) as real * 92.0 + inner.height <= outer.height
  }

  // ---- Slots of the outermost grid --------------------------------------------------

  /** The ids that take a slot of the outermost grid: the nodes of the outermost scope and all artifacts. */
  function Takers(elements: seq<Shape>, outermost: bool): set<Id>
    decreases elements, 0
  {
    if |elements| == 0 then {} else TakersIn(elements[0], outermost) + Takers(elements[1..], outermost)
  }

  function TakersIn(e: Shape, outermost: bool): set<Id>
    decreases e, 1
  {
    if !e.Named() then {} else
      (if outermost then {e.id.value} else {})
      + if e.IsContainer() then ContentTakers(e.children, e.artifacts, false) else {}
  }

  function ContentTakers(elements: seq<Shape>, artifacts: seq<Artifact>, outermost: bool): set<Id>
    decreases elements, 1
  {
    Takers(elements, outermost) + ArtifactIds(artifacts)
  }

  /** How many of the ids have no location. */
  function Unplaced(ids: set<Id>, m: map<Id, Bounds>): nat {
    |ids - m.Keys|
  }

  lemma UnplacedAdds(a: set<Id>, b: set<Id>, m: map<Id, Bounds>)
    requires a !! b
    ensures Unplaced(a + b, m) == Unplaced(a, m) + Unplaced(b, m)
  {
    assert a + b - m.Keys == (a - m.Keys) + (b - m.Keys);
  }

  lemma UnplacedOne(v: Id, m: map<Id, Bounds>)
    ensures Unplaced({v}, m) == if v in m then 0 else 1
  {
    assert {v} - m.Keys == if v in m then {} else {v};
  }

  lemma UnplacedSame(ids: set<Id>, m: map<Id, Bounds>, m': map<Id, Bounds>)
    requires forall v :: v in ids ==> (v in m <==> v in m')
    ensures Unplaced(ids, m) == Unplaced(ids, m')
  {
    assert ids - m.Keys == ids - m'.Keys;
  }

  lemma {:induction false} TakersCovered(elements: seq<Shape>, outermost: bool)
    ensures Takers(elements, outermost) <= Ids(elements)
    decreases elements, 0
  {
    hide IdsIn, TakersIn;
    if |elements| > 0 {
      TakersInCovered(elements[0], outermost);
      TakersCovered(elements[1..], outermost);
    }
  }

  lemma {:induction false} TakersInCovered(e: Shape, outermost: bool)
    ensures TakersIn(e, outermost) <= IdsIn(e)
    decreases e, 1
  {
    hide Ids, Takers, ArtifactIds;
    if e.Named() && e.IsContainer() {
      TakersCovered(e.children, false);
    }
  }

  lemma ArtifactSlot(a: Artifact, parent: Option<Bounds>, s: State)
    ensures PutArtifact(a, parent, s).slot == s.slot + Unplaced(ArtifactIds([a]), s.locations)
  {
    hide ArtifactCell;
    assert ArtifactIds([a]) == if ArtifactId(a).Some? then {ArtifactId(a).value} else {};
    if ArtifactId(a).Some? {
      UnplacedOne(ArtifactId(a).value, s.locations);
    }
  }

  lemma SplitAfter(a: set<Id>, b: set<Id>, k: set<Id>)
    ensures |a + b - k| == |a - k| + |b - (k + a)|
  {
    assert a + b - k == (a - k) + (b - (k + a));
  }

  /** After the first artifact as many ids are left to place as the others still need. */
  lemma UnplacedAfter(a: set<Id>, b: set<Id>, m: map<Id, Bounds>, m': map<Id, Bounds>)
    requires m'.Keys == m.Keys + a
    ensures Unplaced(a + b, m) == Unplaced(a, m) + Unplaced(b, m')
  {
    SplitAfter(a, b, m.Keys);
  }

  lemma {:induction false} ArtifactsSlot(artifacts: seq<Artifact>, parent: Option<Bounds>, s: State)
    ensures FillArtifacts(artifacts, parent, s).slot == s.slot + Unplaced(ArtifactIds(artifacts), s.locations)
    decreases |artifacts|
  {
    hide PutArtifact, ArtifactId;
    if |artifacts| > 0 {
      var put := PutArtifact(artifacts[0], parent, s);
      ArtifactsSlot(artifacts[1..], parent, put);
      ArtifactSlot(artifacts[0], parent, s);
      ArtifactPut(artifacts[0], parent, s);
      FirstArtifact(artifacts);
      UnplacedAfter(ArtifactIds([artifacts[0]]), ArtifactIds(artifacts[1..]), s.locations, put.locations);
    }
  }

  /** Filling a scope takes one slot of the outermost grid for each of its takers that has no location. */
  lemma {:induction false} ContentSlot(elements: seq<Shape>, artifacts: seq<Artifact>, parentId: Option<Id>, s: State)
    requires Unique(elements) && Ids(elements) !! ArtifactIds(artifacts)
    requires parentId.Some? ==> parentId.value in s.locations
    ensures FillContent(elements, artifacts, parentId, s).slot
         == s.slot + Unplaced(ContentTakers(elements, artifacts, parentId.None?), s.locations)
    decreases elements, 1
  {
    hide DirectNodes, Grown, Ids, Unique, FillElements, FillArtifacts, ArtifactIds, Takers, Unplaced;
    var grown := GrowParent(parentId, DirectNodes(elements), s);
    var parent := BoxOf(parentId, grown);
    var filled := FillElements(elements, parent, 0, grown);
    assert grown.slot == s.slot && grown.locations.Keys == s.locations.Keys;
    ElementsSlot(elements, parent, 0, grown);
    ElementsPlaced(elements, parent, 0, grown);
    ArtifactsSlot(artifacts, parent, filled);
    var takers, ids := Takers(elements, parentId.None?), ArtifactIds(artifacts);
    TakersCovered(elements, parentId.None?);
    UnplacedSame(takers, s.locations, grown.locations);
    UnplacedSame(ids, s.locations, filled.locations);
    UnplacedAdds(takers, ids, s.locations);
  }

  lemma {:induction false} OneSlot(e: Shape, parent: Option<Bounds>, local: nat, s: State)
    requires UniqueIn(e)
    ensures FillOne(e, parent, local, s).slot == s.slot + Unplaced(TakersIn(e, parent.None?), s.locations)
    decreases e, 2
  {
    hide Put, FillContent, ContentIds, Ids, ArtifactIds, ContentTakers, Unique, Unplaced;
    if e.Named() {
      var put, id := Put(e, parent, local, s), e.id.value;
      var own: set<Id> := if parent.None? then {id} else {};
      PutKeeps(e, parent, local, s);
      PutSlot(e, parent, local, s);
      if e.IsContainer() {
        ContentSlot(e.children, e.artifacts, e.id, put);
        var inner := ContentTakers(e.children, e.artifacts, false);
        ContentTakersCovered(e.children, e.artifacts);
        UnplacedSame(inner, s.locations, put.locations);
        UnplacedAdds(own, inner, s.locations);
        assert TakersIn(e, parent.None?) == own + inner;
      } else {
        assert TakersIn(e, parent.None?) == own;
      }
    } else {
      NoneUnplaced(s.locations);
    }
  }

  lemma PutSlot(e: Shape, parent: Option<Bounds>, local: nat, s: State)
    requires e.Named()
    ensures Put(e, parent, local, s).slot
         == s.slot + Unplaced(if parent.None? then {e.id.value} else {}, s.locations)
  {
    hide Cell, Unplaced;
    UnplacedOne(e.id.value, s.locations);
    NoneUnplaced(s.locations);
  }

  lemma ContentTakersCovered(elements: seq<Shape>, artifacts: seq<Artifact>)
    ensures ContentTakers(elements, artifacts, false) <= ContentIds(elements, artifacts)
  {
    hide Ids, Takers, ArtifactIds;
    TakersCovered(elements, false);
  }

  lemma {:induction false} ElementsSlot(elements: seq<Shape>, parent: Option<Bounds>, local: nat, s: State)
    requires Unique(elements)
    ensures FillElements(elements, parent, local, s).slot == s.slot + Unplaced(Takers(elements, parent.None?),
                                                                               s.locations)
    decreases elements, 0
  {
    hide FillOne, IdsIn, UniqueIn, TakersIn, Unplaced;
    if |elements| > 0 {
      var e, rest := elements[0], elements[1..];
      var one := FillOne(e, parent, local, s);
      OneSlot(e, parent, local, s);
      OnePlaced(e, parent, local, s);
      ElementsSlot(rest, parent, NextLocal(e, parent, local, s), one);
      TakersInCovered(e, parent.None?);
      TakersCovered(rest, parent.None?);
      UnplacedSame(Takers(rest, parent.None?), s.locations, one.locations);
      UnplacedAdds(TakersIn(e, parent.None?), Takers(rest, parent.None?), s.locations);
    } else {
      assert Unplaced({}, s.locations) == 0 by { NoneUnplaced(s.locations); }
    }
  }

  lemma NoneUnplaced(m: map<Id, Bounds>)
    ensures Unplaced({}, m) == 0
  {
    assert {} - m.Keys == {};
  }

  // ---- Where every new shape is -----------------------------------------------------

  /** The corner is on a grid of three columns that starts at `x`, `y`. */
  predicate OnGrid(b: Bounds, x: real, y: real, columnWidth: real, rowHeight: real, slot: nat) {
    b.x == x + (slot % 3) as real * columnWidth && b.y == y + (slot / 3) as real * rowHeight
  }

  function NextSlot(e: Shape, parent: Option<Frame>, slot: nat, before: map<Id, Bounds>): nat {
    if e.Named() && e.id.value !in before && parent.Some? then slot + 1 else slot
  }

  /**
   * Every shape has its final size, and one that had no location is on its cell: in a container on the one
   * that follows those of the earlier new shapes of the scope, outside on the one that follows those
   * of the earlier new shapes and artifacts. It lies inside its container exactly when its size
   * fits, and it always does unless it is itself a container. New artifacts are on a grid below
   * their container. `slot` and `outer` count shapes that had no location; locations before and
   * sizes decide alone.
   */
  ghost predicate Nested(
      elements: seq<Shape>, parent: Option<Frame>, slot: nat, outer: nat,
      before: map<Id, Bounds>, after: map<Id, Bounds>)
    decreases elements, 0
  {
    |elements| > 0 ==>
      && NestedOne(elements[0], parent, slot, outer, before, after)
      && Nested(elements[1..], parent, NextSlot(elements[0], parent, slot, before),
                outer + Unplaced(TakersIn(elements[0], parent.None?), before), before, after)
  }

  ghost predicate NestedOne(
      e: Shape, parent: Option<Frame>, slot: nat, outer: nat, before: map<Id, Bounds>, after: map<Id, Bounds>)
    decreases e, 1
  {
    e.Named() ==>
      && e.id.value in after && Extent(after[e.id.value]) == FinalSize(e, before)
      && (e.id.value !in before ==> Settled(e, parent, if parent.Some? then slot else outer, before, after))
      && (e.IsContainer() ==>
            var inner := InnerSlot(e, parent, outer, before);
            && Nested(e.children, Some(Frame(e.id.value, FinalSize(e, before))), 0, inner, before, after)
            && ArtifactsSettled(e.artifacts, Some(after[e.id.value]),
                                inner + Unplaced(Takers(e.children, false), before), before, after))
  }

  /** The next slot of the outermost grid once a container has its own cell. */
  function InnerSlot(e: Shape, parent: Option<Frame>, outer: nat, before: map<Id, Bounds>): nat
    requires e.Named()
  {
    if parent.None? && e.id.value !in before then outer + 1 else outer
  }

  ghost predicate Settled(e: Shape, parent: Option<Frame>, slot: nat, before: map<Id, Bounds>, after: map<Id, Bounds>)
    requires e.Named()
  {
    && e.id.value in after
    && (parent.None? ==> OnGrid(after[e.id.value], 80.0, 80.0, 180.0, 130.0, slot))
    && (parent.Some? ==> SettledInside(e, parent.value, slot, before, after))
  }

  ghost predicate SettledInside(e: Shape, parent: Frame, slot: nat, before: map<Id, Bounds>, after: map<Id, Bounds>)
    requires e.Named() && e.id.value in after
  {
    && parent.id in after
    && OnGrid(after[e.id.value], after[parent.id].x + 28.0, after[parent.id].y + 42.0, 132.0, 92.0, slot)
    && (Within(after[e.id.value], after[parent.id]) <==> Fits(slot, FinalSize(e, before), parent.size))
    && (!e.IsContainer() ==> Within(after[e.id.value], after[parent.id]))
  }

  /** The first artifact of its id, when that had no location. */
  ghost predicate NewArtifact(artifacts: seq<Artifact>, i: nat, before: map<Id, Bounds>)
    requires i < |artifacts|
  {
    && ArtifactId(artifacts[i]).Some? && ArtifactId(artifacts[i]).value !in before
    && forall k :: 0 <= k < i ==> ArtifactId(artifacts[k]) != ArtifactId(artifacts[i])
  }

  ghost predicate ArtifactsSettled(
      artifacts: seq<Artifact>, box: Option<Bounds>, outer: nat, before: map<Id, Bounds>, after: map<Id, Bounds>)
  {
    forall i :: 0 <= i < |artifacts| && NewArtifact(artifacts, i, before) ==>
      ArtifactSettled(artifacts[i], box, outer + Unplaced(ArtifactIds(artifacts[..i]), before), after)
  }

  ghost predicate ArtifactSettled(a: Artifact, box: Option<Bounds>, slot: nat, after: map<Id, Bounds>) {
    ArtifactId(a).Some? && ArtifactId(a).value in after &&
    var b := after[ArtifactId(a).value];
    && Extent(b) == (if a.Group? then Size(320.0, 180.0) else Size(180.0, 64.0))
    && (box.Some? ==> OnGrid(b, box.value.x + 24.0, box.value.y + box.value.height + 24.0, 200.0, 100.0, slot))
    && (box.None? ==> OnGrid(b, 80.0, 500.0, 200.0, 100.0, slot))
  }

  lemma ArtifactsSettledDepends(
      artifacts: seq<Artifact>, box: Option<Bounds>, outer: nat, before: map<Id, Bounds>, after: map<Id, Bounds>,
      before': map<Id, Bounds>, after': map<Id, Bounds>)
    requires ArtifactsSettled(artifacts, box, outer, before, after)
    requires SameOn(ArtifactIds(artifacts), before, before') && SameOn(ArtifactIds(artifacts), after, after')
    ensures ArtifactsSettled(artifacts, box, outer, before', after')
  {
    hide OnGrid, ArtifactId, ArtifactIds, Extent, Unplaced;
    forall i | 0 <= i < |artifacts| && NewArtifact(artifacts, i, before')
      ensures ArtifactSettled(artifacts[i], box, outer + Unplaced(ArtifactIds(artifacts[..i]), before'), after')
    {
      ArtifactIdIn(artifacts, i);
      UnplacedSame(ArtifactIds(artifacts[..i]), before, before');
    }
  }

  lemma ArtifactIdIn(artifacts: seq<Artifact>, i: nat)
    requires i < |artifacts|
    ensures ArtifactId(artifacts[i]).Some? ==> ArtifactId(artifacts[i]).value in ArtifactIds(artifacts)
    ensures ArtifactIds(artifacts[..i]) <= ArtifactIds(artifacts)
  {
    hide ArtifactId;
  }

  lemma ArtifactCellSettled(a: Artifact, parent: Option<Bounds>, s: State)
    requires ArtifactId(a).Some? && ArtifactId(a).value !in s.locations
    ensures ArtifactSettled(a, parent, s.slot, PutArtifact(a, parent, s).locations)
  {
  }

  lemma {:induction false} FilledArtifactSettled(artifacts: seq<Artifact>, parent: Option<Bounds>, s: State, i: nat)
    requires i < |artifacts| && NewArtifact(artifacts, i, s.locations)
    ensures ArtifactSettled(artifacts[i], parent, s.slot + Unplaced(ArtifactIds(artifacts[..i]), s.locations),
                            FillArtifacts(artifacts, parent, s).locations)
    decreases |artifacts|
  {
    hide PutArtifact, ArtifactIds, Unplaced, OnGrid, Extent;
    var put, rest := PutArtifact(artifacts[0], parent, s), artifacts[1..];
    if i == 0 {
      ArtifactCellSettled(artifacts[0], parent, s);
      ArtifactsPlaced(rest, parent, put);
      NoArtifacts();
      NoneUnplaced(s.locations);
      assert artifacts[..0] == [];
    } else {
      StillNew(artifacts, parent, s, i);
      FilledArtifactSettled(rest, parent, put, i - 1);
      ArtifactSlot(artifacts[0], parent, s);
      ArtifactPut(artifacts[0], parent, s);
      FirstArtifact(artifacts[..i]);
      assert artifacts[..i][0] == artifacts[0] && artifacts[..i][1..] == rest[..i - 1];
      UnplacedAfter(ArtifactIds([artifacts[0]]), ArtifactIds(rest[..i - 1]), s.locations, put.locations);
    }
  }

  lemma NoArtifacts()
    ensures ArtifactIds([]) == {}
  {
  }

  lemma StillNew(artifacts: seq<Artifact>, parent: Option<Bounds>, s: State, i: nat)
    requires 0 < i < |artifacts| && NewArtifact(artifacts, i, s.locations)
    ensures NewArtifact(artifacts[1..], i - 1, PutArtifact(artifacts[0], parent, s).locations)
  {
    hide ArtifactCell, ArtifactId;
  }

  lemma FilledArtifactsSettled(artifacts: seq<Artifact>, parent: Option<Bounds>, s: State)
    ensures ArtifactsSettled(artifacts, parent, s.slot, s.locations, FillArtifacts(artifacts, parent, s).locations)
  {
    hide FillArtifacts, ArtifactSettled, NewArtifact, Unplaced, ArtifactIds;
    forall i | 0 <= i < |artifacts| && NewArtifact(artifacts, i, s.locations)
      ensures ArtifactSettled(artifacts[i], parent, s.slot + Unplaced(ArtifactIds(artifacts[..i]), s.locations),
                              FillArtifacts(artifacts, parent, s).locations)
    {
      FilledArtifactSettled(artifacts, parent, s, i);
    }
  }

  /** Both maps know the same of these ids. */
  ghost predicate SameOn(ids: set<Id>, m: map<Id, Bounds>, m': map<Id, Bounds>) {
    forall v :: v in ids ==> (v in m <==> v in m') && (v in m ==> m'[v] == m[v])
  }

  /** What matters are the boxes of the shapes themselves and of the container around them. */
  lemma {:induction false} NestedDepends(
    elements: seq<Shape>, parent: Option<Frame>, slot: nat, outer: nat, before: map<Id, Bounds>,
        after: map<Id, Bounds>, before': map<Id, Bounds>, after': map<Id, Bounds>)
    requires Nested(elements, parent, slot, outer, before, after)
    requires SameOn(Ids(elements), before, before') && SameOn(Ids(elements), after, after')
    requires parent.Some? ==> SameOn({parent.value.id}, after, after')
    ensures Nested(elements, parent, slot, outer, before', after')
    decreases elements, 0
  {
    hide NestedOne, TakersIn, Unplaced, IdsIn;
    if |elements| > 0 {
      var e := elements[0];
      NestedOneDepends(e, parent, slot, outer, before, after, before', after');
      if e.Named() {
        OwnId(e);
      }
      TakersInCovered(e, parent.None?);
      var taken := TakersIn(e, parent.None?);
      UnplacedSame(taken, before, before');
      NestedDepends(elements[1..], parent, NextSlot(e, parent, slot, before), outer + Unplaced(taken, before),
                    before, after, before', after');
    }
  }

  lemma OwnId(e: Shape)
    requires e.Named()
    ensures e.id.value in IdsIn(e)
  {
  }

  lemma {:induction false} NestedOneDepends(
    e: Shape, parent: Option<Frame>, slot: nat, outer: nat, before: map<Id, Bounds>, after: map<Id, Bounds>,
    before': map<Id, Bounds>, after': map<Id, Bounds>)
    requires NestedOne(e, parent, slot, outer, before, after)
    requires SameOn(IdsIn(e), before, before') && SameOn(IdsIn(e), after, after')
    requires parent.Some? ==> SameOn({parent.value.id}, after, after')
    ensures NestedOne(e, parent, slot, outer, before', after')
    decreases e, 1
  {
    hide Within, Fits, OnGrid, Extent, SizeOf, GrownSize, DirectNodes, Unplaced, Takers, ArtifactIds, Ids,
        ArtifactsSettled, Nested;
    if e.Named() {
      OwnId(e);
      assert FinalSize(e, before') == FinalSize(e, before);
      if e.IsContainer() {
        var inner := InnerSlot(e, parent, outer, before);
        NestedDepends(e.children, Some(Frame(e.id.value, FinalSize(e, before))), 0, inner, before, after, before',
                      after');
        TakersCovered(e.children, false);
        UnplacedSame(Takers(e.children, false), before, before');
        ArtifactsSettledDepends(e.artifacts, Some(after[e.id.value]),
            inner + Unplaced(Takers(e.children, false), before),
                                before, after, before', after');
      }
    }
  }

  /** `size` is at least `own` and has room for the cells of `n` nodes and a margin. */
  ghost predicate Roomy(size: Size, own: Size, n: nat) {
    && size.width >= own.width && size.height >= own.height
    && forall slot: nat :: slot < n ==> CellInside(size, slot)
  }

  predicate CellInside(size: Size, slot: nat) {
    && 28.0 + (slot % 3 + 1) as real * 132.0 + 20.0 <= size.width
    && 42.0 + (slot / 3 + 1) as real * 92.0 + 26.0 <= size.height
  }

  /** A container is made as large as its cells need and no larger. */
  lemma GrownIsLeast(own: Size, n: nat, size: Size)
    ensures Roomy(GrownSize(own, n), own, n)
    ensures Roomy(size, own, n) ==> size.width >= GrownSize(own, n).width && size.height >= GrownSize(own, n).height
  {
    hide CellInside;
    forall slot: nat | slot < n ensures CellInside(GrownSize(own, n), slot) {
      GrownHasCell(own, n, slot);
    }
    if n > 0 && Roomy(size, own, n) {
      assert CellInside(size, n - 1) && CellInside(size, if n < 3 then n - 1 else 2);
      LastCells(own, n, size);
    }
  }

  lemma GrownHasCell(own: Size, n: nat, slot: nat)
    requires slot < n
    ensures CellInside(GrownSize(own, n), slot)
  {
    CellsInGrid(slot, n);
    var columns, rows := if n < 3 then n else 3, (n + 2) / 3;
    assert (slot % 3 + 1) as real <= columns as real && (slot / 3 + 1) as real <= rows as real;
  }

  lemma LastCells(own: Size, n: nat, size: Size)
    requires n > 0 && size.width >= own.width && size.height >= own.height
    requires CellInside(size, n - 1) && CellInside(size, if n < 3 then n - 1 else 2)
    ensures size.width >= GrownSize(own, n).width && size.height >= GrownSize(own, n).height
  {
    assert (n - 1) / 3 + 1 == (n + 2) / 3;
  }

  lemma CellsInGrid(slot: nat, n: nat)
    requires slot < n
    ensures slot % 3 + 1 <= if n < 3 then n else 3
    ensures slot / 3 + 1 <= (n + 2) / 3
  {
  }

  /** A node that is no container fits each cell of a container grown for its content. */
  lemma CellFits(own: Size, n: nat, slot: nat, kind: Kind)
    requires slot < n && kind !in {SubProcess, Transaction, EventSubProcess, AdhocSubProcess}
    ensures Fits(slot, SizeOf(kind), GrownSize(own, n))
  {
    CellsInGrid(slot, n);
    var size := SizeOf(kind);
    assert size.width <= 140.0 && size.height <= 80.0;
    hide SizeOf;
    var column, row := slot % 3, slot / 3;
    var columns, rows := if n < 3 then n else 3, (n + 2) / 3;
    assert (column + 1) as real <= columns as real && (row + 1) as real <= rows as real;
  }

  /** A box whose corner is on a cell lies inside the container exactly when it fits. */
  lemma WithinIffFits(outer: Bounds, slot: nat, size: Size, inner: Bounds)
    requires inner.x == Cell(Some(outer), slot, size).x && inner.y == Cell(Some(outer), slot, size).y
    ensures Within(inner, outer) <==> Fits(slot, Extent(inner), Extent(outer))
  {
    assert (slot % 3) as real >= 0.0 && (slot / 3) as real >= 0.0;
  }

  lemma {:induction false} FirstCounts(elements: seq<Shape>)
    requires |elements| > 0
    ensures DirectNodes(elements) == DirectNodes(elements[1..]) + if elements[0].Shape? then 1 else 0
    decreases |elements|
  {
    if |elements| > 1 {
      var front := elements[..|elements| - 1];
      FirstCounts(front);
      assert front[1..] == elements[1..][..|elements| - 2];
    }
  }

  /** A container's own box after its content has been filled in. */
  lemma ContainerBox(elements: seq<Shape>, artifacts: seq<Artifact>, id: Id, s: State)
    requires id in s.locations && id !in ContentIds(elements, artifacts)
    ensures id in FillContent(elements, artifacts, Some(id), s).locations
    ensures FillContent(elements, artifacts, Some(id), s).locations[id] == Grown(s.locations[id], DirectNodes(elements))
  {
    hide Ids, DirectNodes, FillElements, FillArtifacts, Grown;
    var grown := GrowParent(Some(id), DirectNodes(elements), s);
    var parent := BoxOf(Some(id), grown);
    ElementsPlaced(elements, parent, 0, grown);
    ArtifactsPlaced(artifacts, parent, FillElements(elements, parent, 0, grown));
  }

  /** The box an element ends up with: of its final size, and on its cell when it is new. */
  lemma FinalBox(e: Shape, parent: Option<Bounds>, local: nat, s: State)
    requires UniqueIn(e) && e.Named()
    ensures var after := FillOne(e, parent, local, s).locations;
            var cell := Cell(parent, if parent.Some? then local else s.slot, SizeOf(e.kind));
            && e.id.value in after && Extent(after[e.id.value]) == FinalSize(e, s.locations)
            && (IsNew(e, s) ==> after[e.id.value].x == cell.x && after[e.id.value].y == cell.y)
  {
    hide FillContent, DirectNodes, SizeOf, GrownSize;
    if e.IsContainer() {
      ContainerBox(e.children, e.artifacts, e.id.value, Put(e, parent, local, s));
    }
  }

  lemma CellIsOnGrid(parent: Option<Bounds>, slot: nat, size: Size, b: Bounds)
    requires b.x == Cell(parent, slot, size).x && b.y == Cell(parent, slot, size).y
    ensures parent.None? ==> OnGrid(b, 80.0, 80.0, 180.0, 130.0, slot)
    ensures parent.Some? ==> OnGrid(b, parent.value.x + 28.0, parent.value.y + 42.0, 132.0, 92.0, slot)
  {
  }

  /** The ids inside an element other than its own. */
  lemma InnerIds(e: Shape)
    requires UniqueIn(e) && e.Named() && e.IsContainer()
    ensures Ids(e.children) <= IdsIn(e) && e.id.value !in Ids(e.children)
    ensures ArtifactIds(e.artifacts) <= IdsIn(e) && e.id.value !in ArtifactIds(e.artifacts)
    ensures Unique(e.children) && Ids(e.children) !! ArtifactIds(e.artifacts)
  {
  }

  /** A new element is on its cell. */
  lemma OneSettled(e: Shape, frame: Option<Frame>, parent: Option<Bounds>, local: nat, own: Size, n: nat, s: State)
    requires UniqueIn(e) && Holds(frame, parent, own, n, s) && IsNew(e, s)
    requires frame.Some? ==> frame.value.id !in IdsIn(e) && local < n
    ensures Settled(e, frame, if frame.Some? then local else s.slot, s.locations,
                    FillOne(e, parent, local, s).locations)
  {
    hide Within, Fits, Cell, OnGrid, FillOne, DirectNodes, SizeOf, GrownSize, Unique, Ids, UniqueIn, IdsIn;
    var all, slot := FillOne(e, parent, local, s), if frame.Some? then local else s.slot;
    OnePlaced(e, parent, local, s);
    FinalBox(e, parent, local, s);
    CellIsOnGrid(parent, slot, SizeOf(e.kind), all.locations[e.id.value]);
    if frame.Some? {
      WithinIffFits(parent.value, local, SizeOf(e.kind), all.locations[e.id.value]);
      if !e.IsContainer() {
        CellFits(own, n, local, e.kind);
      }
    }
  }

  /** The content of a container after the container has been dealt with. */
  lemma {:induction false} InsideNested(e: Shape, frame: Option<Frame>, parent: Option<Bounds>, local: nat, s: State)
    requires UniqueIn(e) && e.Named() && e.IsContainer() && (frame.Some? <==> parent.Some?)
    ensures var inner, all := InnerSlot(e, frame, s.slot, s.locations), FillOne(e, parent, local, s);
            && e.id.value in all.locations
            && Nested(e.children, Some(Frame(e.id.value, FinalSize(e, s.locations))), 0, inner, s.locations,
                      all.locations)
            && ArtifactsSettled(e.artifacts, Some(all.locations[e.id.value]),
                                inner + Unplaced(Takers(e.children, false), s.locations), s.locations, all.locations)
    decreases e, 1
  {
    hide Cell, FillContent, DirectNodes, SizeOf, GrownSize, Unique, Nested, Ids, ArtifactsSettled, Takers, Unplaced,
        ArtifactIds, UniqueIn, IdsIn, FinalSize;
    var put, all := Put(e, parent, local, s), FillOne(e, parent, local, s);
    var inner, id := InnerSlot(e, frame, s.slot, s.locations), e.id.value;
    PutKeeps(e, parent, local, s);
    InnerIds(e);
    FinalSizeAfterPut(e, parent, local, s);
    ContentPlaced(e.children, e.artifacts, e.id, put);
    var frame' := Some(Frame(id, FinalSize(e, s.locations)));
    assert put.slot == inner;
    ContentNested(e.children, e.artifacts, frame', put);
    NestedDepends(e.children, frame', 0, inner, put.locations, all.locations, s.locations, all.locations);
    TakersCovered(e.children, false);
    UnplacedSame(Takers(e.children, false), s.locations, put.locations);
    ArtifactsSettledDepends(e.artifacts, Some(all.locations[id]),
                            inner + Unplaced(Takers(e.children, false), s.locations),
                            put.locations, all.locations, s.locations, all.locations);
  }

  /** The element's own box, and its content, after the element has been dealt with. */
  lemma {:induction false} OneNested(
      e: Shape, frame: Option<Frame>, parent: Option<Bounds>, local: nat, own: Size, n: nat, s: State)
    requires UniqueIn(e) && Holds(frame, parent, own, n, s)
    requires frame.Some? ==> frame.value.id !in IdsIn(e) && (e.Shape? ==> local < n)
    ensures NestedOne(e, frame, local, s.slot, s.locations, FillOne(e, parent, local, s).locations)
    decreases e, 2
  {
    hide Settled, Cell, FillOne, FillContent, DirectNodes, SizeOf, GrownSize, Unique, Nested, Ids, ArtifactsSettled,
        FinalSize, Takers, Unplaced, UniqueIn, IdsIn;
    if e.Named() {
      FinalBox(e, parent, local, s);
      if IsNew(e, s) {
        OneSettled(e, frame, parent, local, own, n, s);
      }
      if e.IsContainer() {
        InsideNested(e, frame, parent, local, s);
      }
    }
  }

  lemma FinalSizeAfterPut(e: Shape, parent: Option<Bounds>, local: nat, s: State)
    requires e.Named() && e.IsContainer()
    ensures var put := Put(e, parent, local, s);
            && e.id.value in put.locations
            && FinalSize(e, s.locations) == GrownSize(Extent(put.locations[e.id.value]), DirectNodes(e.children))
  {
    hide GrownSize, DirectNodes, SizeOf;
  }

  /** `parent` is the box of the container in `frame`, which was grown from `own` for `n` nodes. */
  ghost predicate Holds(frame: Option<Frame>, parent: Option<Bounds>, own: Size, n: nat, s: State) {
    && (frame.Some? <==> parent.Some?)
    && (frame.Some? ==>
          && frame.value.id in s.locations && parent == Some(s.locations[frame.value.id])
          && frame.value.size == Extent(parent.value) && frame.value.size == GrownSize(own, n))
  }

  lemma {:induction false} ContentNested(elements: seq<Shape>, artifacts: seq<Artifact>, frame: Option<Frame>, s: State)
    requires Unique(elements) && Ids(elements) !! ArtifactIds(artifacts)
    requires frame.Some? ==> && frame.value.id in s.locations && frame.value.id !in ContentIds(elements, artifacts)
                             && frame.value.size == GrownSize(Extent(s.locations[frame.value.id]),
                                 DirectNodes(elements))
    ensures var parentId := if frame.Some? then Some(frame.value.id) else None;
            var after := FillContent(elements, artifacts, parentId, s);
            && Nested(elements, frame, 0, s.slot, s.locations, after.locations)
            && ArtifactsSettled(artifacts, BoxOf(parentId, after),
                                s.slot + Unplaced(Takers(elements, frame.None?), s.locations), s.locations,
                                after.locations)
    decreases elements, 1
  {
    hide Ids, Unique, Nested, DirectNodes, FillElements, FillArtifacts, GrownSize, ArtifactIds, Takers, Unplaced,
        ArtifactsSettled;
    var parentId := if frame.Some? then Some(frame.value.id) else None;
    var n := DirectNodes(elements);
    var grown := GrowParent(parentId, n, s);
    GrowKeeps(parentId, n, s);
    var parent := BoxOf(parentId, grown);
    var own := if frame.Some? then Extent(s.locations[frame.value.id]) else Size(0.0, 0.0);
    assert grown.slot == s.slot;
    ElementsNested(elements, frame, parent, 0, own, n, grown);
    var filled := FillElements(elements, parent, 0, grown);
    var after := FillArtifacts(artifacts, parent, filled);
    ElementsPlaced(elements, parent, 0, grown);
    ArtifactsPlaced(artifacts, parent, filled);
    NestedDepends(elements, frame, 0, s.slot, grown.locations, filled.locations, s.locations, after.locations);
    ElementsSlot(elements, parent, 0, grown);
    UnplacedSame(Takers(elements, frame.None?), s.locations, grown.locations);
    FilledArtifactsSettled(artifacts, parent, filled);
    assert BoxOf(parentId, after) == parent;
    ArtifactsSettledDepends(artifacts, parent, filled.slot, filled.locations, after.locations, s.locations,
                            after.locations);
  }

  lemma {:induction false} ElementsNested(
    elements: seq<Shape>, frame: Option<Frame>, parent: Option<Bounds>, local: nat, own: Size, n: nat, s: State)
    requires Unique(elements) && Holds(frame, parent, own, n, s)
    requires frame.Some? ==> frame.value.id !in Ids(elements) && local + DirectNodes(elements) <= n
    ensures Nested(elements, frame, local, s.slot, s.locations, FillElements(elements, parent, local, s).locations)
    decreases elements, 0
  {
    hide FillOne, IdsIn, NestedOne, UniqueIn, DirectNodes, GrownSize, TakersIn, Unplaced;
    if |elements| > 0 {
      var e, rest := elements[0], elements[1..];
      FirstCounts(elements);
      var one, next := FillOne(e, parent, local, s), NextLocal(e, parent, local, s);
      var all := FillElements(elements, parent, local, s);
      assert next == NextSlot(e, frame, local, s.locations);
      OneNested(e, frame, parent, local, own, n, s);
      OnePlaced(e, parent, local, s);
      OneSlot(e, parent, local, s);
      ElementsNested(rest, frame, parent, next, own, n, one);
      ElementsPlaced(rest, parent, next, one);
      NestedOneDepends(e, frame, local, s.slot, s.locations, one.locations, s.locations, all.locations);
      NestedDepends(rest, frame, next, one.slot, one.locations, all.locations, s.locations, all.locations);
    }
  }

  // ---- The whole model --------------------------------------------------------------

  datatype Process = Process(elements: seq<Shape>, artifacts: seq<Artifact>)

  function FillProcesses(processes: seq<Process>, s: State): State {
    if |processes| == 0 then s
    else FillProcesses(processes[1..], FillContent(processes[0].elements, processes[0].artifacts, None, s))
  }

  /** Known locations win over generated ones. */
  function Merged(known: map<Id, Bounds>, generated: map<Id, Bounds>): map<Id, Bounds> {
    generated + known
  }

  function Completed(
      processes: seq<Process>, artifacts: seq<Artifact>, known: map<Id, Bounds>, generated: map<Id, Bounds>)
      : map<Id, Bounds>
  {
    FillArtifacts(artifacts, None, FillProcesses(processes, State(Merged(known, generated), 0))).locations
  }

  /** The model's location map, given the one the automatic layout of the main process produced. */
  method CompleteLayout(
      processes: seq<Process>, artifacts: seq<Artifact>, known: map<Id, Bounds>, generated: map<Id, Bounds>)
    returns (locations: map<Id, Bounds>)
    ensures locations == Completed(processes, artifacts, known, generated)
  {
    hide FillContent, FillArtifacts;
    var s := State(Merged(known, generated), 0);
    ghost var s0 := s;
    for i := 0 to |processes|
      invariant FillProcesses(processes[i..], s) == FillProcesses(processes, s0)
    {
      assert processes[i..][0] == processes[i] && processes[i..][1..] == processes[i + 1..];
      s := FillContainerLayout(processes[i].elements, processes[i].artifacts, None, s);
    }
    s := FillArtifactLayout(artifacts, None, s);
    locations := s.locations;
  }

  function ProcessIds(processes: seq<Process>): set<Id> {
    if |processes| == 0 then {}
    else ContentIds(processes[0].elements, processes[0].artifacts) + ProcessIds(processes[1..])
  }

  predicate UniqueProcesses(processes: seq<Process>) {
    |processes| > 0 ==>
      && Unique(processes[0].elements) && Ids(processes[0].elements) !! ArtifactIds(processes[0].artifacts)
      && ContentIds(processes[0].elements, processes[0].artifacts) !! ProcessIds(processes[1..])
      && UniqueProcesses(processes[1..])
  }

  /** Everything new is where its place in the document puts it, `outer` slots being taken already. */
  ghost predicate AllNested(processes: seq<Process>, outer: nat, before: map<Id, Bounds>, after: map<Id, Bounds>) {
    |processes| > 0 ==>
      var elements, artifacts := processes[0].elements, processes[0].artifacts;
      && Nested(elements, None, 0, outer, before, after)
      && ArtifactsSettled(artifacts, None, outer + Unplaced(Takers(elements, true), before), before, after)
      && AllNested(processes[1..], outer + Unplaced(ContentTakers(elements, artifacts, true), before), before, after)
  }

  /** The ids that take a slot of the outermost grid. */
  function ProcessTakers(processes: seq<Process>): set<Id> {
    if |processes| == 0 then {}
    else ContentTakers(processes[0].elements, processes[0].artifacts, true) + ProcessTakers(processes[1..])
  }

  lemma {:induction false} ProcessesPlaced(processes: seq<Process>, s: State)
    ensures Kept(s.locations, FillProcesses(processes, s).locations)
    ensures Only(s.locations, FillProcesses(processes, s).locations, ProcessIds(processes))
    decreases |processes|
  {
    hide FillContent, ContentIds;
    if |processes| > 0 {
      var p := processes[0];
      var one, all := FillContent(p.elements, p.artifacts, None, s), FillProcesses(processes, s);
      ContentPlaced(p.elements, p.artifacts, None, s);
      ContentCovers(p.elements, p.artifacts);
      assert Only(s.locations, one.locations, ContentIds(p.elements, p.artifacts));
      ProcessesPlaced(processes[1..], one);
      KeptTransitive(s.locations, one.locations, all.locations);
      OnlyTransitive(s.locations, one.locations, all.locations, ContentIds(p.elements, p.artifacts),
          ProcessIds(processes[1..]));
    }
  }

  lemma ContentCovers(elements: seq<Shape>, artifacts: seq<Artifact>)
    ensures Ids(elements) <= ContentIds(elements, artifacts)
  {
  }

  lemma {:induction false} AllNestedDepends(
    processes: seq<Process>, outer: nat, before: map<Id, Bounds>, after: map<Id, Bounds>, before': map<Id, Bounds>,
        after': map<Id, Bounds>)
    requires AllNested(processes, outer, before, after)
    requires SameOn(ProcessIds(processes), before, before') && SameOn(ProcessIds(processes), after, after')
    ensures AllNested(processes, outer, before', after')
    decreases |processes|
  {
    hide Nested, ArtifactsSettled, Unplaced, Takers, Ids, ArtifactIds;
    if |processes| > 0 {
      var elements, artifacts := processes[0].elements, processes[0].artifacts;
      TakersCovered(elements, true);
      var takers, all := Takers(elements, true), ContentTakers(elements, artifacts, true);
      NestedDepends(elements, None, 0, outer, before, after, before', after');
      UnplacedSame(takers, before, before');
      UnplacedSame(all, before, before');
      ArtifactsSettledDepends(artifacts, None, outer + Unplaced(takers, before), before, after, before', after');
      AllNestedDepends(processes[1..], outer + Unplaced(all, before), before, after, before', after');
    }
  }

  lemma {:induction false} ProcessesNested(processes: seq<Process>, s: State)
    requires UniqueProcesses(processes)
    ensures AllNested(processes, s.slot, s.locations, FillProcesses(processes, s).locations)
    ensures FillProcesses(processes, s).slot == s.slot + Unplaced(ProcessTakers(processes), s.locations)
    decreases |processes|
  {
    hide FillContent, Nested, Unique, Unplaced, Takers, Ids, ArtifactIds, ArtifactsSettled;
    if |processes| > 0 {
      var p, rest := processes[0], processes[1..];
      var one, all := FillContent(p.elements, p.artifacts, None, s), FillProcesses(processes, s);
      ContentNested(p.elements, p.artifacts, None, s);
      ContentPlaced(p.elements, p.artifacts, None, s);
      ContentSlot(p.elements, p.artifacts, None, s);
      ProcessesPlaced(rest, one);
      NestedDepends(p.elements, None, 0, s.slot, s.locations, one.locations, s.locations, all.locations);
      ArtifactsSettledDepends(p.artifacts, None, s.slot + Unplaced(Takers(p.elements, true), s.locations),
                              s.locations, one.locations, s.locations, all.locations);
      ProcessesNested(rest, one);
      AllNestedDepends(rest, one.slot, one.locations, all.locations, s.locations, all.locations);
      TakersCovered(p.elements, true);
      ProcessTakersCovered(rest);
      UnplacedSame(ProcessTakers(rest), s.locations, one.locations);
      UnplacedAdds(ContentTakers(p.elements, p.artifacts, true), ProcessTakers(rest), s.locations);
    } else {
      NoneUnplaced(s.locations);
    }
  }

  lemma {:induction false} ProcessTakersCovered(processes: seq<Process>)
    ensures ProcessTakers(processes) <= ProcessIds(processes)
    decreases |processes|
  {
    hide Takers, Ids, ArtifactIds;
    if |processes| > 0 {
      TakersCovered(processes[0].elements, true);
      ProcessTakersCovered(processes[1..]);
    }
  }

  /**
   * Completing a layout moves and shrinks nothing that had a location, and afterwards exactly the
   * shapes that had one, that the automatic layout placed, or that can be reached through named
   * containers have one.
   */
  lemma LayoutIsKeptAndComplete(
      processes: seq<Process>, artifacts: seq<Artifact>, known: map<Id, Bounds>, generated: map<Id, Bounds>)
    ensures Kept(known, Completed(processes, artifacts, known, generated))
    ensures Completed(processes, artifacts, known, generated).Keys
         == known.Keys + generated.Keys + ProcessIds(processes) + ArtifactIds(artifacts)
  {
    hide FillProcesses, FillArtifacts, ProcessIds, ArtifactIds;
    var s := State(Merged(known, generated), 0);
    ProcessesPlaced(processes, s);
    var filled := FillProcesses(processes, s);
    ArtifactsPlaced(artifacts, None, filled);
    assert Kept(known, s.locations);
    KeptTransitive(known, s.locations, filled.locations);
  }

  /**
   * With unique ids, everything that had no location is on the cell its place in the document gives
   * it, with its final size. A new node that is no container lies inside its container's final box,
   * a new container does exactly when its size fits, and artifacts are below their container.
   */
  lemma NewNodesAreNested(
      processes: seq<Process>, artifacts: seq<Artifact>, known: map<Id, Bounds>, generated: map<Id, Bounds>)
    requires UniqueProcesses(processes)
    ensures AllNested(processes, 0, Merged(known, generated), Completed(processes, artifacts, known, generated))
    ensures ProcessIds(processes) !! ArtifactIds(artifacts) ==>
              ArtifactsSettled(artifacts, None, Unplaced(ProcessTakers(processes), Merged(known, generated)),
                               Merged(known, generated), Completed(processes, artifacts, known, generated))
  {
    hide FillProcesses, FillArtifacts, AllNested, ArtifactsSettled, ArtifactIds, ProcessIds, Unplaced;
    var s := State(Merged(known, generated), 0);
    ProcessesNested(processes, s);
    ProcessesPlaced(processes, s);
    var filled := FillProcesses(processes, s);
    var after := Completed(processes, artifacts, known, generated);
    ArtifactsPlaced(artifacts, None, filled);
    AllNestedDepends(processes, 0, s.locations, filled.locations, s.locations, after);
    FilledArtifactsSettled(artifacts, None, filled);
    if ProcessIds(processes) !! ArtifactIds(artifacts) {
      ArtifactsSettledDepends(artifacts, None, filled.slot, filled.locations, after, s.locations, after);
    }
  }

  /** A subprocess alone in a container fits exactly when the container was large enough beforehand. */
  lemma LoneContainerFitsIff(own: Size)
    ensures Fits(0, SizeOf(SubProcess), GrownSize(own, 1)) <==> own.width >= 248.0 && own.height >= 182.0
  {
  }

  /**
   * In the completed layout a container encloses the one new container that is all it holds exactly
   * when it was at least 248 by 182 beforehand. One that is new itself, or was placed at 200 by 120
   * by the automatic layout, is not.
   */
  lemma ContainerSticksOut(outer: Kind, inner: Kind, p: Id, c: Id, known: map<Id, Bounds>, generated: map<Id, Bounds>)
    requires p != c && c !in known && c !in generated
    requires {outer, inner} <= {SubProcess, Transaction, EventSubProcess, AdhocSubProcess}
    ensures var nested := Shape(outer, Some(p), [Shape(inner, Some(c), [], [])], []);
            var before, after := Merged(known, generated), Completed([Process([nested], [])], [], known, generated);
            var own := if p in before then Extent(before[p]) else Size(220.0, 140.0);
            p in after && c in after && (Within(after[c], after[p]) <==> own.width >= 248.0 && own.height >= 182.0)
  {
    hide *;
    var child := Shape(inner, Some(c), [], []);
    var nested := Shape(outer, Some(p), [child], []);
    var processes := [Process([nested], [])];
    var before, after := Merged(known, generated), Completed(processes, [], known, generated);
    MergedKeys(known, generated);
    ContainerKinds(nested);
    ContainerKinds(child);
    LonePair(nested, child);
    NewNodesAreNested(processes, [], known, generated);
    LoneInside(nested, child, before, after);
    SettledInsideMeans(child, Frame(p, FinalSize(nested, before)), 0, before, after);
    ContainerFinalSize(nested, before);
    ChildlessSize(child, before);
    LoneContainerFitsIff(if p in before then Extent(before[p]) else Size(220.0, 140.0));
  }

  lemma MergedKeys(known: map<Id, Bounds>, generated: map<Id, Bounds>)
    ensures Merged(known, generated).Keys == known.Keys + generated.Keys
  {
  }

  lemma ContainerKinds(e: Shape)
    requires e.Shape? && e.kind in {SubProcess, Transaction, EventSubProcess, AdhocSubProcess}
    ensures e.IsContainer() && (e.id.Some? ==> e.Named()) && SizeOf(e.kind) == SizeOf(SubProcess) == Size(220.0, 140.0)
  {
  }

  lemma SettledInsideMeans(e: Shape, parent: Frame, slot: nat, before: map<Id, Bounds>, after: map<Id, Bounds>)
    requires e.Named() && e.id.value in after && SettledInside(e, parent, slot, before, after)
    ensures parent.id in after
    ensures Within(after[e.id.value], after[parent.id]) <==> Fits(slot, FinalSize(e, before), parent.size)
  {
    hide Within, Fits, FinalSize, OnGrid;
  }

  lemma ContainerFinalSize(e: Shape, before: map<Id, Bounds>)
    requires e.Named() && e.IsContainer()
    ensures FinalSize(e, before)
         == GrownSize(if e.id.value in before then Extent(before[e.id.value]) else SizeOf(e.kind),
                      DirectNodes(e.children))
  {
    hide GrownSize, DirectNodes, SizeOf;
  }

  lemma LoneInside(outer: Shape, inner: Shape, before: map<Id, Bounds>, after: map<Id, Bounds>)
    requires outer.Named() && outer.IsContainer() && outer.children == [inner]
    requires inner.Named() && inner.id.value !in before
    requires AllNested([Process([outer], [])], 0, before, after)
    ensures inner.id.value in after
    ensures SettledInside(inner, Frame(outer.id.value, FinalSize(outer, before)), 0, before, after)
  {
    hide SettledInside, FinalSize, Unplaced, Takers, ArtifactsSettled;
    assert Nested([outer], None, 0, 0, before, after);
    assert NestedOne(outer, None, 0, 0, before, after);
    var frame, slot := Some(Frame(outer.id.value, FinalSize(outer, before))), InnerSlot(outer, None, 0, before);
    assert Nested([inner], frame, 0, slot, before, after);
    assert NestedOne(inner, frame, 0, slot, before, after);
  }

  lemma ChildlessSize(e: Shape, before: map<Id, Bounds>)
    requires e.Named() && e.children == [] && e.id.value !in before
    ensures FinalSize(e, before) == SizeOf(e.kind)
  {
    hide SizeOf;
  }

  lemma LonePair(outer: Shape, inner: Shape)
    requires outer.Named() && inner.Named() && outer.id != inner.id && outer.IsContainer() && inner.IsContainer()
    requires outer.children == [inner] && outer.artifacts == [] && inner.children == [] && inner.artifacts == []
    ensures UniqueProcesses([Process([outer], [])])
    ensures DirectNodes(outer.children) == 1 && DirectNodes(inner.children) == 0
  {
    assert Ids([]) == {} && ArtifactIds([]) == {};
    assert [inner][1..] == [] && [inner][..0] == [] && [outer][1..] == [];
    assert IdsIn(inner) == {inner.id.value};
    assert Ids([inner]) == {inner.id.value};
    assert Unique([]) && UniqueIn(inner) && Unique([inner]) && UniqueIn(outer) && Unique([outer]);
    assert [Process([outer], [])][1..] == [];
  }
}
