# Verified core of flowable-rust

A Dafny model of the parts of flowable-rust where correctness depends on a whole algorithm, a whole
document or a whole run, with proofs. `dafny verify dfyconfig.toml` checks everything.

What is proved, component by component:

* **Automatic layout** (`FlowGraph`, `Layering`, `Placement`, `Lanes`, `Waypoints`). The queue-based
  layering of any sequence-flow multigraph ends; a node it places gets the length of the longest path
  leading to it, the nodes it leaves over are exactly those a cycle can reach, and the fallback pass
  leaves no gap between layers. Rows rank a column by barycenter. Boxes overlap exactly when a
  200-wide subprocess is followed by a node in its row. After the move into lanes two nodes overlap
  exactly when they end up in one row with columns that meet; among nodes in lanes the move creates
  no overlap, and lanes become disjoint bands in declaration order. Routes are rectilinear from
  source to target with no superfluous point.
* **Completing layouts** (`EnsureLayout`, `LayoutOverlap`). Nothing located is moved or shrunk, exactly
  the reachable shapes get a location, and each new one is on the cell its place in the document gives
  it. New nodes lie inside their container, new containers do exactly when their size fits, and when
  two new shapes of a scope overlap is exact.
* **BPMN conversion** (`Nesting`, `ExtensionXml`, `ExtensionRoundTrip`, `ExtensionShape`,
  `ExtensionStreams`, `ExtensionContent`, `FlowModel`, `FlowWiring`, `ElementIndex`, `PostProcessing`).
  The validator accepts exactly the streams that serialise a forest with matching names and at most
  512 nested start tags, its errors say what is wrong first, and no accepted document is cut off by
  the later depth guards. What is read of an extension element is its direct texts, children and
  attributes in stream order. Extension elements
  survive writing and reading exactly when they have the shape the parser produces, their texts are
  kept and they are faithful:
  within an element a prefix means one thing, and a binding met before or given by the scope is
  still in force wherever it is used again. After both passes every node, at every depth, has exactly
  the flows and boundary events of its scope that name it, and the id maps hold exactly the finished
  elements.
* **App engine** (`AppStore`, `AppCache`, `AppRepository`, `AppProtocol`, `AppStaleness`,
  `AppConvert`). Versions rise in every run and every stored entry is its item's own; the cache drops
  what was unused for longest and has the inclusion property; in every interleaving each cached entry
  is a genuine committed version with the deployed composition; in every serial run resolving equals
  loading, and a run can lead to a stale entry
  exactly when some commit changes a row that a running task will still insert. Conversion to the
  canonical model and back normalises, conserves references and keeps what they resolve to, and which
  definition a reference means is exact.
* **CMMN** (`CaseFile`, `Correlation`, and the CMMN half of `Nesting`). The path-prefix test of a case
  file is ancestry, and the walk up from an item ends exactly when it is over after as many steps as
  there are items; the bitmask loop is a bijection onto the non-empty sub-maps, and the key text
  determines the parameters where the separators are kept apart.

XML is a stream of events, the store a value that changes in one step per commit, coordinates are
exact reals. Loops and in-place updates of the program are methods with invariants, each proved equal
to a recursive specification function; the lemmas are about those functions. Objects the program
mutates (`AppDefinitionCache`, `AppRepositoryService`, `XmlWriter`, `XmlReader`, `CaseFileGraph`) are
classes.

## Findings

Properties that fail in the program as it is. Each has a witness and a lemma saying exactly when the
property holds.

* A prefix bound to one namespace, then to another and then to the first again is written without the
  third declaration, because the writer's scope test is list membership: `ReturningPrefixIsMisread`.
  Exactly the faithful elements with kept texts survive: `RoundTripIff`, `AnyRoundTripIff`.
* Between characters that are not white space, a carriage return right before a two-character line
  end makes another one, which the next reading joins again (`LineEndsAreJoinedTwice`), so an element
  read with such a text is not given back (`UnstableTextIsMisread`). At the edge of a text the same
  characters are trimmed away. A text is stable exactly when it has none in its middle
  (`StableTextIff`), and what was read survives exactly when its texts are stable and it is faithful
  (`ReadElementRoundTripIff`).
* A task that read or committed a row can insert it after the row was deleted or changed, leaving a
  stale entry: `DeletionInWindowLeavesStale`. A run can lead to one exactly when a commit disturbs a
  running task: `UndisturbedIffNeverStale`.
* A lookup without a tenant also sees the empty tenant, which versioning counts separately, so it can
  miss the definition deployed last: `TenantlessLookupCanMiss`, `TenantlessIsLastDeployedIff`.
* The descendants of an unknown case-file item are all items (`UnknownIdHasAllDescendants`), an id
  with a slash is taken for a child (`SlashIdIsMistaken`); known items and slash-free ids are exact
  (`DescendantsAreTransitiveChildren`, `EveryRunIsBuilt`). Two items that are each other's parent pass
  validation although the ancestry walk between them never ends (`CyclePassesValidation`); it ends
  exactly when it meets no item twice, which shows within as many steps as there are items
  (`WalkEndsIff`, `WalkEndsIffNoRepeat`).
* A subprocess covers part of the node its flow leads to, whatever that is (`SubProcessCoversNext`);
  `NodesOverlapIff` is exact and without subprocesses nothing overlaps (`NarrowNodesNeverOverlap`).
* A node in no lane can be covered by one that is moved: `UnlanedNodeIsCovered`. When two nodes
  overlap after the move is exact for all lanes: `ShiftedNodesOverlapIff`.
* A route that runs out and back along one line keeps a repeated point: `OutAndBackRepeats`,
  `CleanIffNoReturn`. No sequence-flow route does.
* A container placed in another can stick out of it. It lies inside exactly when its size fits
  (`NewNodesAreNested`); alone in its container, exactly when that was at least 248 by 182
  (`ContainerSticksOut`), which neither a new one nor one placed automatically at 200 by 120 is.
* Two tasks placed side by side in a container overlap, because its columns are 132 wide and tasks 140
  (`NeighbourTasksOverlap`); no other new nodes in it do (`NeighboursOverlapIff`). In the outermost grid
  a new container covers part of the next new node of its row (`OutermostContainerCoversNext`), and
  other new nodes never overlap (`OutermostNodesNeverOverlap`); `OutermostOverlapIff` is exact.
* Different correlation parameters can have one key text: through `=` in a key, `;` in a value
  (`EqualsSignIsAmbiguous`, `SemicolonIsAmbiguous`) or a missing value for an empty one
  (`MissingReadsEmpty`). Without such characters only the last is possible: `TextDeterminesIff`.
* From 59 to 63 event parameters the request for room for all keys panics, although a comment promises
  that none does: `CapacityOverflowsIff`.
* A comment in the conversion to the canonical model says page metadata stays on the first reference
  of a flattened page; in the code every reference of the page inherits the missing name and
  description, which is what the model does.

## Model

| member | source | states |
|---|---|---|
| `FlowGraph.CollectProcessGraph` | modules/flowable-bpmn-layout/src/auto_layout.rs:162-275 | succeeds exactly when all ids and references are present, there is a node, and every flow joins two nodes; the result is the graph of the elements: its nodes are the flow-node elements with their kind and place, and u precedes v as often as there are sequence-flow ids whose deciding element leads from u to v; otherwise the error is that of the first incomplete element, of missing nodes, or of the first flow with an unknown end |
| `FlowGraph.LinkFlows` | modules/flowable-bpmn-layout/src/auto_layout.rs:237-267 | fails at the first flow that names an unknown end, with the error of that end; otherwise predecessor and successor lists hold each flow once, in flow order |
| `FlowGraph.NodesOfIds` | modules/flowable-bpmn-layout/src/auto_layout.rs:220-229 | nodes are the flow-node elements' ids, each once |
| `FlowGraph.CollectedIsGraphOf` | modules/flowable-bpmn-layout/src/auto_layout.rs:220-229 | in terms of the elements alone: which nodes there are, with kind and source index, and how often each ordered pair of nodes is joined |
| `FlowGraph.EndpointsKnownIff` | modules/flowable-bpmn-layout/src/auto_layout.rs:242-257 | the flow ends are known exactly when every deciding sequence-flow element leads from a flow node to a flow node |
| `Layering.BothEndsCountTheSame` | modules/flowable-bpmn-layout/src/auto_layout.rs:258-266 | parallel flows are seen equally often from both ends |
| `Layering.ReleaseSuccessors` | modules/flowable-bpmn-layout/src/auto_layout.rs:1117-1130 | in-degrees stay the number of unlayered predecessors and the queue holds exactly the ready nodes, each once |
| `Layering.LayerFirst` | modules/flowable-bpmn-layout/src/auto_layout.rs:1103-1131 | one turn of the queue layers a new node and keeps the queue invariant |
| `Layering.KahnPass` | modules/flowable-bpmn-layout/src/auto_layout.rs:1079-1132 | the queue loop ends, pops each node at most once, layers nodes just above their highest predecessor and leaves only nodes waiting for one another |
| `Layering.SettledIsLongestPath` | modules/flowable-bpmn-layout/src/auto_layout.rs:1103-1117 | a layered node's layer is the length of the longest path ending at it |
| `Layering.LeftOverIffReachableFromCycle` | modules/flowable-bpmn-layout/src/auto_layout.rs:1103-1134 | the nodes the queue leaves over are exactly those reachable from a cycle, self-loops included |
| `Layering.FallbackPass` | modules/flowable-bpmn-layout/src/auto_layout.rs:1134-1159 | every leftover node is layered from the settled nodes and the leftovers before it in source order, nothing settled changes, no gap appears |
| `Layering.ComputeLayers` | modules/flowable-bpmn-layout/src/auto_layout.rs:1079-1160 | the layer map described without queues: longest paths off the cycles, above the visible predecessors elsewhere, without gaps |
| `Layering.LayersAreDense` | modules/flowable-bpmn-layout/src/auto_layout.rs:1134-1159 | the layers used are 0 to m with no gap and m is below the number of nodes |
| `Layering.FlowsRiseIffAcyclic` | modules/flowable-bpmn-layout/src/auto_layout.rs:1079-1160 | every flow goes to a strictly higher layer exactly when the graph has no cycle |
| `Layering.HasFlowIff` | modules/flowable-bpmn-layout/src/auto_layout.rs:258-266 | the graph joins u to v exactly when some deciding sequence-flow element has source u and target v |
| `Layering.ElementsRiseIffAcyclic` | modules/flowable-bpmn-layout/src/auto_layout.rs:1079-1160 | every sequence-flow element has its source in a lower layer than its target exactly when no flows form a cycle |
| `Layering.EarlierGoesFirst` | modules/flowable-bpmn-layout/src/auto_layout.rs:1095-1131 | the queue prefers the node that comes earlier in the document, then the smaller id |
| `Placement.PrecedesIsOrder` | modules/flowable-bpmn-layout/src/auto_layout.rs:726-733 | barycenter, source index and id order the nodes of a column totally and strictly |
| `Placement.BarycenterIsMean` | modules/flowable-bpmn-layout/src/auto_layout.rs:1162-1177 | the barycenter is the mean row of the predecessors placed so far, parallel flows counted, and the source index when there is none |
| `Placement.LowerMeanStandsAbove` | modules/flowable-bpmn-layout/src/auto_layout.rs:725-744 | in a layer the node with the lower mean stands above, then the earlier one in the document, then by id |
| `Placement.OrderedIs` | modules/flowable-bpmn-layout/src/auto_layout.rs:718-733 | an ordered column holds the layer's nodes, each once, in order |
| `Placement.PlaceLayer` | modules/flowable-bpmn-layout/src/auto_layout.rs:717-755 | placing one column extends a placement of the columns before it and leaves their rows alone |
| `Placement.PlaceNodes` | modules/flowable-bpmn-layout/src/auto_layout.rs:705-755 | every node gets a box; in each layer the rows are 0 to its size less one and a node stands above another exactly when it precedes it by the rows of earlier layers |
| `Placement.BoxesOverlapIff` | modules/flowable-bpmn-layout/src/auto_layout.rs:735-744 | two grid boxes overlap exactly when they share a place, or share a row and the left one is a subprocess next to the other |
| `Placement.NodesOverlapIff` | modules/flowable-bpmn-layout/src/auto_layout.rs:709-755 | two nodes of a placement overlap exactly when one crowds the other |
| `Placement.NarrowNodesNeverOverlap` | modules/flowable-bpmn-layout/src/auto_layout.rs:1049-1077 | when no node is wider than the column gap no two boxes overlap |
| `Placement.SubProcessCoversNext` | modules/flowable-bpmn-layout/src/auto_layout.rs:1068-1071 | for every wide kind and every kind after it, each layering and placement of the two nodes joined by a flow overlaps them |
| `Placement.PairLayers` | modules/flowable-bpmn-layout/src/auto_layout.rs:1079-1160 | two nodes take the layers 0 and 1 when a flow joins them, and both take 0 when none does |
| `Lanes.ComputeLaneYPositions` | modules/flowable-bpmn-layout/src/auto_layout.rs:1273-1313 | exactly the known nodes in some lane get a position: the top of the last lane listing them plus their rank among that lane's rows |
| `Lanes.ShiftNodes` | modules/flowable-bpmn-layout/src/auto_layout.rs:758-766 | only the upper edges of the laned nodes change |
| `Lanes.LayOutNodes` | modules/flowable-bpmn-layout/src/auto_layout.rs:705-767 | layering without gaps, placement and lane shift in a row |
| `Lanes.ShiftedNodesOverlapIff` | modules/flowable-bpmn-layout/src/auto_layout.rs:757-767 | for every placement and all lanes, two nodes overlap after the shift exactly when their final rows agree and their columns are the same or a subprocess reaches into the other |
| `Lanes.FinalRowsFollowLanes` | modules/flowable-bpmn-layout/src/auto_layout.rs:1292-1310 | final rows of nodes in lanes are ordered by lane first and by row within a lane |
| `Lanes.LanesAreBands` | modules/flowable-bpmn-layout/src/auto_layout.rs:1279-1310 | every node in a lane lies strictly within the band of its last lane, and the bands follow in declaration order |
| `Lanes.BandsAreFull` | modules/flowable-bpmn-layout/src/auto_layout.rs:1279-1310 | a band is no taller than needed: each of its rows is the final row of some node its lane lists |
| `Lanes.LanedNodesOverlapIff` | modules/flowable-bpmn-layout/src/auto_layout.rs:757-767 | two nodes in lanes overlap after the shift exactly when they did before and share their lane |
| `Lanes.OnlyLane` | modules/flowable-bpmn-layout/src/auto_layout.rs:1292-1308 | a node listed in one lane stands in that lane |
| `Lanes.UnlanedNodeIsCovered` | modules/flowable-bpmn-layout/src/auto_layout.rs:760-766 | in every layout of two unlinked nodes of any kinds, with only the second in a lane, the shift makes them overlap |
| `Waypoints.OptimizeWaypoints` | modules/flowable-bpmn-layout/src/auto_layout.rs:1347-1375 | the two loops keep the deduplicated list's end points and turns |
| `Waypoints.OptimisedIsRectilinear` | modules/flowable-bpmn-layout/src/auto_layout.rs:1347-1375 | every non-empty rectilinear list keeps its ends, stays rectilinear and alternates in direction |
| `Waypoints.LineIsKept` | modules/flowable-bpmn-layout/src/auto_layout.rs:1347-1375 | every point of a rectilinear list is on the line of a segment of the optimised one |
| `Waypoints.OptimisedFromRoute` | modules/flowable-bpmn-layout/src/auto_layout.rs:1347-1375 | no point is invented |
| `Waypoints.CleanIffNoReturn` | modules/flowable-bpmn-layout/src/auto_layout.rs:1362-1373 | no repeated or collinear point is left exactly when no straight stretch runs back to where it began |
| `Waypoints.CleanIsKept` | modules/flowable-bpmn-layout/src/auto_layout.rs:1347-1375 | a list without such points is left as it is |
| `Waypoints.OutAndBackRepeats` | modules/flowable-bpmn-layout/src/auto_layout.rs:1362-1373 | running from any point to any other in line with it and back leaves the point twice |
| `Waypoints.EdgeWaypoints` | modules/flowable-bpmn-layout/src/auto_layout.rs:1179-1239 | for all boxes the route is rectilinear from the middle of the source's right edge to the middle of the target's left edge with no repeated or collinear point; a forward route bends halfway, a backward one goes round at the detour distances with its crossbar above the higher end |
| `EnsureLayout.FillContainerLayout` | modules/flowable-bpmn-layout/src/lib.rs:52-139 | the recursion over nested containers computes its specification |
| `EnsureLayout.FillArtifactLayout` | modules/flowable-bpmn-layout/src/lib.rs:141-182 | likewise for artifacts |
| `EnsureLayout.CompleteLayout` | modules/flowable-bpmn-layout/src/lib.rs:16-50 | likewise for the whole model, known locations winning over generated ones |
| `EnsureLayout.LayoutIsKeptAndComplete` | modules/flowable-bpmn-layout/src/lib.rs:16-139 | nothing located is moved or shrunk, and exactly the located, generated and reachable shapes have a location afterwards |
| `EnsureLayout.NewNodesAreNested` | modules/flowable-bpmn-layout/src/lib.rs:59-101 | with unique ids every shape ends with its final size, and every new one is on the cell that follows those of the new shapes before it: in its container's grid, or in the outermost one, whose cells artifacts take as well; a new node that is no container lies inside its container's final box, a new container exactly when its final size fits, and artifacts lie on a grid below their container |
| `EnsureLayout.CellFits` | modules/flowable-bpmn-layout/src/lib.rs:65-68 | a node that is no container fits every cell of the widened container |
| `EnsureLayout.GrownIsLeast` | modules/flowable-bpmn-layout/src/lib.rs:59-69 | a container becomes the least box that holds its old size and the cells of its nodes with their margins |
| `EnsureLayout.ContentSlot` | modules/flowable-bpmn-layout/src/lib.rs:76-84 | filling a scope takes one cell of the outermost grid for each of its outermost nodes and artifacts that has no location |
| `EnsureLayout.WithinIffFits` | modules/flowable-bpmn-layout/src/lib.rs:83-100 | a box on a cell lies inside the container exactly when its size fits |
| `EnsureLayout.LoneContainerFitsIff` | modules/flowable-bpmn-layout/src/lib.rs:59-69 | a default-sized subprocess alone in a container fits exactly when the container was at least 248 by 182 |
| `EnsureLayout.ContainerSticksOut` | modules/flowable-bpmn-layout/src/lib.rs:83-134 | in the completed layout a container, new or located before, encloses the one new container that is all it holds exactly when it was at least 248 by 182 |
| `LayoutOverlap.SlotsRise` | modules/flowable-bpmn-layout/src/lib.rs:76-84 | new shapes of a scope have different cells, in document order |
| `LayoutOverlap.ScopeOverlapIff` | modules/flowable-bpmn-layout/src/lib.rs:83-100 | two new shapes of a container overlap exactly when their cells and final sizes make them |
| `LayoutOverlap.NeighboursOverlapIff` | modules/flowable-bpmn-layout/src/lib.rs:83-100 | two new nodes of a container overlap exactly when they are neighbours in a row and the left one is a task |
| `LayoutOverlap.NeighbourTasksOverlap` | modules/flowable-bpmn-layout/src/lib.rs:85-100 | in the completed layout two new tasks that are all a container holds overlap, whatever the kinds |
| `LayoutOverlap.OutermostOverlapIff` | modules/flowable-bpmn-layout/src/lib.rs:33-41 | new nodes of outermost scopes, of one process or of two, have different cells and overlap exactly when these and their final sizes make them |
| `LayoutOverlap.OutermostNodesNeverOverlap` | modules/flowable-bpmn-layout/src/lib.rs:83-100 | such nodes that are no containers never overlap |
| `LayoutOverlap.OutermostContainerCoversNext` | modules/flowable-bpmn-layout/src/lib.rs:83-100 | a new outermost container covers part of a new node on the next cell of its row |
| `LayoutOverlap.ArtifactsOverlapIff` | modules/flowable-bpmn-layout/src/lib.rs:147-181 | two new artifacts of a scope overlap exactly when their cells and sizes make them, and then the earlier is a group; none reaches into its container |
| `Nesting.ValidateWellFormedXml` | modules/flowable-bpmn-converter/src/lib.rs:137-195 | the stack loop gives the verdict, error by error |
| `Nesting.AcceptedIffShallowDocument` | modules/flowable-bpmn-converter/src/lib.rs:137-195 | a stream is accepted exactly when it serialises a forest with matching local names and at most 512 nested start tags |
| `Nesting.RejectedIff` | modules/flowable-bpmn-converter/src/lib.rs:137-195 | a stream is rejected with an error exactly when it is sound up to a point at which that is wrong: a malformed event, a 513th open tag, an end tag with nothing or another name open, or the end with something open |
| `Nesting.ForestIsUnique` | modules/flowable-bpmn-converter/src/lib.rs:145-187 | a stream serialises at most one forest |
| `Nesting.AcceptedIsNeverCutOff` | modules/flowable-bpmn-converter/src/lib.rs:5738-5821 | process elements read from an accepted document nest less than 512 deep, so the map builders enter all of them |
| `Nesting.RejectDeepNesting` | modules/flowable-cmmn-converter/src/lib.rs:112-144 | the counter loop gives the verdict, on unbalanced streams too |
| `Nesting.CmmnAcceptsIffShallow` | modules/flowable-cmmn-converter/src/lib.rs:112-144 | a balanced stream is accepted exactly when its elements, self-closing ones included, nest at most 64 deep |
| `Nesting.CmmnAcceptsIff` | modules/flowable-cmmn-converter/src/lib.rs:112-144 | any stream, balanced or not, is accepted exactly when no event is malformed and no tag opens an element where some stretch before it opened 64 elements more than it closed |
| `ExtensionXml.ParseWritten` | modules/flowable-bpmn-converter/src/lib.rs:3009-3166 | reading what was written consumes exactly that and gives the element with its texts and namespaces read again |
| `ExtensionRoundTrip.RereadSameIff` | modules/flowable-bpmn-converter/src/writer.rs:1531-1569 | the reread element is the original exactly when the tree is faithful and its texts are kept |
| `ExtensionRoundTrip.RoundTripIff` | modules/flowable-bpmn-converter/src/writer.rs:1491-1569 | writing and parsing an element of the parser's shape give it back exactly when its texts are kept, each prefix means one thing per element, and every binding met before or given by the scope is still in force where it is used |
| `ExtensionShape.ParsedIsShaped` | modules/flowable-bpmn-converter/src/lib.rs:3009-3166 | every element read from a stream with well-formed names has the shape |
| `ExtensionShape.StableTextIff` | modules/flowable-bpmn-converter/src/lib.rs:3122-3136 | reading a text a second time changes nothing exactly when no carriage return stands right before CR LF between characters that are not white space |
| `ExtensionShape.ParsedKeptIff` | modules/flowable-bpmn-converter/src/lib.rs:3092-3166 | the texts of an element that was read are kept exactly when every text among the tokens it was read from is stable |
| `ExtensionShape.ReadElementRoundTripIff` | modules/flowable-bpmn-converter/src/writer.rs:1491-1529 | whatever was read survives another round exactly when it is faithful and the texts it was read from are stable |
| `ExtensionShape.AnyRoundTripIff` | modules/flowable-bpmn-converter/src/writer.rs:1491-1569 | any element written under well-formed names survives exactly when it has the shape, is faithful and its texts are kept |
| `ExtensionShape.LineEndsAreJoinedTwice` | modules/flowable-bpmn-converter/src/lib.rs:3122-3130 | between any two texts that are not blank, CR CR LF makes a text that a second reading changes |
| `ExtensionShape.UnstableTextIsMisread` | modules/flowable-bpmn-converter/src/lib.rs:3122-3136 | an element read with an unstable text is never given back by writing and reading it |
| `ExtensionRoundTrip.OneMeaningIsFaithful` | modules/flowable-bpmn-converter/src/writer.rs:1531-1569 | resolved prefixes with one namespace along each path are enough |
| `ExtensionRoundTrip.OneMeaningRoundTrip` | modules/flowable-bpmn-converter/src/writer.rs:1491-1578 | in a document that keeps the root bindings such elements with kept texts always survive |
| `ExtensionRoundTrip.ReturningPrefixIsMisread` | modules/flowable-bpmn-converter/src/writer.rs:1557-1563 | a prefix that returns to its first namespace is misread |
| `ExtensionStreams.MissingNamespaceDeclarations` | modules/flowable-bpmn-converter/src/writer.rs:1531-1569 | the loops find the used bindings the scope lacks |
| `ExtensionStreams.XmlWriter.WriteExtension` | modules/flowable-bpmn-converter/src/writer.rs:1491-1529 | appends exactly the element's tokens |
| `ExtensionContent.StartTagHolds` | modules/flowable-bpmn-converter/src/writer.rs:1501-1514 | for any element the tag holds its id, its attributes that have a value, a declaration of each prefix it uses that the scope does not bind to that namespace, and nothing else |
| `ExtensionContent.WrittenFrame` | modules/flowable-bpmn-converter/src/writer.rs:1496-1529 | self-closing exactly without text and children; otherwise start tag, text, children and end tag, under the prefixed name |
| `ExtensionStreams.XmlReader.ParseGenericExtensionElement` | modules/flowable-bpmn-converter/src/lib.rs:3009-3090 | returns the parsed element and stops right behind it |
| `ExtensionStreams.XmlReader.ParseGenericExtensionChildren` | modules/flowable-bpmn-converter/src/lib.rs:3092-3166 | reads content up to the matching end tag, whatever the stream, and gives the element the specification gives, whose text, children and attributes are described below |
| `ExtensionContent.ElementText` | modules/flowable-bpmn-converter/src/lib.rs:3092-3166 | the text of a read element is the non-blank trimmed texts directly inside it, one after the other in stream order; it has none exactly when they are all blank, and the stream is left right behind it |
| `ExtensionContent.ElementChildren` | modules/flowable-bpmn-converter/src/lib.rs:3102-3121 | under each name stand the elements started directly inside, in stream order, each read with the namespaces in force inside |
| `ExtensionContent.FirstAttrCounts` | modules/flowable-bpmn-converter/src/lib.rs:3017-3033 | of attributes with one key the first counts |
| `ExtensionContent.AttributesKept` | modules/flowable-bpmn-converter/src/lib.rs:3055-3082 | every attribute that is no declaration is kept under its local name with value, prefix and namespace, and nothing else is |
| `ExtensionContent.DeclarationsBind` | modules/flowable-bpmn-converter/src/lib.rs:3016-3033 | a declaration binds its prefix inside the tag, every other prefix keeps its meaning |
| `FlowWiring.FindTarget` | modules/flowable-bpmn-converter/src/lib.rs:5623-5677 | the reverse search finds the last element of the scope that bears the id and can take the entry |
| `FlowWiring.WireFlows` | modules/flowable-bpmn-converter/src/lib.rs:5584-5600 | appending flow by flow gives every element its leaving and entering flows |
| `FlowWiring.AttachBoundaryEvents` | modules/flowable-bpmn-converter/src/lib.rs:5602-5613 | attaching event by event gives every activity its wired events |
| `FlowWiring.ProcessScope` | modules/flowable-bpmn-converter/src/lib.rs:5584-5621 | the pass over a scope and the scopes in it |
| `FlowWiring.ProcessedExactly` | modules/flowable-bpmn-converter/src/lib.rs:5584-5677 | with distinct ids a covered node gains exactly the scope's flows naming it, in document order, an activity exactly its finished boundary events, and no flow crosses scopes |
| `FlowWiring.FlowsFromArePicked` | modules/flowable-bpmn-converter/src/lib.rs:5584-5600 | the flows a node gains as outgoing are the sequence-flow elements of the scope that name it as source, each once and in document order |
| `FlowWiring.FlowsToArePicked` | modules/flowable-bpmn-converter/src/lib.rs:5584-5600 | likewise for incoming flows and targets |
| `FlowWiring.EventsOnArePicked` | modules/flowable-bpmn-converter/src/lib.rs:5602-5613 | likewise for boundary events and the activity they name |
| `FlowWiring.BoundaryEventIsFinal` | modules/flowable-bpmn-converter/src/lib.rs:5661-5677 | a boundary event is finished when it is copied to its activity |
| `FlowWiring.ProcessedFlow` | modules/flowable-bpmn-converter/src/lib.rs:5584-5621 | sequence flows are never changed |
| `ElementIndex.PopulateElementMap` | modules/flowable-bpmn-converter/src/lib.rs:5812-5849 | the recursive walk computes its specification |
| `ElementIndex.PopulateSubProcessMaps` | modules/flowable-bpmn-converter/src/lib.rs:5738-5756 | inner subprocesses are finished before the outer map copies them; children and maps are all it changes |
| `ElementIndex.IndexedKeepsRest` | modules/flowable-bpmn-converter/src/lib.rs:5738-5756 | at every depth indexing changes nothing of an element but its own map and the children it indexes |
| `ElementIndex.PopulateAllMaps` | modules/flowable-bpmn-converter/src/lib.rs:5726-5736 | the finished elements, and the process map over them with data objects filled in |
| `ElementIndex.IndexIsCompleteIff` | modules/flowable-bpmn-converter/src/lib.rs:5812-5849 | among distinctly named elements the map is the complete index exactly when the nesting stays within the cap |
| `ElementIndex.SubProcessesAreIndexed` | modules/flowable-bpmn-converter/src/lib.rs:5738-5756 | every subprocess at every depth maps exactly its own finished subtree |
| `ElementIndex.ProcessIsIndexed` | modules/flowable-bpmn-converter/src/lib.rs:5726-5736 | the process map holds exactly the finished elements of every depth, their own maps included |
| `ElementIndex.DataObjectsFillIn` | modules/flowable-bpmn-converter/src/lib.rs:5841-5848 | data objects take only ids no element bears |
| `PostProcessing.PostProcessProcess` | modules/flowable-bpmn-converter/src/lib.rs:5578-5582 | wiring, then the maps |
| `PostProcessing.ProcessedKeepsTree` | modules/flowable-bpmn-converter/src/lib.rs:5584-5621 | wiring keeps names and nesting at every depth |
| `PostProcessing.EveryScopeIsFinished` | modules/flowable-bpmn-converter/src/lib.rs:5578-5756 | after both passes, in every scope at every depth and with distinct ids, each node is the original one with exactly the flows and boundary events of its own scope that name it added in document order |
| `PostProcessing.WiredProcessIsIndexed` | modules/flowable-bpmn-converter/src/lib.rs:5578-5582 | after both passes the process map and every subprocess map index exactly the wired and finished elements |
| `PostProcessing.AcceptedProcessIsIndexed` | modules/flowable-bpmn-converter/src/lib.rs:5578-5582 | so it is for every process of an accepted document |
| `AppStore.RunVersionsRise` | modules/flowable-app-engine/src/repository.rs:112-139 | in every run the live versions of one key and tenant are distinct and rise in deployment order |
| `AppStore.NextVersionIs` | modules/flowable-app-engine/src/repository.rs:885-902 | a new version is 1 when nothing with this key and tenant is stored, otherwise one above the highest such version |
| `AppStore.DeployStores` | modules/flowable-app-engine/src/repository.rs:112-165 | a successful deployment stores one entry per item, in order: key, tenant, categories and content are the item's, the composition holds the item's resolved references, the version follows on those stored before |
| `AppStore.DeploysIff` | modules/flowable-app-engine/src/repository.rs:112-165 | it succeeds exactly when no key is repeated and every item's references resolve |
| `AppStore.DeployErrorIs` | modules/flowable-app-engine/src/repository.rs:112-165 | otherwise it fails at the first item whose key came before or whose references do not resolve |
| `AppStore.DeletedRows` | modules/flowable-app-engine/src/repository.rs:195-223 | a deletion keeps exactly the rows of other deployments |
| `AppStore.RunVersionsBounded` | modules/flowable-app-engine/src/repository.rs:885-902 | no version exceeds the number of definitions offered, so 32 bits suffice for fewer than 2^31 |
| `AppStore.LatestIsLastDeployed` | modules/flowable-app-engine/src/repository.rs:299-313 | for a named tenant the lookup returns that tenant's most recently deployed live definition |
| `AppStore.TenantlessLatest` | modules/flowable-app-engine/src/repository.rs:578-629 | without a tenant the untenanted and the empty-tenant definition compete by version, then id |
| `AppStore.TenantlessIsLastDeployedIff` | modules/flowable-app-engine/src/repository.rs:578-629 | it returns the untenanted one exactly when no empty-tenant one outranks it |
| `AppStore.TenantlessLookupCanMiss` | modules/flowable-app-engine/src/repository.rs:885-902 | a run in which the untenanted definition deployed last is missed |
| `AppStore.DefinitionIdInjective` | modules/flowable-app-engine/src/repository.rs:128-139 | definition ids built from ids of one length name one deployment and key |
| `AppCache.AppDefinitionCache.constructor` | modules/flowable-app-engine/src/cache.rs:46-58 | a limit of zero means none |
| `AppCache.AppDefinitionCache.Get` | modules/flowable-app-engine/src/cache.rs:60-70 | a hit returns the entry and makes it the most recent, a miss changes nothing |
| `AppCache.AppDefinitionCache.Put` | modules/flowable-app-engine/src/cache.rs:89-109 | inserts or replaces as the most recent and evicts from the old end |
| `AppCache.AppDefinitionCache.PutIfAbsent` | modules/flowable-app-engine/src/cache.rs:112-133 | an entry already cached wins and is touched |
| `AppCache.AppDefinitionCache.Remove` | modules/flowable-app-engine/src/cache.rs:135-142 | drops the entry and its place in the recency list |
| `AppCache.AppDefinitionCache.Clear` | modules/flowable-app-engine/src/cache.rs:144-151 | drops everything |
| `AppCache.AppDefinitionCache.EvictIfNeeded` | modules/flowable-app-engine/src/cache.rs:167-177 | the loop drops the oldest entries beyond the limit |
| `AppCache.StepKeepsValid` | modules/flowable-app-engine/src/cache.rs:60-177 | every call keeps the recency list free of duplicates, equal in ids to the entries and within the limit, and changes it as an LRU list |
| `AppCache.RunKeepsValid` | modules/flowable-app-engine/src/cache.rs:46-177 | so does every run from a fresh cache |
| `AppCache.StepEntries` | modules/flowable-app-engine/src/cache.rs:60-177 | an id is cached after a call exactly when the call stores it or it was cached and is not forgotten, and its entry is the one stored or the one that was there |
| `AppCache.OldestIsLeastRecentlyUsed` | modules/flowable-app-engine/src/cache.rs:46-177 | over every run the recency list is sorted by the last call that looked the id up or inserted it, so what is dropped to make room was unused for longest |
| `AppCache.UsedIsLast` | modules/flowable-app-engine/src/cache.rs:60-133 | what a call finds or stores is cached afterwards and the most recent |
| `AppCache.PutsAreCached` | modules/flowable-app-engine/src/cache.rs:89-109 | of a row of insertions of different ids the last ones are cached with their values, as many as the limit allows |
| `AppCache.SmallerLimitHoldsLess` | modules/flowable-app-engine/src/cache.rs:46-177 | on the same calls a smaller limit holds a part, in recency order, of what a larger or absent limit holds |
| `AppRepository.DeployLoads` | modules/flowable-app-engine/src/repository.rs:112-176 | what a deployment returns loads back from the committed store and nothing else changes |
| `AppRepository.CallAddsAtMostItsEntry` | modules/flowable-app-engine/src/cache.rs:60-177 | no cache call invents or mixes up an entry |
| `AppRepository.PrepareSession` | modules/flowable-app-engine/src/repository.rs:112-165 | all rows of a deployment, or the first error |
| `AppRepository.DeployedAreCached` | modules/flowable-app-engine/src/repository.rs:170-176 | after a deployment its definitions are cached, the last ones as far as the limit allows |
| `AppRepository.AppRepositoryService.Deploy` | modules/flowable-app-engine/src/repository.rs:55-178 | all or nothing; the entries returned are the items' own, entry by entry, and are then inserted in order; a failed deployment leaves store and cache alone; the cache stays coherent |
| `AppRepository.AppRepositoryService.DeleteDeployment` | modules/flowable-app-engine/src/repository.rs:195-223 | removes the deployment's rows and compositions and exactly their entries from the cache, which stays coherent; an unknown deployment changes nothing |
| `AppRepository.AppRepositoryService.SetAppDefinitionCategory` | modules/flowable-app-engine/src/repository.rs:267-297 | changes the row's two categories only, drops exactly its entry and keeps the cache coherent |
| `AppRepository.AppRepositoryService.ResolveAppDefinition` | modules/flowable-app-engine/src/deployment_manager.rs:69-80 | after any sequence of calls the answer is the one a direct load gives, found or not; what is found is cached as the most recent entry, and a failed lookup changes nothing |
| `AppRepository.AppRepositoryService.InvalidateDefinitions` | modules/flowable-app-engine/src/deployment_manager.rs:61-65 | exactly the ids named leave the cache |
| `AppRepository.AppRepositoryService.EvictAppDefinition` | modules/flowable-app-engine/src/deployment_manager.rs:44-46 | exactly this id leaves the cache |
| `AppRepository.AppRepositoryService.ClearCache` | modules/flowable-app-engine/src/deployment_manager.rs:48-50 | nothing is cached afterwards |
| `AppProtocol.StepKeepsGenuine` | modules/flowable-app-engine/src/deployment_manager.rs:52-129 | every step of every task keeps store, snapshots and cache genuine |
| `AppProtocol.EveryInterleavingKeepsGenuine` | modules/flowable-app-engine/src/deployment_manager.rs:52-129 | in every interleaving each cached entry is some committed version of its row with the composition and version deployed under its id, which belong to an item that was ordered |
| `AppProtocol.DeployedOnce` | modules/flowable-app-engine/src/repository.rs:128-139 | an id is deployed once in a run |
| `AppStaleness.DeployAlone` | modules/flowable-app-engine/src/repository.rs:55-178 | in the interleaving model a deployment whose task runs alone leaves store and cache as the service does |
| `AppStaleness.DeleteAlone` | modules/flowable-app-engine/src/repository.rs:195-223 | so does a deletion |
| `AppStaleness.CategoriseAlone` | modules/flowable-app-engine/src/repository.rs:267-297 | so does a category change |
| `AppStaleness.ResolveAlone` | modules/flowable-app-engine/src/deployment_manager.rs:69-80 | so does a lookup, for a hit, a miss that is found and one that is not |
| `AppStaleness.UndisturbedKeepsCurrent` | modules/flowable-app-engine/src/deployment_manager.rs:69-129 | without a disturbing commit every snapshot is current, or its task will find the row gone, and every cached entry is current or about to be invalidated |
| `AppStaleness.UndisturbedIffNeverStale` | modules/flowable-app-engine/src/deployment_manager.rs:52-80 | a run has no disturbing commit exactly when, however its running tasks go on from any point, no entry is stale |
| `AppStaleness.DisturbanceLeavesStale` | modules/flowable-app-engine/src/deployment_manager.rs:69-80 | from every disturbing deletion or category change, in any current state, the running tasks can go on to a stale entry |
| `AppStaleness.QuiescentMeansCoherent` | modules/flowable-app-engine/src/deployment_manager.rs:52-80 | in an undisturbed run the cache agrees with the store whenever no task runs |
| `AppStaleness.SerialIsUndisturbed` | modules/flowable-app-engine/src/deployment_manager.rs:69-80 | runs whose operations do not interleave are such runs |
| `AppStaleness.DeletionInWindowLeavesStale` | modules/flowable-app-engine/src/deployment_manager.rs:77-79 | a deletion between read and insert, invalidation included, leaves the entry cached with nothing behind it once the reader has ended |
| `AppConvert.EngineDefinitionToCanonical` | modules/flowable-app-engine/src/convert.rs:69-132 | the loops split pages and references as specified |
| `AppConvert.CanonicalDefinitionToEngine` | modules/flowable-app-engine/src/convert.rs:19-66 | the loops build pages and the references page as specified |
| `AppConvert.RoundTripNormalises` | modules/flowable-app-engine/src/convert.rs:19-132 | engine to canonical to engine to canonical is the first canonical form, for every definition |
| `AppConvert.InheritedTexts` | modules/flowable-app-engine/src/convert.rs:104-116 | a reference moved to the top level keeps its own texts and takes missing ones from its page, the references page apart |
| `AppConvert.DefaultsAreFilledIn` | modules/flowable-app-engine/src/convert.rs:19-132 | read into the engine and back, a canonical definition has its missing ids and names filled in and nothing else changed |
| `AppConvert.MadeIdsDiffer` | modules/flowable-app-engine/src/convert.rs:219-221 | the references made for pages get different ids, whatever the pages are called |
| `AppConvert.SemanticallyEqualIff` | modules/flowable-app-engine/src/convert.rs:200-217 | definitions with normal canonical forms compare equal exactly when these agree in all but the id |
| `AppConvert.NormalIsFixed` | modules/flowable-app-engine/src/convert.rs:19-132 | canonical forms with ids and names and no page named like the references page come back unchanged |
| `AppConvert.OwnBytesAgree` | modules/flowable-app-engine/src/convert.rs:200-217 | a model is semantically equal to its own reading back |
| `AppConvert.ReferencesConserved` | modules/flowable-app-engine/src/convert.rs:219-274 | neither direction loses, adds or changes a reference's type, key, pinned id or tenant |
| `AppConvert.ResolvePageReferences` | modules/flowable-app-engine/src/repository.rs:659-750 | appends one entry per reference of the page, naming page and reference, or stops at the first that fails |
| `AppConvert.ResolveComposition` | modules/flowable-app-engine/src/repository.rs:636-657 | fails with the first failing reference of the app, otherwise gives one entry per reference in order, naming its page and reference, with the definition the reference means |
| `AppConvert.PinnedMeans` | modules/flowable-app-engine/src/repository.rs:667-712 | a pinned reference means the definition with the trimmed id exactly when its type agrees, its key where one is given, and its tenant where one is given; each failure has its own error |
| `AppConvert.PinnedIgnoresKeyLookup` | modules/flowable-app-engine/src/repository.rs:673-674 | a pinned reference depends neither on the lookup by key nor on the app's tenant |
| `AppConvert.UnpinnedMeans` | modules/flowable-app-engine/src/repository.rs:713-732 | without a pin the lookup by type and key decides, for the reference's own tenant or else the app's |
| `AppConvert.OwnTenantWins` | modules/flowable-app-engine/src/repository.rs:714-715 | a reference with a tenant of its own resolves alike in apps of all tenants |
| `AppConvert.SameKeysResolveTogether` | modules/flowable-app-engine/src/repository.rs:659-750 | equal multisets of references both fail or resolve to equal multisets of definitions |
| `AppConvert.RoundTripResolvesTogether` | modules/flowable-app-engine/src/repository.rs:636-750 | a model and its reading back resolve or fail together, to the same definitions |
| `CaseFile.PrefixTestIsAncestry` | modules/flowable-cmmn-engine/src/case_file.rs:58-67 | on built graphs a path with a slash appended begins another's path exactly when its item is an ancestor by parent ids |
| `CaseFile.DescendantsAreTransitiveChildren` | modules/flowable-cmmn-engine/src/case_file.rs:58-67 | a known item's descendants are its transitive children |
| `CaseFile.InsertKeepsBuilt` | modules/flowable-cmmn-engine/src/case_file.rs:17-43 | inserting a slash-free id keeps the graph a forest with matching paths and nothing live below something removed |
| `CaseFile.InsertedIff` | modules/flowable-cmmn-engine/src/case_file.rs:17-37 | an item is taken exactly when its id is new and its parent, if it names one, is there and not removed; otherwise the error says which |
| `CaseFile.InsertedAs` | modules/flowable-cmmn-engine/src/case_file.rs:26-42 | the taken item comes last, as version 1, with its parent's path extended by its id, and otherwise as given |
| `CaseFile.RemoveMarksSubtree` | modules/flowable-cmmn-engine/src/case_file.rs:69-91 | removal marks the item and exactly its transitive children: removed, version one higher up to the largest 64-bit number, all else kept |
| `CaseFile.MarkedIdsInOrder` | modules/flowable-cmmn-engine/src/case_file.rs:79-90 | the ids returned are those of the marked items, each once and in list order |
| `CaseFile.WhereInOrder` | modules/flowable-cmmn-engine/src/case_file.rs:62-66 | the selection by prefix keeps the order of the list |
| `CaseFile.RemoveKeepsBuilt` | modules/flowable-cmmn-engine/src/case_file.rs:69-91 | removal keeps the graph built |
| `CaseFile.EveryRunIsBuilt` | modules/flowable-cmmn-engine/src/case_file.rs:17-91 | every run of insertions and removals leaves a built graph |
| `CaseFile.LiveAncestors` | modules/flowable-cmmn-engine/src/case_file.rs:17-91 | every item not removed has only ancestors not removed |
| `CaseFile.CaseFileGraph.Insert` | modules/flowable-cmmn-engine/src/case_file.rs:17-43 | appends with path and version, or refuses a known id or a missing or removed parent, and keeps built graphs built |
| `CaseFile.CaseFileGraph.RemoveSubtree` | modules/flowable-cmmn-engine/src/case_file.rs:69-91 | marks by path, returns the marked ids, refuses an unknown id, keeps built graphs built |
| `CaseFile.CaseFileGraph.AncestryDefinitionRefs` | modules/flowable-cmmn-engine/src/case_file.rs:92-104 | on every list on which the walk ends it gives the definition references up to the root |
| `CaseFile.WalkEndsIff` | modules/flowable-cmmn-engine/src/case_file.rs:92-104 | for any list the walk ends exactly when it is over after as many steps as there are items |
| `CaseFile.WalkEndsIffNoRepeat` | modules/flowable-cmmn-engine/src/case_file.rs:92-104 | and does not end exactly when it meets some item twice |
| `CaseFile.ForestWalkEnds` | modules/flowable-cmmn-engine/src/case_file.rs:92-104 | on a forest every walk ends |
| `CaseFile.CaseFileGraph.Validate` | modules/flowable-cmmn-engine/src/case_file.rs:105-123 | accepts exactly the lists whose parents exist and differ from their children, and otherwise reports the first item that fails |
| `CaseFile.UnknownIdHasAllDescendants` | modules/flowable-cmmn-engine/src/case_file.rs:58-67 | an unknown id has every item as descendant |
| `CaseFile.SlashIdIsMistaken` | modules/flowable-cmmn-engine/src/case_file.rs:17-67 | every id containing a slash is mistaken for a child of the root named by its first part |
| `CaseFile.CyclePassesValidation` | modules/flowable-cmmn-engine/src/case_file.rs:92-123 | any two items that are each other's parent pass validation and neither's walk ends |
| `Correlation.GenerateCorrelationKey` | modules/flowable-cmmn-engine/src/event_registry_correlation.rs:17-28 | digests the parameters in key order |
| `Correlation.SelectParameters` | modules/flowable-cmmn-engine/src/event_registry_correlation.rs:44-51 | the bit test selects the counter's sub-map |
| `Correlation.SelectedIffBit` | modules/flowable-cmmn-engine/src/event_registry_correlation.rs:46-50 | bit i of the counter decides about the i-th parameter |
| `Correlation.GenerateEventCorrelationKeys` | modules/flowable-cmmn-engine/src/event_registry_correlation.rs:33-55 | one key per counter, none for no or for 64 and more parameters, a panic when the room asked for overflows |
| `Correlation.CapacityOverflowsIff` | modules/flowable-cmmn-engine/src/event_registry_correlation.rs:38-42 | it overflows exactly from 59 to 63 parameters |
| `Correlation.CountersAreSubMaps` | modules/flowable-cmmn-engine/src/event_registry_correlation.rs:43-51 | counters 1 to 2^n - 1 and non-empty sub-maps correspond one to one |
| `Correlation.MatchesIff` | modules/flowable-cmmn-engine/src/event_registry_correlation.rs:59-71 | a configured subscription matches exactly when some non-empty sub-map of fewer than 64 parameters has its key |
| `Correlation.TextDeterminesIff` | modules/flowable-cmmn-engine/src/event_registry_correlation.rs:17-28 | where no key holds = and no value ; two parameter lists have one text exactly when they agree after a missing value is read as empty |
| `Correlation.MissingReadsEmpty` | modules/flowable-cmmn-engine/src/event_registry_correlation.rs:17-28 | a missing and an empty value always give the same text |
| `Correlation.EqualsSignIsAmbiguous` | modules/flowable-cmmn-engine/src/event_registry_correlation.rs:17-28 | every key with = in it shares its text with a shorter key |
| `Correlation.SemicolonIsAmbiguous` | modules/flowable-cmmn-engine/src/event_registry_correlation.rs:17-28 | for any two ordered keys and any values, one value holding ; and = shares its text with two parameters |

## Left out

- XML tokenising, entity escaping, CDATA splitting and indentation: the model starts from the events. The tokeniser's own end-name check is part of its `Malformed` event; text with markup characters, which is written escaped and read back without unescaping, is outside the model.
- The per-element attribute parsers and writers of the converters, row and column numbers, DI shapes and edges: field copying.
- Nesting.AcceptedIsNeverCutOff: takes the parse from XML elements to flow elements as a relation (every element of a scope comes from an XML element inside the scope's own), not as the parser itself.
- The artifact map of a process: the same recursion as the element map.
- SQL, sessions, JSON, UUIDs and clocks: the store is a value committed in one step, JSON is the identity, deployment ids are parameters assumed fresh and of one length.
- AppStore.RunVersionsRise: versions are unbounded; RunVersionsBounded says when 32 bits are enough, and what happens beyond is not modelled.
- Request validation and the comparison of several resources in a deployment, identity links, history, REST, event and ZIP handling: plumbing.
- AppConvert.ResolvePageReferences: error kinds only, not the message texts; the catalog's lookups are functions and the tenant policy is part of them.
- ExtensionXml.ParseWritten: for elements of the shape the parser produces; AnyRoundTripIff covers all others that are written under well-formed names.
- ExtensionRoundTrip.RoundTripIff: likewise, and so for the lemmas that build on it.
- AppStaleness.UndisturbedIffNeverStale: the row and the composition are two reads, each of the store as it is then, as with SQLite and with read-committed isolation; on MySQL a session's first read opens a transaction, so a deletion between the two reads goes unseen there and disturbs as well.
- `resolve_error_codes`, which runs before the wiring: it changes no id, flow or nesting.
- Rounding of f64: coordinates and barycenters are exact, so ties between barycenters are decided exactly.
- Placement.PlaceNodes: library sorts are modelled by insertion, which gives the same list because the order is total and strict.
- Attaching boundary events to their activity's edge, message-flow and association routes, pool and lane frames, diagram bounds: straight arithmetic on finished boxes.
- The remaining maps merged by `ensure_layout` (labels, flows, edges): the same rule as for locations.
- Mutexes and threads: each cache method is one step of the interleaving model.
- Running out of memory, which large powers of two of keys lead to well below 59 parameters.
- MD5 and its hexadecimal form: the digest is an arbitrary function. Parameter maps of 2^32 and more entries, whose number the program truncates.
- `collect_nested_ids` of the CMMN converter and the historic queries: set unions and list filters.
