/**
 * The CMMN case-file graph: a flat list of items in which parent ids form a forest and a
 * materialised path stands in for ancestry.
 */
module CaseFile {
  import opened Common

  datatype ItemState = Available | Removed

  datatype Item = Item(
    id: string, definitionRef: string, parentId: Option<string>, path: string, version: nat, name: string,
        state: ItemState)

  datatype CaseFileError =
    | AlreadyExists(id: string) | ParentNotFound(id: string) | NotFound(id: string) | OwnParent(id: string)

  const MAX_VERSION: nat := 0xFFFF_FFFF_FFFF_FFFF

  // ---- Lookups --------------------------------------------------------------------

  /** Index of the first item with this id, or the length when there is none. */
  function IndexOf(items: seq<Item>, id: string): (i: nat)
    ensures i <= |items| && (i < |items| ==> items[i].id == id)
    ensures forall k :: 0 <= k < i ==> items[k].id != id
  {
    if |items| == 0 || items[0].id == id then 0 else 1 + IndexOf(items[1..], id)
  }

  function Get(items: seq<Item>, id: string): Option<Item> {
    if IndexOf(items, id) < |items| then Some(items[IndexOf(items, id)]) else None
  }

  function Where(items: seq<Item>, prefix: string): seq<Item> {
    if |items| == 0 then []
    else (if prefix <= items[0].path then [items[0]] else []) + Where(items[1..], prefix)
  }

  /** An unknown id gives the empty prefix. */
  function Descendants(items: seq<Item>, id: string): seq<Item> {
    match Get(items, id)
    case Some(item) => Where(items, item.path + "/")
    case None => Where(items, "")
  }

  // ---- Operations -----------------------------------------------------------------

  /** The path a new item gets, if its parent allows it to be inserted. */
  function PathFor(items: seq<Item>, item: Item): Result<string, CaseFileError> {
    match item.parentId
    case None => Ok("/" + item.id)
    case Some(parent) =>
      if exists k :: 0 <= k < |items| && items[k].id == parent && items[k].state != Removed
      then Ok(LiveParent(items, parent).path + "/" + item.id)
      else Err(ParentNotFound(parent))
  }

  /** The first item with this id that has not been removed. */
  function LiveParent(items: seq<Item>, id: string): (item: Item)
    requires exists k :: 0 <= k < |items| && items[k].id == id && items[k].state != Removed
    ensures item in items && item.id == id && item.state != Removed
  {
    if items[0].id == id && items[0].state != Removed then items[0]
    else
      assert forall k :: 0 < k < |items| ==> items[k] == items[1..][k - 1];
      LiveParent(items[1..], id)
  }

  function Inserted(items: seq<Item>, item: Item): Result<seq<Item>, CaseFileError> {
    if IndexOf(items, item.id) < |items| then Err(AlreadyExists(item.id))
    else match PathFor(items, item)
         case Err(e) => Err(e)
         case Ok(path) => Ok(items + [item.(path := path, version := 1)])
  }

  function Marked(item: Item): Item {
    item.(state := Removed, version := if item.version < MAX_VERSION then item.version + 1 else item.version)
  }

  predicate InSubtree(path: string, item: Item) {
    item.path == path || path + "/" <= item.path
  }

  function MarkedAll(items: seq<Item>, path: string): seq<Item> {
    if |items| == 0 then []
    else MarkedAll(items[..|items| - 1], path)
         + [if InSubtree(path, items[|items| - 1]) then Marked(items[|items| - 1]) else items[|items| - 1]]
  }

  function MarkedIds(items: seq<Item>, path: string): seq<string> {
    if |items| == 0 then []
    else MarkedIds(items[..|items| - 1], path) + if InSubtree(path, items[|items| - 1]) then [items[|items| - 1].id]
        else []
  }

  /** The check on items handed to the graph from outside. */
  predicate Validates(items: seq<Item>) {
    forall i :: 0 <= i < |items| ==> ParentThere(items, i)
  }

  /** The parent an item names is another item of the list. */
  predicate ParentThere(items: seq<Item>, i: nat)
    requires i < |items|
  {
    items[i].parentId.Some? ==>
      items[i].parentId.value != items[i].id && exists k :: 0 <= k < |items| && items[k].id == items[i].parentId.value
  }

  predicate FirstFault(items: seq<Item>, i: nat)
    requires i < |items|
  {
    !ParentThere(items, i) && forall k :: 0 <= k < i ==> ParentThere(items, k)
  }

  // ---- Ancestry -------------------------------------------------------------------

  ghost predicate Slashless(id: string) {
    '/' !in id
  }

  /** Ids are distinct and slash-free, and every parent stands before its children. */
  ghost predicate Forest(items: seq<Item>) {
    && (forall i, j :: 0 <= i < j < |items| ==> items[i].id != items[j].id)
    && (forall i :: 0 <= i < |items| ==> Slashless(items[i].id))
    && (forall i :: 0 <= i < |items| && items[i].parentId.Some? ==> IndexOf(items, items[i].parentId.value) < i)
  }

  /** Item `a` is among the transitive parents of item `b`. */
  ghost predicate Ancestor(items: seq<Item>, a: nat, b: nat)
    requires Forest(items) && b < |items|
    decreases b
  {
    items[b].parentId.Some? &&
    var p := IndexOf(items, items[b].parentId.value);
    p == a || Ancestor(items, a, p)
  }

  /** The ids from the root down to item `b`. */
  ghost function Trail(items: seq<Item>, b: nat): (t: seq<string>)
    requires Forest(items) && b < |items|
    ensures |t| > 0 && t[|t| - 1] == items[b].id
    decreases b
  {
    if items[b].parentId.Some? then Trail(items, IndexOf(items, items[b].parentId.value)) + [items[b].id]
        else [items[b].id]
  }

  ghost function PathText(trail: seq<string>): string {
    if |trail| == 0 then "" else "/" + trail[0] + PathText(trail[1..])
  }

  ghost predicate PathsMatch(items: seq<Item>)
    requires Forest(items)
  {
    forall i :: 0 <= i < |items| ==> items[i].path == PathText(Trail(items, i))
  }

  /** Nothing live hangs below something removed. */
  ghost predicate LiveAbove(items: seq<Item>)
    requires Forest(items)
  {
    forall i :: 0 <= i < |items| && items[i].state != Removed && items[i].parentId.Some? ==>
      items[IndexOf(items, items[i].parentId.value)].state != Removed
  }

  /** What holds of every graph built by insertions and removals alone. */
  ghost predicate Built(items: seq<Item>) {
    Forest(items) && PathsMatch(items) && LiveAbove(items)
  }

  // ---- Paths and prefixes ---------------------------------------------------------

  ghost predicate AllSlashless(trail: seq<string>) {
    forall i :: 0 <= i < |trail| ==> Slashless(trail[i])
  }

  lemma PathTextSnoc(trail: seq<string>, id: string)
    ensures PathText(trail + [id]) == PathText(trail) + "/" + id
  {
    if |trail| > 0 {
      assert (trail + [id])[1..] == trail[1..] + [id];
      PathTextSnoc(trail[1..], id);
      assert "/" + trail[0] + (PathText(trail[1..]) + "/" + id) == "/" + trail[0] + PathText(trail[1..]) + "/" + id;
    } else {
      assert PathText([id]) == "/" + id + PathText([id][1..]);
      assert "/" + id + "" == "" + "/" + id;
    }
  }

  /** Two slash-free segments followed by nothing or a slash agree as soon as one text begins the other. */
  lemma {:induction false} SegmentsAgree(a: string, x: string, b: string, y: string)
    requires Slashless(a) && Slashless(b) && |x| > 0 && x[0] == '/' && (y == "" || y[0] == '/')
    ensures a + x <= b + y <==> a == b && x <= y
  {
    if a == "" {
      assert a + x == x;
      assert b == "" ==> b + y == y;
    } else if b == "" {
      assert b + y == y;
    } else {
      SegmentsAgree(a[1..], x, b[1..], y);
      assert a + x == [a[0]] + (a[1..] + x) && b + y == [b[0]] + (b[1..] + y);
      ConsPrefix(a[0], a[1..] + x, b[0], b[1..] + y);
      assert a == [a[0]] + a[1..] && b == [b[0]] + b[1..];
    }
  }

  lemma ConsPrefix<T>(x: T, s: seq<T>, y: T, t: seq<T>)
    ensures [x] + s <= [y] + t <==> x == y && s <= t
  {
    if [x] + s <= [y] + t {
      assert ([x] + s)[0] == x && ([y] + t)[0] == y;
      assert s == ([x] + s)[1..] && t == ([y] + t)[1..];
    }
  }

  lemma PathTextHead(trail: seq<string>)
    ensures trail == [] <==> PathText(trail) == ""
    ensures trail != [] ==> PathText(trail)[0] == '/' && PathText(trail) == ['/'] + (trail[0] + PathText(trail[1..]))
  {
    if trail != [] {
      ConcatAssoc("/", trail[0], PathText(trail[1..]));
    }
  }

  lemma ConcatAssoc(a: string, b: string, c: string)
    ensures a + b + c == a + (b + c)
  {
  }

  lemma {:induction false} PrefixIffTrailPrefix(a: seq<string>, b: seq<string>)
    requires AllSlashless(a) && AllSlashless(b)
    ensures PathText(a) + "/" <= PathText(b) <==> |a| < |b| && a <= b
  {
    PathTextHead(a);
    PathTextHead(b);
    if a != [] && b != [] {
      var x, y := PathText(a[1..]) + "/", PathText(b[1..]);
      PathTextHead(a[1..]);
      PathTextHead(b[1..]);
      PrefixIffTrailPrefix(a[1..], b[1..]);
      SegmentsAgree(a[0], x, b[0], y);
      assert PathText(a) + "/" == ['/'] + (a[0] + x);
      ConsPrefix('/', a[0] + x, '/', b[0] + y);
      assert a == [a[0]] + a[1..] && b == [b[0]] + b[1..];
      ConsPrefix(a[0], a[1..], b[0], b[1..]);
    } else if b != [] {
      assert a == [] && "" + "/" == ['/'] + "";
      ConsPrefix('/', "", '/', b[0] + PathText(b[1..]));
    }
  }

  // ---- The prefix test is ancestry ------------------------------------------------

  lemma {:induction false} TrailSlashless(items: seq<Item>, b: nat)
    requires Forest(items) && b < |items|
    ensures AllSlashless(Trail(items, b))
    decreases b
  {
    if items[b].parentId.Some? {
      TrailSlashless(items, IndexOf(items, items[b].parentId.value));
    }
  }

  /** Distinct ids: a trail determines its item. */
  lemma SameTrail(items: seq<Item>, a: nat, b: nat)
    requires Forest(items) && a < |items| && b < |items| && Trail(items, a) == Trail(items, b)
    ensures a == b
  {
    assert items[a].id == items[b].id;
  }

  lemma {:induction false} TrailPrefixIffAncestor(items: seq<Item>, a: nat, b: nat)
    requires Forest(items) && a < |items| && b < |items|
    ensures |Trail(items, a)| < |Trail(items, b)| && Trail(items, a) <= Trail(items, b) <==> Ancestor(items, a, b)
    decreases b
  {
    if items[b].parentId.Some? {
      var p := IndexOf(items, items[b].parentId.value);
      TrailPrefixIffAncestor(items, a, p);
      var ta, tp := Trail(items, a), Trail(items, p);
      hide Forest, Trail, Ancestor;
      if ta == tp {
        SameTrail(items, a, p);
      }
    }
  }

  /** For items of a built graph, the path-prefix test selects exactly the transitive children. */
  lemma PrefixTestIsAncestry(items: seq<Item>, a: nat, b: nat)
    requires Forest(items) && PathsMatch(items) && a < |items| && b < |items|
    ensures items[a].path + "/" <= items[b].path <==> Ancestor(items, a, b)
    ensures items[b].path == items[a].path <==> a == b
  {
    TrailSlashless(items, a);
    TrailSlashless(items, b);
    PrefixIffTrailPrefix(Trail(items, a), Trail(items, b));
    TrailPrefixIffAncestor(items, a, b);
    if items[b].path == items[a].path {
      PathDeterminesTrail(Trail(items, a), Trail(items, b));
      SameTrail(items, a, b);
    }
  }

  lemma PathDeterminesTrail(s: seq<string>, t: seq<string>)
    requires AllSlashless(s) && AllSlashless(t) && PathText(s) == PathText(t)
    ensures s == t
  {
    PrefixIffTrailPrefix(s, s + [""]);
    PathTextSnoc(s, "");
    PrefixIffTrailPrefix(s, t + [""]);
    PathTextSnoc(t, "");
    PrefixIffTrailPrefix(t, s + [""]);
    assert PathText(s) + "/" == PathText(s) + "/" + "" && PathText(t) + "/" == PathText(t) + "/" + "";
    assert s <= t + [""] && t <= s + [""];
    assert s == (t + [""])[..|s|] && t == (s + [""])[..|t|];
  }

  // ---- Insertion keeps the graph well built ---------------------------------------

  lemma {:induction false} IndexIs(items: seq<Item>, id: string, k: nat)
    requires k < |items| && items[k].id == id && forall i :: 0 <= i < k ==> items[i].id != id
    ensures IndexOf(items, id) == k
  {
    if k > 0 {
      IndexIs(items[1..], id, k - 1);
    }
  }

  lemma IndexAfterAppend(items: seq<Item>, item: Item, id: string)
    ensures IndexOf(items, id) < |items| ==> IndexOf(items + [item], id) == IndexOf(items, id)
  {
    var k := IndexOf(items, id);
    if k < |items| {
      IndexIs(items + [item], id, k);
    }
  }

  lemma AppendKeepsForest(items: seq<Item>, item: Item)
    requires Forest(items) && IndexOf(items, item.id) == |items| && Slashless(item.id)
    requires item.parentId.Some? ==> IndexOf(items, item.parentId.value) < |items|
    ensures Forest(items + [item])
  {
    hide Slashless, IndexOf;
    var after := items + [item];
    forall i, j | 0 <= i < j < |after| ensures after[i].id != after[j].id {
      assert after[i] == items[i];
      if j < |items| {
        assert after[j] == items[j];
      }
    }
    forall i | 0 <= i < |after| ensures Slashless(after[i].id) {
      assert after[i] == if i < |items| then items[i] else item;
    }
    forall i | 0 <= i < |after| && after[i].parentId.Some? ensures IndexOf(after, after[i].parentId.value) < i {
      assert after[i] == if i < |items| then items[i] else item;
      IndexAfterAppend(items, item, after[i].parentId.value);
    }
  }

  lemma {:induction false} AppendKeepsTrail(items: seq<Item>, item: Item, b: nat)
    requires Forest(items) && Forest(items + [item]) && b < |items|
    ensures Trail(items + [item], b) == Trail(items, b)
    decreases b
  {
    if items[b].parentId.Some? {
      IndexAfterAppend(items, item, items[b].parentId.value);
      AppendKeepsTrail(items, item, IndexOf(items, items[b].parentId.value));
    }
  }

  /** With distinct ids the live parent is the item its id names. */
  lemma {:induction false} LiveParentIs(items: seq<Item>, id: string)
    requires forall i, j :: 0 <= i < j < |items| ==> items[i].id != items[j].id
    requires exists k :: 0 <= k < |items| && items[k].id == id && items[k].state != Removed
    ensures IndexOf(items, id) < |items| && LiveParent(items, id) == items[IndexOf(items, id)]
    ensures items[IndexOf(items, id)].state != Removed
  {
    var k :| 0 <= k < |items| && items[k].id == id && items[k].state != Removed;
    IndexIs(items, id, k);
    var p := LiveParent(items, id);
    var l :| 0 <= l < |items| && items[l] == p;
    assert l == k;
  }

  ghost predicate Knows(items: seq<Item>, id: string) {
    exists k :: 0 <= k < |items| && items[k].id == id
  }

  ghost predicate HasLive(items: seq<Item>, id: string) {
    exists k :: 0 <= k < |items| && items[k].id == id && items[k].state != Removed
  }

  /** An item is taken exactly when its id is new and its parent, if it names one, is there and not removed. */
  lemma InsertedIff(items: seq<Item>, item: Item)
    ensures Inserted(items, item).Ok? <==>
            !Knows(items, item.id) && (item.parentId.Some? ==> HasLive(items, item.parentId.value))
    ensures Inserted(items, item).Err? ==>
              Inserted(items, item).error == if Knows(items, item.id) then AlreadyExists(item.id)
                                             else ParentNotFound(item.parentId.value)
  {
    assert Knows(items, item.id) <==> IndexOf(items, item.id) < |items|;
    if item.parentId.Some? {
      assert HasLive(items, item.parentId.value) <==> PathFor(items, item).Ok?;
    }
  }

  /** The taken item comes last, as version 1 and otherwise as it was given apart from its path. */
  lemma InsertedAs(items: seq<Item>, item: Item)
    requires Inserted(items, item).Ok?
    ensures var after := Inserted(items, item).value;
            && |after| == |items| + 1 && after[..|items|] == items
            && var new_ := after[|items|];
            && new_.id == item.id && new_.definitionRef == item.definitionRef && new_.parentId == item.parentId
            && new_.name == item.name && new_.state == item.state && new_.version == 1
            && (item.parentId.None? ==> new_.path == "/" + item.id)
            && (item.parentId.Some? ==>
                  exists k :: 0 <= k < |items| && items[k].id == item.parentId.value && items[k].state != Removed
                              && new_.path == items[k].path + "/" + item.id)
  {
    var after := Inserted(items, item).value;
    assert after[..|items|] == items;
    if item.parentId.Some? {
      var parent := LiveParent(items, item.parentId.value);
      var k :| 0 <= k < |items| && items[k] == parent;
      assert after[|items|].path == items[k].path + "/" + item.id;
    }
  }

  lemma InsertKeepsBuilt(items: seq<Item>, item: Item)
    requires Built(items) && Slashless(item.id) && Inserted(items, item).Ok?
    ensures Built(Inserted(items, item).value)
  {
    var path := PathFor(items, item).value;
    var new_ := item.(path := path, version := 1);
    if item.parentId.Some? {
      LiveParentIs(items, item.parentId.value);
    }
    AppendKeepsBuilt(items, new_);
  }

  lemma AppendKeepsBuilt(items: seq<Item>, new_: Item)
    requires Built(items) && Slashless(new_.id) && IndexOf(items, new_.id) == |items|
    requires new_.parentId.None? ==> new_.path == "/" + new_.id
    requires new_.parentId.Some? ==>
               var p := IndexOf(items, new_.parentId.value);
               p < |items| && items[p].state != Removed && new_.path == items[p].path + "/" + new_.id
    ensures Built(items + [new_])
  {
    hide Forest, PathsMatch, LiveAbove, Slashless, IndexOf;
    AppendKeepsForest(items, new_);
    AppendKeepsPaths(items, new_);
    AppendKeepsLive(items, new_);
  }

  lemma AppendKeepsPaths(items: seq<Item>, new_: Item)
    requires Forest(items) && PathsMatch(items) && Forest(items + [new_])
    requires new_.parentId.None? ==> new_.path == "/" + new_.id
    requires new_.parentId.Some? ==>
               var p := IndexOf(items, new_.parentId.value);
               p < |items| && new_.path == items[p].path + "/" + new_.id
    ensures PathsMatch(items + [new_])
  {
    hide Forest, Trail, PathText, IndexOf;
    var after := items + [new_];
    NewPathMatches(items, new_);
    forall i | 0 <= i < |items| ensures after[i].path == PathText(Trail(after, i)) {
      AppendKeepsTrail(items, new_, i);
    }
  }

  lemma AppendKeepsLive(items: seq<Item>, new_: Item)
    requires Forest(items) && LiveAbove(items) && Forest(items + [new_])
    requires new_.parentId.Some? ==>
               var p := IndexOf(items, new_.parentId.value); p < |items| && items[p].state != Removed
    ensures LiveAbove(items + [new_])
  {
    var after := items + [new_];
    forall i | 0 <= i < |after| && after[i].state != Removed && after[i].parentId.Some?
      ensures after[IndexOf(after, after[i].parentId.value)].state != Removed
    {
      IndexAfterAppend(items, new_, after[i].parentId.value);
    }
  }

  lemma NewPathMatches(items: seq<Item>, item: Item)
    requires Forest(items) && PathsMatch(items) && Forest(items + [item])
    requires item.parentId.None? ==> item.path == "/" + item.id
    requires item.parentId.Some? ==>
               var p := IndexOf(items, item.parentId.value); p < |items| && item.path == items[p].path + "/" + item.id
    ensures item.path == PathText(Trail(items + [item], |items|))
  {
    if item.parentId.Some? {
      var p := IndexOf(items, item.parentId.value);
      IndexAfterAppend(items, item, item.parentId.value);
      AppendKeepsTrail(items, item, p);
      PathTextSnoc(Trail(items, p), item.id);
    } else {
      PathTextSnoc([], item.id);
      assert [] + [item.id] == [item.id];
    }
  }

  // ---- Removal --------------------------------------------------------------------

  /** The same ids, parents and paths in the same order. */
  ghost predicate SameLinks(items: seq<Item>, after: seq<Item>) {
    |items| == |after| && forall i :: 0 <= i < |items| ==>
      items[i].id == after[i].id && items[i].parentId == after[i].parentId && items[i].path == after[i].path
  }

  lemma SameLinksIndex(items: seq<Item>, after: seq<Item>, id: string)
    requires SameLinks(items, after)
    ensures IndexOf(after, id) == IndexOf(items, id)
  {
    var k := IndexOf(items, id);
    if k < |items| {
      IndexIs(after, id, k);
    }
  }

  lemma SameLinksForest(items: seq<Item>, after: seq<Item>)
    requires Forest(items) && SameLinks(items, after)
    ensures Forest(after)
  {
    forall i | 0 <= i < |after| && after[i].parentId.Some? ensures IndexOf(after, after[i].parentId.value) < i {
      SameLinksIndex(items, after, after[i].parentId.value);
    }
  }

  lemma {:induction false} SameLinksTrail(items: seq<Item>, after: seq<Item>, b: nat)
    requires Forest(items) && Forest(after) && SameLinks(items, after) && b < |items|
    ensures Trail(after, b) == Trail(items, b)
    decreases b
  {
    if items[b].parentId.Some? {
      SameLinksIndex(items, after, items[b].parentId.value);
      SameLinksTrail(items, after, IndexOf(items, items[b].parentId.value));
    }
  }

  lemma {:induction false} MarkedAllAt(items: seq<Item>, path: string)
    ensures |MarkedAll(items, path)| == |items|
    ensures forall i :: 0 <= i < |items| ==>
              MarkedAll(items, path)[i] == if InSubtree(path, items[i]) then Marked(items[i]) else items[i]
  {
    hide InSubtree, Marked;
    if |items| > 0 {
      MarkedAllAt(items[..|items| - 1], path);
    }
  }

  /** The places at which a removal marks an item, in list order. */
  ghost function MarkedPlaces(items: seq<Item>, path: string): seq<nat> {
    if |items| == 0 then []
    else MarkedPlaces(items[..|items| - 1], path) + if InSubtree(path, items[|items| - 1]) then [|items| - 1] else []
  }

  /** `places` are all the places of items in the subtree, in list order. */
  ghost predicate ArePlaces(items: seq<Item>, path: string, places: seq<nat>) {
    && (forall i, j :: 0 <= i < j < |places| ==> places[i] < places[j])
    && (forall k :: 0 <= k < |places| ==> places[k] < |items| && InSubtree(path, items[places[k]]))
    && (forall i :: 0 <= i < |items| && InSubtree(path, items[i]) ==> i in places)
  }

  lemma {:induction false} MarkedPlacesAre(items: seq<Item>, path: string)
    ensures ArePlaces(items, path, MarkedPlaces(items, path))
    decreases |items|
  {
    hide InSubtree;
    if |items| > 0 {
      var n := |items| - 1;
      MarkedPlacesAre(items[..n], path);
      OneMorePlace(items, path, MarkedPlaces(items[..n], path));
    }
  }

  lemma OneMorePlace(items: seq<Item>, path: string, places: seq<nat>)
    requires |items| > 0 && ArePlaces(items[..|items| - 1], path, places)
    ensures ArePlaces(items, path, places + if InSubtree(path, items[|items| - 1]) then [|items| - 1] else [])
  {
    hide InSubtree;
    var n := |items| - 1;
    assert forall i :: 0 <= i < n ==> items[..n][i] == items[i];
    if InSubtree(path, items[n]) {
      assert n in places + [n];
    } else {
      assert places + [] == places;
    }
  }

  /** The ids a removal answers with are those of the marked items, each once and in list order. */
  lemma {:induction false} MarkedIdsInOrder(items: seq<Item>, path: string)
    ensures var places, ids := MarkedPlaces(items, path), MarkedIds(items, path);
            && ArePlaces(items, path, places) && |ids| == |places|
            && forall k :: 0 <= k < |ids| ==> places[k] < |items| && ids[k] == items[places[k]].id
    decreases |items|
  {
    MarkedPlacesAre(items, path);
    hide InSubtree, ArePlaces;
    if |items| > 0 {
      MarkedIdsInOrder(items[..|items| - 1], path);
    }
  }

  /** Marking removes an item and raises its version, which stops at the largest 64-bit number. */
  ghost predicate IsMarked(before: Item, after: Item) {
    && after.state == Removed
    && (before.version < 0xFFFF_FFFF_FFFF_FFFF ==> after.version == before.version + 1)
    && (before.version >= 0xFFFF_FFFF_FFFF_FFFF ==> after.version == before.version)
    && after.id == before.id && after.definitionRef == before.definitionRef && after.parentId == before.parentId
    && after.path == before.path && after.name == before.name
  }

  lemma MarkedIsMarked(item: Item)
    ensures IsMarked(item, Marked(item))
  {
  }

  /** Removing item `a` marks it and everything below it, and nothing else. */
  lemma RemoveMarksSubtree(items: seq<Item>, a: nat)
    requires Built(items) && a < |items|
    ensures var after := MarkedAll(items, items[a].path);
            && SameLinks(items, after)
            && (forall b :: 0 <= b < |items| ==>
                  if b == a || Ancestor(items, a, b) then IsMarked(items[b], after[b]) else after[b] == items[b])
  {
    hide MarkedAll;
    MarkedAllAt(items, items[a].path);
    forall b | 0 <= b < |items|
      ensures var after := MarkedAll(items, items[a].path);
              if b == a || Ancestor(items, a, b) then IsMarked(items[b], after[b]) else after[b] == items[b]
    {
      hide Forest, PathsMatch, LiveAbove, Ancestor, InSubtree, Marked;
      BuiltPrefixTest(items, a, b);
      MarkedIsMarked(items[b]);
    }
  }

  lemma BuiltPrefixTest(items: seq<Item>, a: nat, b: nat)
    requires Built(items) && a < |items| && b < |items|
    ensures InSubtree(items[a].path, items[b]) <==> b == a || Ancestor(items, a, b)
  {
    PrefixTestIsAncestry(items, a, b);
  }

  lemma RemoveKeepsBuilt(items: seq<Item>, a: nat)
    requires Built(items) && a < |items|
    ensures Built(MarkedAll(items, items[a].path))
  {
    var after := MarkedAll(items, items[a].path);
    RemoveMarksSubtree(items, a);
    SameLinksForest(items, after);
    hide MarkedAll;
    forall i | 0 <= i < |after| ensures after[i].path == PathText(Trail(after, i)) {
      SameLinksTrail(items, after, i);
    }
    forall i | 0 <= i < |after| && after[i].state != Removed && after[i].parentId.Some?
      ensures after[IndexOf(after, after[i].parentId.value)].state != Removed
    {
      var p := IndexOf(items, items[i].parentId.value);
      SameLinksIndex(items, after, items[i].parentId.value);
      assert !(i == a || Ancestor(items, a, i));
      assert !(p == a || Ancestor(items, a, p));
    }
  }

  datatype Edit = Insertion(item: Item) | Removal(id: string)

  /** A refused edit changes nothing. */
  function Edited(items: seq<Item>, e: Edit): seq<Item> {
    match e
    case Insertion(item) => if Inserted(items, item).Ok? then Inserted(items, item).value else items
    case Removal(id) => if IndexOf(items, id) < |items| then MarkedAll(items, items[IndexOf(items, id)].path) else items
  }

  function After(edits: seq<Edit>): seq<Item> {
    if |edits| == 0 then [] else Edited(After(edits[..|edits| - 1]), edits[|edits| - 1])
  }

  /** Every run of insertions of slash-free ids and removals leaves a built graph. */
  lemma {:induction false} EveryRunIsBuilt(edits: seq<Edit>)
    requires forall i :: 0 <= i < |edits| && edits[i].Insertion? ==> Slashless(edits[i].item.id)
    ensures Built(After(edits))
  {
    hide Built, Inserted, MarkedAll;
    if |edits| == 0 {
      EmptyIsBuilt();
    } else {
      var before, e := After(edits[..|edits| - 1]), edits[|edits| - 1];
      EveryRunIsBuilt(edits[..|edits| - 1]);
      if e.Insertion? && Inserted(before, e.item).Ok? {
        InsertKeepsBuilt(before, e.item);
      } else if e.Removal? && IndexOf(before, e.id) < |before| {
        RemoveKeepsBuilt(before, IndexOf(before, e.id));
      }
    }
  }

  lemma EmptyIsBuilt()
    ensures Built([])
  {
  }

  /** Every live item of a built graph has only live ancestors. */
  lemma {:induction false} LiveAncestors(items: seq<Item>, a: nat, b: nat)
    requires Built(items) && b < |items| && a < |items| && Ancestor(items, a, b) && items[b].state != Removed
    ensures items[a].state != Removed
    decreases b
  {
    var p := IndexOf(items, items[b].parentId.value);
    if p != a {
      LiveAncestors(items, a, p);
    }
  }

  // ---- The graph object -----------------------------------------------------------

  /** The item reached from `id` after `n` steps up, if the walk has not ended. */
  function WalkUp(items: seq<Item>, id: string, n: nat): Option<Item>
    decreases n
  {
    if n == 0 then Get(items, id) else
      match WalkUp(items, id, n - 1)
      case Some(item) => if item.parentId.Some? then Get(items, item.parentId.value) else None
      case None => None
  }

  /** The walk comes to an end. */
  ghost predicate WalkEnds(items: seq<Item>, id: string) {
    exists n: nat :: WalkUp(items, id, n).None?
  }

  /** `refs` lists the definition references from the item up to its root. */
  ghost predicate IsAncestry(items: seq<Item>, id: string, refs: seq<string>) {
    && WalkUp(items, id, |refs|).None?
    && forall i :: 0 <= i < |refs| ==> WalkUp(items, id, i).Some? && refs[i] == WalkUp(items, id, i).value.definitionRef
  }

  /** The marking loop of a removal. */
  method MarkSubtree(items: seq<Item>, path: string) returns (after: seq<Item>, removed: seq<string>)
    ensures after == MarkedAll(items, path) && removed == MarkedIds(items, path)
  {
    hide InSubtree, Marked;
    after, removed := items, [];
    for i := 0 to |items|
      invariant |after| == |items|
      invariant forall j :: 0 <= j < i ==> after[j] == if InSubtree(path, items[j]) then Marked(items[j]) else items[j]
      invariant forall j :: i <= j < |items| ==> after[j] == items[j]
      invariant removed == MarkedIds(items[..i], path)
    {
      assert items[..i + 1][..i] == items[..i];
      if InSubtree(path, after[i]) {
        removed := removed + [after[i].id];
        after := after[i := Marked(after[i])];
      }
    }
    assert items[..|items|] == items;
    MarkedAllAt(items, path);
  }

  class CaseFileGraph {
    var items: seq<Item>

    constructor (items: seq<Item>)
      ensures this.items == items
    {
      this.items := items;
    }

    /** The check made when a graph is opened over existing items. */
    method Validate() returns (r: Result<(), CaseFileError>)
      ensures r.Ok? <==> Validates(items)
      ensures r.Err? ==> exists i :: 0 <= i < |items| && FirstFault(items, i)
                                     && r.error == if items[i].parentId == Some(items[i].id) then OwnParent(items[i].id)
                                                   else ParentNotFound(items[i].parentId.value)
    {
      for i := 0 to |items|
        invariant forall k :: 0 <= k < i ==> ParentThere(items, k)
      {
        if items[i].parentId.Some? {
          var parent := items[i].parentId.value;
          if parent == items[i].id {
            assert FirstFault(items, i);
            return Err(OwnParent(parent));
          }
          if IndexOf(items, parent) == |items| {
            assert FirstFault(items, i);
            return Err(ParentNotFound(parent));
          }
        }
      }
      r := Ok(());
    }

    method Insert(item: Item) returns (r: Result<(), CaseFileError>)
      modifies this
      ensures Inserted(old(items), item).Ok? ==> r == Ok(()) && items == Inserted(old(items), item).value
      ensures Inserted(old(items), item).Err? ==> r == Err(Inserted(old(items), item).error) && items == old(items)
      ensures old(Built(items)) && Slashless(item.id) ==> Built(items)
    {
      if Built(items) && Slashless(item.id) && Inserted(items, item).Ok? {
        InsertKeepsBuilt(items, item);
      }
      if IndexOf(items, item.id) < |items| {
        return Err(AlreadyExists(item.id));
      }
      var path := PathFor(items, item);
      if path.Err? {
        return Err(path.error);
      }
      items := items + [item.(path := path.value, version := 1)];
      r := Ok(());
    }

    /** Marks every item whose path is the item's own or starts below it. */
    method RemoveSubtree(id: string) returns (r: Result<seq<string>, CaseFileError>)
      modifies this
      ensures IndexOf(old(items), id) == |old(items)| ==> r == Err(NotFound(id)) && items == old(items)
      ensures IndexOf(old(items), id) < |old(items)| ==>
                var path := old(items)[IndexOf(old(items), id)].path;
                items == MarkedAll(old(items), path) && r == Ok(MarkedIds(old(items), path))
      ensures old(Built(items)) ==> Built(items)
    {
      var a := IndexOf(items, id);
      if a == |items| {
        return Err(NotFound(id));
      }
      if Built(items) {
        RemoveKeepsBuilt(items, a);
      }
      var removed;
      items, removed := MarkSubtree(items, items[a].path);
      r := Ok(removed);
    }

    /** Walks from an item up its parents; the walk ends when it is over after as many steps as there are items. */
    method AncestryDefinitionRefs(id: string) returns (refs: seq<string>)
      requires WalkUp(items, id, |items|).None?
      ensures IsAncestry(items, id, refs)
    {
      hide Get, WalkUp;
      refs := [];
      var current := Get(items, id);
      WalkSteps(items, id, 0);
      while current.Some?
        invariant |refs| <= |items| && current == WalkUp(items, id, |refs|)
        invariant forall i :: 0 <= i < |refs| ==>
                    WalkUp(items, id, i).Some? && refs[i] == WalkUp(items, id, i).value.definitionRef
        decreases |items| - |refs|
      {
        var item := current.value;
        WalkSteps(items, id, |refs|);
        refs := refs + [item.definitionRef];
        current := if item.parentId.Some? then Get(items, item.parentId.value) else None;
      }
    }
  }

  lemma WalkSteps(items: seq<Item>, id: string, n: nat)
    ensures WalkUp(items, id, 0) == Get(items, id)
    ensures WalkUp(items, id, n).Some? ==>
              var item := WalkUp(items, id, n).value;
              WalkUp(items, id, n + 1) == if item.parentId.Some? then Get(items, item.parentId.value) else None
  {
  }

  // ---- When the walk up ends --------------------------------------------------------

  lemma {:induction false} WalkStaysEnded(items: seq<Item>, id: string, m: nat, n: nat)
    requires WalkUp(items, id, m).None? && m <= n
    ensures WalkUp(items, id, n).None?
    decreases n
  {
    if m < n {
      WalkStaysEnded(items, id, m, n - 1);
    }
  }

  /** Meeting an item again repeats the walk from there. */
  lemma {:induction false} WalkRepeats(items: seq<Item>, id: string, i: nat, j: nat, k: nat)
    requires WalkUp(items, id, i) == WalkUp(items, id, j)
    ensures WalkUp(items, id, i + k) == WalkUp(items, id, j + k)
    decreases k
  {
    hide Get;
    if k > 0 {
      WalkRepeats(items, id, i, j, k - 1);
    }
  }

  lemma {:induction false} RepeatNeverEnds(items: seq<Item>, id: string, i: nat, j: nat, n: nat)
    requires i < j && WalkUp(items, id, i) == WalkUp(items, id, j) && WalkUp(items, id, j).Some?
    ensures WalkUp(items, id, n).Some?
    decreases n
  {
    hide Get;
    if n <= j {
      if WalkUp(items, id, n).None? {
        WalkStaysEnded(items, id, n, j);
      }
    } else {
      RepeatNeverEnds(items, id, i, j, n - (j - i));
      WalkRepeats(items, id, i, j, n - j);
    }
  }

  lemma {:induction false} WalkVisitsItems(items: seq<Item>, id: string, n: nat)
    ensures WalkUp(items, id, n).Some? ==> WalkUp(items, id, n).value in items
    decreases n
  {
    if n > 0 {
      WalkVisitsItems(items, id, n - 1);
    }
  }

  /** A walk of more steps than there are items has met an item twice. */
  lemma LongWalkRepeats(items: seq<Item>, id: string) returns (i: nat, j: nat)
    requires WalkUp(items, id, |items|).Some?
    ensures i < j <= |items| && WalkUp(items, id, i) == WalkUp(items, id, j) && WalkUp(items, id, j).Some?
  {
    var n := |items|;
    forall k | 0 <= k <= n ensures WalkUp(items, id, k).Some? && WalkUp(items, id, k).value in items {
      if WalkUp(items, id, k).None? {
        WalkStaysEnded(items, id, k, n);
      }
      WalkVisitsItems(items, id, k);
    }
    var visited := seq(n + 1, k requires 0 <= k <= n => WalkUp(items, id, k).value);
    var domain := set x | x in items;
    ItemsBound(items);
    i, j := Pigeonhole(visited, domain);
    assert visited[i] == visited[j];
  }

  lemma {:induction false} ItemsBound(items: seq<Item>)
    ensures |set x | x in items| <= |items|
  {
    if |items| > 0 {
      var rest, last := items[..|items| - 1], items[|items| - 1];
      ItemsBound(rest);
      assert items == rest + [last];
      assert (set x | x in items) == (set x | x in rest) + {last};
    }
  }

  /** For any list, the walk ends exactly when it is over after as many steps as there are items. */
  lemma WalkEndsIff(items: seq<Item>, id: string)
    ensures WalkEnds(items, id) <==> WalkUp(items, id, |items|).None?
  {
    if WalkUp(items, id, |items|).Some? {
      var i, j := LongWalkRepeats(items, id);
      forall n: nat ensures WalkUp(items, id, n).Some? {
        RepeatNeverEnds(items, id, i, j, n);
      }
    }
  }

  /** And it does not end exactly when it meets some item twice. */
  lemma WalkEndsIffNoRepeat(items: seq<Item>, id: string)
    ensures !WalkEnds(items, id) <==>
            exists i: nat, j: nat :: i < j && WalkUp(items, id, i) == WalkUp(items, id, j) && WalkUp(items, id, j).Some?
  {
    WalkEndsIff(items, id);
    if !WalkEnds(items, id) {
      var i, j := LongWalkRepeats(items, id);
    } else if i: nat, j: nat :| i < j && WalkUp(items, id, i) == WalkUp(items, id, j) && WalkUp(items, id, j).Some? {
      RepeatNeverEnds(items, id, i, j, |items|);
    }
  }

  /** On a forest every walk ends: each step leads to an earlier item. */
  lemma {:induction false} ForestWalkDescends(items: seq<Item>, id: string, n: nat)
    requires Forest(items)
    ensures WalkUp(items, id, n).Some? ==>
              exists k :: 0 <= k && k + n < |items| && items[k] == WalkUp(items, id, n).value
    decreases n
  {
    hide Slashless;
    if n > 0 {
      ForestWalkDescends(items, id, n - 1);
    }
  }

  lemma ForestWalkEnds(items: seq<Item>, id: string)
    requires Forest(items)
    ensures WalkUp(items, id, |items|).None?
  {
    ForestWalkDescends(items, id, |items|);
  }

  // ---- Where the guarantees stop --------------------------------------------------

  lemma {:induction false} EverythingMatchesEmptyPrefix(items: seq<Item>)
    ensures Where(items, "") == items
  {
    if |items| > 0 {
      EverythingMatchesEmptyPrefix(items[1..]);
    }
  }

  /** Asked for the descendants of an id it does not know, the graph answers with every item. */
  lemma UnknownIdHasAllDescendants(items: seq<Item>, id: string)
    requires IndexOf(items, id) == |items|
    ensures Descendants(items, id) == items
  {
    EverythingMatchesEmptyPrefix(items);
  }

  lemma {:induction false} WhereSelects(items: seq<Item>, prefix: string, x: Item)
    ensures x in Where(items, prefix) <==> x in items && prefix <= x.path
  {
    if |items| > 0 {
      WhereSelects(items[1..], prefix, x);
      assert items == [items[0]] + items[1..];
    }
  }

  /** The selection keeps the order of the list: it goes through it part by part. */
  lemma {:induction false} WhereInOrder(items: seq<Item>, more: seq<Item>, prefix: string)
    ensures Where(items + more, prefix) == Where(items, prefix) + Where(more, prefix)
  {
    if |items| > 0 {
      assert (items + more)[1..] == items[1..] + more;
      WhereInOrder(items[1..], more, prefix);
    } else {
      assert items + more == more;
    }
  }

  /** On a built graph a known id's descendants are its transitive children. */
  lemma DescendantsAreTransitiveChildren(items: seq<Item>, a: nat, b: nat)
    requires Built(items) && a < |items| && b < |items|
    ensures items[b] in Descendants(items, items[a].id) <==> Ancestor(items, a, b)
  {
    IndexIs(items, items[a].id, a);
    WhereSelects(items, items[a].path + "/", items[b]);
    PrefixTestIsAncestry(items, a, b);
  }

  function Root(id: string): Item {
    Item(id, "", None, "", 0, "", Available)
  }

  /** Every id with a slash in it can be mistaken for the child of a root it has nothing to do with. */
  lemma SlashIdIsMistaken(u: string, v: string)
    ensures var id := u + "/" + v;
            && Inserted([], Root(u)).Ok?
            && Inserted(Inserted([], Root(u)).value, Root(id)).Ok?
            && var items := Inserted(Inserted([], Root(u)).value, Root(id)).value;
               |items| == 2 && items[1].parentId.None? && items[1] in Descendants(items, u)
  {
    var id := u + "/" + v;
    assert |id| > |u|;
    var first := Root(u).(path := "/" + u, version := 1);
    assert Inserted([], Root(u)).value == [first];
    var second := Root(id).(path := "/" + id, version := 1);
    assert IndexOf([first], id) == 1;
    var items := [first, second];
    assert Inserted([first], Root(id)).value == items;
    assert "/" + u + "/" <= "/" + id by {
      assert "/" + id == ("/" + u + "/") + v;
    }
    WhereSelects(items, "/" + u + "/", second);
  }

  lemma ReturningWalkNeverEnds(items: seq<Item>, id: string)
    requires WalkUp(items, id, 0).Some? && WalkUp(items, id, 2) == WalkUp(items, id, 0)
    ensures !WalkEnds(items, id)
  {
    hide WalkUp;
    WalkEndsIffNoRepeat(items, id);
  }

  /** One step up from an item of the list. */
  lemma OneStepUp(items: seq<Item>, id: string, n: nat, k: nat, up: nat)
    requires k < |items| && up < |items| && IndexOf(items, items[up].id) == up
    requires WalkUp(items, id, n) == Some(items[k]) && items[k].parentId == Some(items[up].id)
    ensures WalkUp(items, id, n + 1) == Some(items[up])
  {
    hide IndexOf;
  }

  /** Two items that are each other's parent pass the check, and the walk between them never ends. */
  lemma CyclePassesValidation(x: Item, y: Item)
    requires x.id != y.id && x.parentId == Some(y.id) && y.parentId == Some(x.id)
    ensures Validates([x, y]) && !WalkEnds([x, y], x.id) && !WalkEnds([x, y], y.id)
  {
    var items := [x, y];
    IndexIs(items, x.id, 0);
    IndexIs(items, y.id, 1);
    assert WalkUp(items, x.id, 0) == Some(x) && WalkUp(items, y.id, 0) == Some(y);
    hide WalkUp, IndexOf, WalkEnds;
    OneStepUp(items, x.id, 0, 0, 1);
    OneStepUp(items, x.id, 1, 1, 0);
    ReturningWalkNeverEnds(items, x.id);
    OneStepUp(items, y.id, 0, 1, 0);
    OneStepUp(items, y.id, 1, 0, 1);
    ReturningWalkNeverEnds(items, y.id);
  }
}
