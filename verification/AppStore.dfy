/**
 * The durable tables of the app engine: deployments, definition rows in insertion order and the
 * composition resolved for each definition. Every operation is one committed transaction.
 */
module AppStore {
  import opened Common

  /** A definition row; `content` stands for the fields no operation changes. */
  datatype Record = Record(
    id: Id, deployment: Id, key: string, tenant: Option<string>, version: nat,
    category: Option<string>, modelCategory: Option<string>, content: string)

  datatype Composition = Composition(definition: Id, deployment: Id, version: nat, references: seq<string>)

  /** What a cache entry holds and what a load from the store yields. */
  datatype Entry = Entry(definition: Record, composition: Composition)

  /** One app definition of a deployment request; `resolved` is what the catalog answers for it. */
  datatype Item = Item(key: string, category: Option<string>, content: string, resolved: Option<seq<string>>)

  datatype Store = Store(deployments: set<Id>, rows: seq<Record>, compositions: map<Id, Composition>)

  datatype StoreError = DuplicateKey(key: string) | UnresolvedReference(key: string) | NotFound(id: Id)

  const EMPTY := Store({}, [], map[])

  function DefinitionId(deployment: Id, key: string): Id {
    Id("app-definition:" + deployment.text + ":" + key)
  }

  function Find(rows: seq<Record>, id: Id): Option<Record> {
    if |rows| == 0 then None
    else if rows[0].id == id then Some(rows[0])
    else Find(rows[1..], id)
  }

  /** What `load_entry_from_store` reads: the row, then its composition. */
  function Load(store: Store, id: Id): Option<Entry> {
    match Find(store.rows, id)
    case None => None
    case Some(row) => if id in store.compositions then Some(Entry(row, store.compositions[id])) else None
  }

  // ---- Deployment -----------------------------------------------------------------

  /** Highest version among the rows of exactly this key and tenant, 0 if there is none. */
  function MaxVersion(rows: seq<Record>, key: string, tenant: Option<string>): nat {
    if |rows| == 0 then 0 else
      var rest := MaxVersion(rows[..|rows| - 1], key, tenant);
      var last := rows[|rows| - 1];
      if last.key == key && last.tenant == tenant && last.version > rest then last.version else rest
  }

  function NextVersion(rows: seq<Record>, key: string, tenant: Option<string>): nat {
    MaxVersion(rows, key, tenant) + 1
  }

  function EntryFor(rows: seq<Record>, deployment: Id, tenant: Option<string>, item: Item): Entry
    requires item.resolved.Some?
  {
    var version := NextVersion(rows, item.key, tenant);
    var id := DefinitionId(deployment, item.key);
    Entry(Record(id, deployment, item.key, tenant, version, item.category, item.category, item.content),
          Composition(id, deployment, version, item.resolved.value))
  }

  function AddEntry(store: Store, entry: Entry): Store {
    store.(rows := store.rows + [entry.definition],
           compositions := store.compositions[entry.definition.id := entry.composition])
  }

  /** The session after the first items of a deployment, or the error that aborts it. */
  function DeployItems(
      store: Store, deployment: Id, tenant: Option<string>, items: seq<Item>): Result<(Store, seq<Entry>), StoreError> {
    if |items| == 0 then Ok((store.(deployments := store.deployments + {deployment}), [])) else
      var item := items[|items| - 1];
      match DeployItems(store, deployment, tenant, items[..|items| - 1])
      case Err(e) => Err(e)
      case Ok((session, entries)) =>
        if exists i :: 0 <= i < |items| - 1 && items[i].key == item.key then Err(DuplicateKey(item.key))
        else if item.resolved.None? then Err(UnresolvedReference(item.key))
        else
          var entry := EntryFor(session.rows, deployment, tenant, item);
          Ok((AddEntry(session, entry), entries + [entry]))
  }

  // ---- Deletion and category changes ----------------------------------------------

  function RowsOutside(rows: seq<Record>, deployment: Id): seq<Record> {
    if |rows| == 0 then []
    else if rows[0].deployment == deployment then RowsOutside(rows[1..], deployment)
    else [rows[0]] + RowsOutside(rows[1..], deployment)
  }

  function IdsOf(rows: seq<Record>, deployment: Id): seq<Id> {
    if |rows| == 0 then []
    else if rows[0].deployment == deployment then [rows[0].id] + IdsOf(rows[1..], deployment)
    else IdsOf(rows[1..], deployment)
  }

  function DeleteDeployment(store: Store, deployment: Id): Store {
    Store(store.deployments - {deployment},
          RowsOutside(store.rows, deployment),
          map id | id in store.compositions && store.compositions[id].deployment != deployment ::
              store.compositions[id])
  }

  function Categorised(row: Record, category: Option<string>): Record {
    row.(category := category, modelCategory := category)
  }

  function SetCategory(rows: seq<Record>, id: Id, category: Option<string>): seq<Record> {
    if |rows| == 0 then []
    else [if rows[0].id == id then Categorised(rows[0], category) else rows[0]] + SetCategory(rows[1..], id, category)
  }

  // ---- Runs -----------------------------------------------------------------------

  datatype Op =
    | Deploy(deployment: Id, tenant: Option<string>, items: seq<Item>)
    | Delete(deployment: Id)
    | Categorise(id: Id, category: Option<string>)

  /** A rejected operation leaves the store as it was; deployment ids are drawn fresh. */
  function Apply(store: Store, op: Op): Store {
    match op
    case Deploy(deployment, tenant, items) =>
      (match DeployItems(store, deployment, tenant, items)
       case Ok((session, _)) => session
       case Err(_) => store)
    case Delete(deployment) => if deployment in store.deployments then DeleteDeployment(store, deployment) else store
    case Categorise(id, category) => store.(rows := SetCategory(store.rows, id, category))
  }

  function Run(ops: seq<Op>): Store {
    if |ops| == 0 then EMPTY else Apply(Run(ops[..|ops| - 1]), ops[|ops| - 1])
  }

  // ---- Versions -------------------------------------------------------------------

  ghost predicate SameLine(a: Record, b: Record) {
    a.key == b.key && a.tenant == b.tenant
  }

  /** Rows of one key and tenant carry strictly rising versions in deployment order. */
  ghost predicate VersionsRise(rows: seq<Record>) {
    forall i, j :: 0 <= i < j < |rows| && SameLine(rows[i], rows[j]) ==> rows[i].version < rows[j].version
  }

  lemma {:induction false} MaxVersionBounds(rows: seq<Record>, key: string, tenant: Option<string>)
    ensures forall i :: 0 <= i < |rows| && rows[i].key == key && rows[i].tenant == tenant ==>
              rows[i].version <= MaxVersion(rows, key, tenant)
  {
    if |rows| > 0 {
      MaxVersionBounds(rows[..|rows| - 1], key, tenant);
      assert forall i :: 0 <= i < |rows| - 1 ==> rows[i] == rows[..|rows| - 1][i];
    }
  }

  lemma AppendRises(rows: seq<Record>, row: Record)
    requires VersionsRise(rows) && row.version == NextVersion(rows, row.key, row.tenant)
    ensures VersionsRise(rows + [row])
  {
    MaxVersionBounds(rows, row.key, row.tenant);
  }

  lemma {:induction false} DeployRises(store: Store, deployment: Id, tenant: Option<string>, items: seq<Item>)
    requires VersionsRise(store.rows)
    ensures var r := DeployItems(store, deployment, tenant, items); r.Ok? ==> VersionsRise(r.value.0.rows)
  {
    if |items| > 0 {
      DeployRises(store, deployment, tenant, items[..|items| - 1]);
      var r := DeployItems(store, deployment, tenant, items[..|items| - 1]);
      var item := items[|items| - 1];
      if r.Ok? && item.resolved.Some? {
        AppendRises(r.value.0.rows, EntryFor(r.value.0.rows, deployment, tenant, item).definition);
      }
    }
  }

  /** Deleting keeps a subsequence: the surviving rows with their places in the old table. */
  lemma {:induction false} OutsidePlaces(rows: seq<Record>, deployment: Id) returns (places: seq<nat>)
    ensures |places| == |RowsOutside(rows, deployment)|
    ensures forall i :: 0 <= i < |places| ==> places[i] < |rows| && RowsOutside(rows, deployment)[i] == rows[places[i]]
    ensures forall i, j :: 0 <= i < j < |places| ==> places[i] < places[j]
  {
    if |rows| == 0 {
      places := [];
    } else {
      var rest := OutsidePlaces(rows[1..], deployment);
      var shifted := seq(|rest|, i requires 0 <= i < |rest| => rest[i] + 1);
      if rows[0].deployment == deployment {
        places := shifted;
      } else {
        places := [0] + shifted;
      }
    }
  }

  lemma {:induction false} SetCategoryPointwise(rows: seq<Record>, id: Id, category: Option<string>)
    ensures |SetCategory(rows, id, category)| == |rows|
    ensures forall i :: 0 <= i < |rows| ==>
              SetCategory(rows, id, category)[i] == if rows[i].id == id then Categorised(rows[i], category) else rows[i]
  {
    if |rows| > 0 {
      SetCategoryPointwise(rows[1..], id, category);
    }
  }

  /** In every run the versions of one key and tenant are pairwise distinct and rise as deployed. */
  lemma {:induction false} RunVersionsRise(ops: seq<Op>)
    ensures VersionsRise(Run(ops).rows)
  {
    if |ops| > 0 {
      RunVersionsRise(ops[..|ops| - 1]);
      var before := Run(ops[..|ops| - 1]);
      match ops[|ops| - 1] {
        case Deploy(deployment, tenant, items) =>
          DeployRises(before, deployment, tenant, items);
        case Delete(deployment) =>
          var places := OutsidePlaces(before.rows, deployment);
        case Categorise(id, category) =>
          SetCategoryPointwise(before.rows, id, category);
      }
    }
  }

  /** How many definitions the run has tried to deploy. */
  function Offered(ops: seq<Op>): nat {
    if |ops| == 0 then 0 else
      Offered(ops[..|ops| - 1]) + if ops[|ops| - 1].Deploy? then |ops[|ops| - 1].items| else 0
  }

  ghost predicate VersionsUpTo(rows: seq<Record>, bound: nat) {
    forall i :: 0 <= i < |rows| ==> rows[i].version <= bound
  }

  lemma {:induction false} MaxVersionUpTo(rows: seq<Record>, key: string, tenant: Option<string>, bound: nat)
    requires VersionsUpTo(rows, bound)
    ensures MaxVersion(rows, key, tenant) <= bound
  {
    if |rows| > 0 {
      MaxVersionUpTo(rows[..|rows| - 1], key, tenant, bound);
    }
  }

  lemma {:induction false} DeployUpTo(
      store: Store, deployment: Id, tenant: Option<string>, items: seq<Item>, bound: nat)
    requires VersionsUpTo(store.rows, bound)
    ensures var r := DeployItems(store, deployment, tenant, items); r.Ok? ==>
            VersionsUpTo(r.value.0.rows, bound + |items|)
  {
    if |items| > 0 {
      DeployUpTo(store, deployment, tenant, items[..|items| - 1], bound);
      var r := DeployItems(store, deployment, tenant, items[..|items| - 1]);
      if r.Ok? {
        MaxVersionUpTo(r.value.0.rows, items[|items| - 1].key, tenant, bound + |items| - 1);
      }
    }
  }

  /**
   * Versions never exceed the number of definitions offered for deployment, so the program's 32-bit
   * versions cannot overflow in a run that offers fewer than 2^31.
   */
  lemma {:induction false} RunVersionsBounded(ops: seq<Op>)
    ensures VersionsUpTo(Run(ops).rows, Offered(ops))
  {
    if |ops| > 0 {
      RunVersionsBounded(ops[..|ops| - 1]);
      var before := Run(ops[..|ops| - 1]);
      match ops[|ops| - 1] {
        case Deploy(deployment, tenant, items) =>
          DeployUpTo(before, deployment, tenant, items, Offered(ops[..|ops| - 1]));
        case Delete(deployment) =>
          var places := OutsidePlaces(before.rows, deployment);
        case Categorise(id, category) =>
          SetCategoryPointwise(before.rows, id, category);
      }
    }
  }

  // ---- What a deployment stores -----------------------------------------------------

  ghost predicate InLine(row: Record, key: string, tenant: Option<string>) {
    row.key == key && row.tenant == tenant
  }

  /** 1 when no row has this key and tenant, otherwise one above the highest of those. */
  ghost predicate IsNextVersion(version: nat, rows: seq<Record>, key: string, tenant: Option<string>) {
    && (forall i :: 0 <= i < |rows| && InLine(rows[i], key, tenant) ==> rows[i].version < version)
    && (version == 1 || exists i :: 0 <= i < |rows| && InLine(rows[i], key, tenant) && rows[i].version == version - 1)
  }

  lemma {:induction false} MaxVersionReached(rows: seq<Record>, key: string, tenant: Option<string>)
    ensures MaxVersion(rows, key, tenant) == 0 ||
            exists i :: 0 <= i < |rows| && InLine(rows[i], key, tenant)
                && rows[i].version == MaxVersion(rows, key, tenant)
  {
    if |rows| > 0 {
      var rest, last := rows[..|rows| - 1], rows[|rows| - 1];
      MaxVersionReached(rest, key, tenant);
      if MaxVersion(rows, key, tenant) == MaxVersion(rest, key, tenant) && MaxVersion(rest, key, tenant) > 0 {
        var i :| 0 <= i < |rest| && InLine(rest[i], key, tenant) && rest[i].version == MaxVersion(rest, key, tenant);
        assert rows[i] == rest[i];
      } else if MaxVersion(rows, key, tenant) > 0 {
        assert rows[|rows| - 1] == last;
      }
    }
  }

  lemma NextVersionIs(rows: seq<Record>, key: string, tenant: Option<string>)
    ensures IsNextVersion(NextVersion(rows, key, tenant), rows, key, tenant)
  {
    MaxVersionBounds(rows, key, tenant);
    MaxVersionReached(rows, key, tenant);
    hide MaxVersion;
  }

  /**
   * The entry is the item's: its key, category, content and resolved references, the tenant and
   * deployment of the request, and a version that follows on those stored before.
   */
  ghost predicate IsEntryFor(
      entry: Entry, item: Item, deployment: Id, tenant: Option<string>, stored: seq<Record>) {
    var d, c := entry.definition, entry.composition;
    && item.resolved.Some? && c.references == item.resolved.value
    && d.id == DefinitionId(deployment, item.key) && c.definition == d.id
    && d.deployment == deployment && c.deployment == deployment
    && d.key == item.key && d.tenant == tenant
    && d.category == item.category && d.modelCategory == item.category && d.content == item.content
    && IsNextVersion(d.version, stored, item.key, tenant) && c.version == d.version
  }

  /** Rows of other keys do not matter for the next version. */
  lemma OtherRowsDontCount(version: nat, rows: seq<Record>, more: seq<Record>, key: string, tenant: Option<string>)
    requires IsNextVersion(version, rows + more, key, tenant)
    requires forall i :: 0 <= i < |more| ==> more[i].key != key
    ensures IsNextVersion(version, rows, key, tenant)
  {
    var all := rows + more;
    forall i | 0 <= i < |rows| && InLine(rows[i], key, tenant) ensures rows[i].version < version {
      assert all[i] == rows[i];
    }
    if version != 1 {
      forall j | |rows| <= j < |all| ensures all[j].key != key {
        assert all[j] == more[j - |rows|];
      }
      var i :| 0 <= i < |all| && InLine(all[i], key, tenant) && all[i].version == version - 1;
      assert rows[i] == all[i];
    }
  }

  function RowsOf(entries: seq<Entry>): seq<Record> {
    if |entries| == 0 then [] else RowsOf(entries[..|entries| - 1]) + [entries[|entries| - 1].definition]
  }

  lemma {:induction false} RowsOfAt(entries: seq<Entry>)
    ensures |RowsOf(entries)| == |entries|
    ensures forall i :: 0 <= i < |entries| ==> RowsOf(entries)[i] == entries[i].definition
  {
    if |entries| > 0 {
      RowsOfAt(entries[..|entries| - 1]);
    }
  }

  /** A deployment succeeds exactly when no key is repeated and everything resolves. */
  lemma {:induction false} DeploysIff(store: Store, deployment: Id, tenant: Option<string>, items: seq<Item>)
    ensures DeployItems(store, deployment, tenant, items).Ok? <==>
            && (forall i, j :: 0 <= i < j < |items| ==> items[i].key != items[j].key)
            && (forall i :: 0 <= i < |items| ==> items[i].resolved.Some?)
  {
    if |items| > 0 {
      var rest := items[..|items| - 1];
      DeploysIff(store, deployment, tenant, rest);
      assert forall i :: 0 <= i < |rest| ==> rest[i] == items[i];
    }
  }

  /** Otherwise it fails at the first item whose key came before or whose references do not resolve. */
  lemma {:induction false} DeployErrorIs(store: Store, deployment: Id, tenant: Option<string>, items: seq<Item>)
      returns (i: nat)
    requires DeployItems(store, deployment, tenant, items).Err?
    ensures i < |items| && DeployItems(store, deployment, tenant, items[..i]).Ok?
    ensures DeployItems(store, deployment, tenant, items).error
         == if exists j :: 0 <= j < i && items[j].key == items[i].key then DuplicateKey(items[i].key)
            else UnresolvedReference(items[i].key)
    ensures items[i].resolved.None? || exists j :: 0 <= j < i && items[j].key == items[i].key
  {
    var n := |items| - 1;
    var rest := items[..n];
    if DeployItems(store, deployment, tenant, rest).Err? {
      i := DeployErrorIs(store, deployment, tenant, rest);
      assert rest[..i] == items[..i] && rest[i] == items[i];
      assert forall j :: 0 <= j < i ==> rest[j] == items[j];
    } else {
      i := n;
    }
  }

  lemma EntryForIs(stored: seq<Record>, more: seq<Record>, deployment: Id, tenant: Option<string>, item: Item)
    requires item.resolved.Some? && forall i :: 0 <= i < |more| ==> more[i].key != item.key
    ensures IsEntryFor(EntryFor(stored + more, deployment, tenant, item), item, deployment, tenant, stored)
  {
    hide NextVersion, DefinitionId, IsNextVersion;
    NextVersionIs(stored + more, item.key, tenant);
    OtherRowsDontCount(NextVersion(stored + more, item.key, tenant), stored, more, item.key, tenant);
  }

  /** The last item of a deployment that succeeds. */
  lemma DeployLast(store: Store, deployment: Id, tenant: Option<string>, items: seq<Item>)
    requires |items| > 0 && DeployItems(store, deployment, tenant, items).Ok?
    ensures var item := items[|items| - 1];
            var r := DeployItems(store, deployment, tenant, items[..|items| - 1]);
            && r.Ok? && item.resolved.Some? && (forall i :: 0 <= i < |items| - 1 ==> items[i].key != item.key)
            && var entry := EntryFor(r.value.0.rows, deployment, tenant, item);
               DeployItems(store, deployment, tenant, items).value == (AddEntry(r.value.0, entry), r.value.1 + [entry])
  {
    hide EntryFor, AddEntry;
  }

  lemma KeyOfEntry(entry: Entry, item: Item, deployment: Id, tenant: Option<string>, stored: seq<Record>)
    requires IsEntryFor(entry, item, deployment, tenant, stored)
    ensures entry.definition.key == item.key
  {
  }

  /** One entry per item, in order, each the item's own; the rows are appended and the deployment becomes known. */
  lemma {:induction false} DeployStores(store: Store, deployment: Id, tenant: Option<string>, items: seq<Item>)
    requires DeployItems(store, deployment, tenant, items).Ok?
    ensures var (session, entries) := DeployItems(store, deployment, tenant, items).value;
            && |entries| == |items|
            && (forall i :: 0 <= i < |items| ==> IsEntryFor(entries[i], items[i], deployment, tenant, store.rows))
            && session.rows == store.rows + RowsOf(entries)
            && session.deployments == store.deployments + {deployment}
  {
    hide DeployItems, IsEntryFor, EntryFor, RowsOf, AddEntry;
    if |items| == 0 {
      DeployNothing(store, deployment, tenant);
      assert items == [];
    } else {
      var n := |items| - 1;
      var rest, item := items[..n], items[n];
      assert forall i :: 0 <= i < n ==> rest[i] == items[i];
      DeployLast(store, deployment, tenant, items);
      DeployStores(store, deployment, tenant, rest);
      var (session, entries) := DeployItems(store, deployment, tenant, rest).value;
      RowsOfAt(entries);
      forall i | 0 <= i < n ensures RowsOf(entries)[i].key != item.key {
        KeyOfEntry(entries[i], rest[i], deployment, tenant, store.rows);
      }
      EntryForIs(store.rows, RowsOf(entries), deployment, tenant, item);
      var entry := EntryFor(session.rows, deployment, tenant, item);
      AddEntryIs(session, entry);
      RowsOfSnoc(entries, entry);
      RowsRegroup(store.rows, RowsOf(entries), entry.definition);
      assert items == rest + [item];
    }
  }

  lemma DeployNothing(store: Store, deployment: Id, tenant: Option<string>)
    ensures DeployItems(store, deployment, tenant, [])
         == Ok((store.(deployments := store.deployments + {deployment}), []))
    ensures store.rows + RowsOf([]) == store.rows
  {
  }

  lemma AddEntryIs(store: Store, entry: Entry)
    ensures AddEntry(store, entry).rows == store.rows + [entry.definition]
    ensures AddEntry(store, entry).deployments == store.deployments
  {
  }

  lemma RowsRegroup(a: seq<Record>, b: seq<Record>, r: Record)
    ensures a + b + [r] == a + (b + [r])
  {
  }

  lemma RowsOfSnoc(entries: seq<Entry>, entry: Entry)
    ensures RowsOf(entries + [entry]) == RowsOf(entries) + [entry.definition]
  {
    assert (entries + [entry])[..|entries|] == entries;
  }

  /** A category change sets both categories of the row and nothing else. */
  lemma CategorisedIs(row: Record, category: Option<string>)
    ensures var r := Categorised(row, category);
            && r.category == category && r.modelCategory == category
            && r.(category := row.category, modelCategory := row.modelCategory) == row
  {
  }

  /** A deletion keeps exactly the rows of other deployments. */
  lemma {:induction false} DeletedRows(rows: seq<Record>, deployment: Id, r: Record)
    ensures r in RowsOutside(rows, deployment) <==> r in rows && r.deployment != deployment
  {
    if |rows| > 0 {
      DeletedRows(rows[1..], deployment, r);
      assert rows == [rows[0]] + rows[1..];
    }
  }

  lemma DeletionForgets(store: Store, deployment: Id, other: Id)
    ensures other in DeleteDeployment(store, deployment).deployments <==>
            other in store.deployments && other != deployment
  {
  }

  // ---- Latest by key --------------------------------------------------------------

  /** `None` asks for rows without a tenant, and an empty tenant counts as none. */
  predicate TenantMatches(row: Record, tenant: Option<string>) {
    match tenant
    case Some(t) => row.tenant == Some(t)
    case None => row.tenant == None || row.tenant == Some("")
  }

  predicate Matches(row: Record, key: string, tenant: Option<string>) {
    row.key == key && TenantMatches(row, tenant)
  }

  /** `a` sorts before `b`: version descending, then id ascending. */
  predicate Outranks(a: Record, b: Record) {
    a.version > b.version || (a.version == b.version && TextLeq(a.id.text, b.id.text))
  }

  /** The first row of the ordered query result. */
  function Latest(rows: seq<Record>, key: string, tenant: Option<string>): Option<Record> {
    if |rows| == 0 then None else
      var rest := Latest(rows[..|rows| - 1], key, tenant);
      var last := rows[|rows| - 1];
      if !Matches(last, key, tenant) then rest
      else if rest.None? || !Outranks(rest.value, last) then Some(last)
      else rest
  }

  /** The row of this key and exactly this tenant that was deployed last. */
  function LastDeployed(rows: seq<Record>, key: string, tenant: Option<string>): Option<Record> {
    if |rows| == 0 then None
    else if rows[|rows| - 1].key == key && rows[|rows| - 1].tenant == tenant then Some(rows[|rows| - 1])
    else LastDeployed(rows[..|rows| - 1], key, tenant)
  }

  lemma {:induction false} LastDeployedIsRow(rows: seq<Record>, key: string, tenant: Option<string>)
    ensures var last := LastDeployed(rows, key, tenant);
            last.Some? ==> last.value.key == key && last.value.tenant == tenant && last.value in rows
  {
    if |rows| > 0 {
      LastDeployedIsRow(rows[..|rows| - 1], key, tenant);
    }
  }

  lemma RisesPrefix(rows: seq<Record>)
    requires |rows| > 0 && VersionsRise(rows)
    ensures VersionsRise(rows[..|rows| - 1])
    ensures forall r :: r in rows[..|rows| - 1] && SameLine(r, rows[|rows| - 1]) ==>
            r.version < rows[|rows| - 1].version
  {
    var p := rows[..|rows| - 1];
    assert forall i :: 0 <= i < |p| ==> p[i] == rows[i];
  }

  /** For a named tenant the lookup finds the definition deployed last for that key and tenant. */
  lemma {:induction false} LatestIsLastDeployed(rows: seq<Record>, key: string, tenant: string)
    requires VersionsRise(rows)
    ensures Latest(rows, key, Some(tenant)) == LastDeployed(rows, key, Some(tenant))
  {
    if |rows| > 0 {
      RisesPrefix(rows);
      LatestIsLastDeployed(rows[..|rows| - 1], key, tenant);
      LastDeployedIsRow(rows[..|rows| - 1], key, Some(tenant));
    }
  }

  function Stronger(a: Option<Record>, b: Option<Record>): Option<Record> {
    if a.None? then b else if b.None? || Outranks(a.value, b.value) then a else b
  }

  lemma {:induction false} RankTotal(a: Record, b: Record, c: Record)
    ensures Outranks(a, b) || Outranks(b, a)
    ensures Outranks(a, b) && Outranks(b, a) ==> a.id == b.id
    ensures Outranks(a, b) && Outranks(b, c) ==> Outranks(a, c)
  {
    TextOrderTotal(a.id.text, b.id.text);
    if TextLeq(a.id.text, b.id.text) && TextLeq(b.id.text, c.id.text) {
      TextOrderTransitive(a.id.text, b.id.text, c.id.text);
    }
  }

  ghost predicate RowIdsDistinct(rows: seq<Record>) {
    forall i, j :: 0 <= i < j < |rows| ==> rows[i].id != rows[j].id
  }

  /** A lookup without a tenant weighs the untenanted line against the empty-tenant line. */
  lemma {:induction false} TenantlessLatest(rows: seq<Record>, key: string)
    requires VersionsRise(rows) && RowIdsDistinct(rows)
    ensures Latest(rows, key, None) == Stronger(LastDeployed(rows, key, None), LastDeployed(rows, key, Some("")))
  {
    if |rows| > 0 {
      var p, last := rows[..|rows| - 1], rows[|rows| - 1];
      RisesPrefix(rows);
      assert forall i :: 0 <= i < |p| ==> p[i] == rows[i];
      TenantlessLatest(p, key);
      if Matches(last, key, None) {
        var a, b := LastDeployed(p, key, None), LastDeployed(p, key, Some(""));
        LastDeployedIsRow(p, key, None);
        LastDeployedIsRow(p, key, Some(""));
        hide TextLeq, LastDeployed;
        if a.Some? {
          RankTotal(a.value, last, last);
          RankTotal(last, a.value, if b.Some? then b.value else last);
        }
        if b.Some? {
          RankTotal(b.value, last, last);
          RankTotal(last, b.value, if a.Some? then a.value else last);
        }
      }
    }
  }

  /** So it returns the untenanted definition deployed last exactly when no empty-tenant one outranks it. */
  lemma TenantlessIsLastDeployedIff(rows: seq<Record>, key: string)
    requires VersionsRise(rows) && RowIdsDistinct(rows)
    requires LastDeployed(rows, key, None).Some?
    ensures var own, other := LastDeployed(rows, key, None), LastDeployed(rows, key, Some(""));
            Latest(rows, key, None) == own <==> other.None? || Outranks(own.value, other.value)
  {
    TenantlessLatest(rows, key);
    LastDeployedIsRow(rows, key, None);
    LastDeployedIsRow(rows, key, Some(""));
  }

  /** A run in which an empty-tenant definition hides the untenanted one deployed after it. */
  lemma TenantlessLookupCanMiss(first: Id, second: Id, third: Id)
    ensures var item := Item("orders", None, "", Some([]));
            var rows := Run([Deploy(first, Some(""), [item]), Deploy(second, Some(""), [item]),
                Deploy(third, None, [item])]).rows;
            && |rows| == 3 && rows[2].tenant == None && rows[2].deployment == third
            && Latest(rows, "orders", None) == Some(rows[1]) && rows[1].tenant == Some("")
  {
    hide Run, Latest, MaxVersion, DefinitionId;
    NothingRun();
    var item := Item("orders", None, "", Some([]));
    var o1, o2, o3 := Deploy(first, Some(""), [item]), Deploy(second, Some(""), [item]), Deploy(third, None, [item]);
    var r1 := EntryFor([], first, Some(""), item).definition;
    var r2 := EntryFor([r1], second, Some(""), item).definition;
    var r3 := EntryFor([r1, r2], third, None, item).definition;
    RunOne([], o1, [], [r1]);
    assert [] + [o1] == [o1];
    RunOne([o1], o2, [r1], [r1, r2]);
    assert [o1] + [o2] == [o1, o2];
    RunOne([o1, o2], o3, [r1, r2], [r1, r2, r3]);
    SmallVersions(r1, r2);
    HiddenByEmptyTenant(r1, r2, r3);
    assert [o1, o2] + [o3] == [o1, o2, o3];
  }

  lemma NothingRun()
    ensures Run([]).rows == []
  {
  }

  lemma SmallVersions(r1: Record, r2: Record)
    requires r1.key == r2.key == "orders" && r1.tenant == r2.tenant == Some("")
    ensures MaxVersion([], "orders", Some("")) == 0 && MaxVersion([r1], "orders", Some("")) == r1.version
    ensures MaxVersion([r1, r2], "orders", None) == 0
  {
    assert [r1, r2][..1] == [r1] && [r1][..0] == [];
    assert MaxVersion([r1], "orders", None) == 0;
  }

  lemma HiddenByEmptyTenant(r1: Record, r2: Record, r3: Record)
    requires r1.key == r2.key == r3.key == "orders"
    requires r1.tenant == r2.tenant == Some("") && r3.tenant == None
    requires r1.version < r2.version && r3.version < r2.version
    ensures Latest([r1, r2, r3], "orders", None) == Some(r2)
  {
    assert [r1, r2, r3][..2] == [r1, r2] && [r1, r2][..1] == [r1] && [r1][..0] == [];
    assert Latest([r1], "orders", None) == Some(r1);
    assert Latest([r1, r2], "orders", None) == Some(r2);
  }

  lemma RunOne(ops: seq<Op>, op: Op, rows: seq<Record>, rows': seq<Record>)
    requires Run(ops).rows == rows && op.Deploy? && |op.items| == 1 && op.items[0].resolved.Some?
    requires rows' == rows + [EntryFor(rows, op.deployment, op.tenant, op.items[0]).definition]
    ensures Run(ops + [op]).rows == rows'
  {
    assert (ops + [op])[..|ops|] == ops;
    assert op.items == [op.items[0]];
    SingleDeploy(Run(ops), op.deployment, op.tenant, op.items[0]);
  }

  lemma SingleDeploy(store: Store, deployment: Id, tenant: Option<string>, item: Item)
    requires item.resolved.Some?
    ensures Apply(store, Deploy(deployment, tenant, [item])).rows
         == store.rows + [EntryFor(store.rows, deployment, tenant, item).definition]
  {
    assert [item][..0] == [];
    assert DeployItems(store, deployment, tenant, []).Ok?;
  }

  // ---- Row ids --------------------------------------------------------------------

  /** `app-deployment:` followed by a 36-character UUID. */
  const DEPLOYMENT_ID_LENGTH := 51

  lemma SplitId(d: Id, k: string)
    ensures var t := DefinitionId(d, k).text;
            |t| == 16 + |d.text| + |k| && t[15..15 + |d.text|] == d.text && t[16 + |d.text|..] == k
  {
  }

  lemma DefinitionIdInjective(d: Id, k: string, d': Id, k': string)
    requires |d.text| == |d'.text|
    ensures DefinitionId(d, k) == DefinitionId(d', k') ==> d == d' && k == k'
  {
    if DefinitionId(d, k) == DefinitionId(d', k') {
      SplitId(d, k);
      SplitId(d', k');
    }
  }

  /** A row and its composition come and go together, and agree on deployment and version. */
  ghost predicate ComposedAt(store: Store, id: Id) {
    match Find(store.rows, id)
    case None => id !in store.compositions
    case Some(row) =>
      && id in store.compositions
      && store.compositions[id].deployment == row.deployment
      && store.compositions[id].version == row.version
  }

  ghost predicate Composed(store: Store) {
    forall id :: ComposedAt(store, id)
  }

  lemma {:induction false} FindFacts(rows: seq<Record>, id: Id)
    ensures Find(rows, id).Some? ==> Find(rows, id).value in rows && Find(rows, id).value.id == id
    ensures Find(rows, id).None? <==> forall i :: 0 <= i < |rows| ==> rows[i].id != id
  {
    if |rows| > 0 {
      FindFacts(rows[1..], id);
      assert forall i :: 0 < i < |rows| ==> rows[i] == rows[1..][i - 1];
    }
  }

  lemma {:induction false} FindAppend(rows: seq<Record>, row: Record, id: Id)
    ensures Find(rows + [row], id) ==
            if Find(rows, id).Some? then Find(rows, id) else if row.id == id then Some(row) else None
  {
    if |rows| > 0 {
      assert (rows + [row])[1..] == rows[1..] + [row];
      FindAppend(rows[1..], row, id);
    }
  }

  lemma {:induction false} FindOutside(rows: seq<Record>, deployment: Id, id: Id)
    requires RowIdsDistinct(rows)
    ensures Find(RowsOutside(rows, deployment), id) ==
            if Find(rows, id).Some? && Find(rows, id).value.deployment == deployment then None else Find(rows, id)
    ensures id in IdsOf(rows, deployment) <==> Find(rows, id).Some? && Find(rows, id).value.deployment == deployment
  {
    if |rows| > 0 {
      FindOutside(rows[1..], deployment, id);
      FindFacts(rows[1..], id);
      assert forall i :: 0 < i < |rows| ==> rows[i] == rows[1..][i - 1];
    }
  }

  lemma {:induction false} FindCategorised(rows: seq<Record>, id: Id, category: Option<string>, x: Id)
    ensures Find(SetCategory(rows, id, category), x) ==
            if Find(rows, x).None? then None
            else if x == id then Some(Categorised(Find(rows, x).value, category)) else Find(rows, x)
  {
    if |rows| > 0 {
      FindCategorised(rows[1..], id, category, x);
    }
  }
}
