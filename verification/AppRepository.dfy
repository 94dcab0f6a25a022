/**
 * The app repository service with its definition cache in front of the durable store, for runs
 * whose operations do not interleave.
 */
module AppRepository {
  import opened Common
  import opened AppStore
  import opened AppCache

  /** Every cached entry is what a load from the store would give now. */
  ghost predicate Coherent(store: Store, cached: map<Id, Entry>) {
    forall id :: id in cached ==> Load(store, id) == Some(cached[id])
  }

  ghost predicate Sound(store: Store) {
    RowIdsDistinct(store.rows) && Composed(store)
  }

  /** The ids a deployment gives its definitions. */
  ghost function Names(deployment: Id, items: seq<Item>): set<Id> {
    set i | 0 <= i < |items| :: DefinitionId(deployment, items[i].key)
  }

  /** None of these ids is in use: the deployment id they are built from was freshly drawn. */
  ghost predicate Unused(store: Store, names: set<Id>) {
    forall id :: id in names ==> Find(store.rows, id).None?
  }

  // ---- What a deployment does to the store ----------------------------------------

  lemma AddEntryLoad(store: Store, entry: Entry, id: Id)
    requires Find(store.rows, entry.definition.id).None?
    ensures Load(AddEntry(store, entry), id) == if id == entry.definition.id then Some(entry) else Load(store, id)
    ensures id != entry.definition.id ==> Find(AddEntry(store, entry).rows, id) == Find(store.rows, id)
  {
    FindAppend(store.rows, entry.definition, id);
  }

  lemma AddEntrySound(store: Store, entry: Entry)
    requires Sound(store) && Find(store.rows, entry.definition.id).None?
    requires entry.composition.deployment == entry.definition.deployment
    requires entry.composition.version == entry.definition.version
    ensures Sound(AddEntry(store, entry))
  {
    FindFacts(store.rows, entry.definition.id);
    forall id ensures ComposedAt(AddEntry(store, entry), id) {
      assert ComposedAt(store, id);
      FindAppend(store.rows, entry.definition, id);
    }
  }

  /** Outside `names` both stores answer alike. */
  ghost predicate SameOutside(before: Store, after: Store, names: set<Id>) {
    forall id :: id !in names ==>
      Load(after, id) == Load(before, id) && Find(after.rows, id) == Find(before.rows, id)
  }

  ghost predicate AllLoadable(store: Store, entries: seq<Entry>) {
    forall i :: 0 <= i < |entries| ==> Load(store, entries[i].definition.id) == Some(entries[i])
  }

  ghost predicate AllNamed(entries: seq<Entry>, names: set<Id>) {
    forall i :: 0 <= i < |entries| ==> entries[i].definition.id in names
  }

  /** One more definition of the same deployment. */
  lemma OneMoreEntry(before: Store, session: Store, entries: seq<Entry>, names: set<Id>, entry: Entry)
    requires SameOutside(before, session, names) && AllLoadable(session, entries) && AllNamed(entries, names)
    requires entry.definition.id !in names && Find(before.rows, entry.definition.id).None?
    ensures Find(session.rows, entry.definition.id).None?
    ensures SameOutside(before, AddEntry(session, entry), names + {entry.definition.id})
    ensures AllLoadable(AddEntry(session, entry), entries + [entry])
    ensures AllNamed(entries + [entry], names + {entry.definition.id})
  {
    hide Load, Find, AddEntry;
    forall id ensures Load(AddEntry(session, entry), id) == if id == entry.definition.id then Some(entry)
        else Load(session, id) {
      AddEntryLoad(session, entry, id);
    }
    forall id | id != entry.definition.id ensures Find(AddEntry(session, entry).rows, id) == Find(session.rows, id) {
      AddEntryLoad(session, entry, id);
    }
  }

  lemma NewName(deployment: Id, items: seq<Item>, i: nat)
    requires i < |items| && forall k :: 0 <= k < i ==> items[k].key != items[i].key
    ensures DefinitionId(deployment, items[i].key) !in Names(deployment, items[..i])
    ensures Names(deployment, items[..i + 1]) == Names(deployment, items[..i])
            + {DefinitionId(deployment, items[i].key)}
  {
    hide DefinitionId;
    forall k | 0 <= k < i ensures DefinitionId(deployment, items[k].key) != DefinitionId(deployment, items[i].key) {
      DefinitionIdInjective(deployment, items[k].key, deployment, items[i].key);
    }
    assert forall k :: 0 <= k < i ==> items[..i][k] == items[k] && items[..i + 1][k] == items[k];
    assert items[..i + 1][i] == items[i];
  }

  /** The entries of a successful deployment load back from the committed store; all else is as before. */
  lemma {:induction false} DeployLoads(store: Store, deployment: Id, tenant: Option<string>, items: seq<Item>)
    requires Sound(store) && Unused(store, Names(deployment, items))
    requires DeployItems(store, deployment, tenant, items).Ok?
    ensures var (session, entries) := DeployItems(store, deployment, tenant, items).value;
            && Sound(session)
            && |entries| == |items|
            && SameOutside(store, session, Names(deployment, items))
            && AllLoadable(session, entries)
            && AllNamed(entries, Names(deployment, items))
  {
    if |items| > 0 {
      var n := |items| - 1;
      var before, item := items[..n], items[n];
      assert items[..n + 1] == items;
      NewName(deployment, items, n);
      DeployLoads(store, deployment, tenant, before);
      var (session, entries) := DeployItems(store, deployment, tenant, before).value;
      var entry := EntryFor(session.rows, deployment, tenant, item);
      assert entry.definition.id in Names(deployment, items);
      OneMoreEntry(store, session, entries, Names(deployment, before), entry);
      AddEntrySound(session, entry);
    } else {
      var session := store.(deployments := store.deployments + {deployment});
      assert forall id :: ComposedAt(store, id) ==> ComposedAt(session, id);
    }
  }

  // ---- What deletion and a category change do to the store ------------------------

  lemma OutsideDistinct(rows: seq<Record>, deployment: Id)
    requires RowIdsDistinct(rows)
    ensures RowIdsDistinct(RowsOutside(rows, deployment))
  {
    var places := OutsidePlaces(rows, deployment);
  }

  lemma DeleteLoad(store: Store, deployment: Id, id: Id)
    requires Sound(store)
    ensures Load(DeleteDeployment(store, deployment), id) ==
            if id in IdsOf(store.rows, deployment) then None else Load(store, id)
    ensures ComposedAt(DeleteDeployment(store, deployment), id)
  {
    assert ComposedAt(store, id);
    FindOutside(store.rows, deployment, id);
  }

  lemma DeleteSound(store: Store, deployment: Id)
    requires Sound(store)
    ensures Sound(DeleteDeployment(store, deployment))
  {
    OutsideDistinct(store.rows, deployment);
    forall id ensures ComposedAt(DeleteDeployment(store, deployment), id) {
      DeleteLoad(store, deployment, id);
    }
  }

  lemma CategoriseLoad(store: Store, id: Id, category: Option<string>, x: Id)
    ensures x != id ==> Load(store.(rows := SetCategory(store.rows, id, category)), x) == Load(store, x)
    ensures ComposedAt(store, x) ==> ComposedAt(store.(rows := SetCategory(store.rows, id, category)), x)
  {
    FindCategorised(store.rows, id, category, x);
  }

  lemma CategoriseSound(store: Store, id: Id, category: Option<string>)
    requires Sound(store)
    ensures Sound(store.(rows := SetCategory(store.rows, id, category)))
  {
    SetCategoryPointwise(store.rows, id, category);
    forall x ensures ComposedAt(store.(rows := SetCategory(store.rows, id, category)), x) {
      assert ComposedAt(store, x);
      CategoriseLoad(store, id, category, x);
    }
  }

  // ---- What the cache calls leave behind ------------------------------------------

  lemma {:induction false} EvictedKeepsValues<V>(c: CacheState<V>)
    ensures Evicted(c).entries.Keys <= c.entries.Keys
    ensures forall k :: k in Evicted(c).entries ==> Evicted(c).entries[k] == c.entries[k]
    decreases |c.order|
  {
    if c.limit.Some? && |c.entries| > c.limit.value && c.order != [] {
      EvictedKeepsValues(c.(entries := c.entries - {c.order[0]}, order := c.order[1..]));
    }
  }

  /** A call adds at most the entry it was given; everything else held was held before. */
  lemma CallAddsAtMostItsEntry<V>(c: CacheState<V>, call: Call<V>)
    ensures var d := Step(c, call);
            && (forall k :: k in d.entries ==>
                 (k in c.entries && d.entries[k] == c.entries[k])
                 || ((call.Put? || call.PutIfAbsent?) && k == call.id && d.entries[k] == call.value))
            && (call.Remove? ==> call.id !in d.entries)
            && (call.Put? && call.id in d.entries ==> d.entries[call.id] == call.value)
  {
    match call {
      case Put(id, value) =>
        var e := if id in c.entries then c.(order := WithoutFirst(c.order, id)) else c;
        EvictedKeepsValues(e.(entries := e.entries[id := value], order := e.order + [id]));
      case PutIfAbsent(id, value) =>
        EvictedKeepsValues(c.(entries := c.entries[id := value], order := c.order + [id]));
      case _ =>
    }
  }

  // ---- The service ----------------------------------------------------------------

  /** The body of a deployment up to the commit: all of its rows, or the first error. */
  method PrepareSession(store: Store, deployment: Id, tenant: Option<string>, items: seq<Item>)
    returns (r: Result<(Store, seq<Entry>), StoreError>)
    ensures r == DeployItems(store, deployment, tenant, items)
  {
    var session := store.(deployments := store.deployments + {deployment});
    var entries: seq<Entry> := [];
    var seenKeys: set<string> := {};
    for i := 0 to |items|
      invariant DeployItems(store, deployment, tenant, items[..i]) == Ok((session, entries))
      invariant forall key :: key in seenKeys <==> exists k :: 0 <= k < i && items[k].key == key
    {
      var item := items[i];
      assert items[..i + 1][..i] == items[..i];
      assert forall k :: 0 <= k < i ==> items[..i + 1][k] == items[k];
      if item.key in seenKeys {
        DeployStops(store, deployment, tenant, items, i);
        return Err(DuplicateKey(item.key));
      }
      if item.resolved.None? {
        DeployStops(store, deployment, tenant, items, i);
        return Err(UnresolvedReference(item.key));
      }
      seenKeys := seenKeys + {item.key};
      var entry := EntryFor(session.rows, deployment, tenant, item);
      session := AddEntry(session, entry);
      entries := entries + [entry];
    }
    assert items[..|items|] == items;
    r := Ok((session, entries));
  }

  // ---- The cache calls of an operation ----------------------------------------------

  function Puts(entries: seq<Entry>): seq<Call<Entry>> {
    seq(|entries|, i requires 0 <= i < |entries| => Call.Put(entries[i].definition.id, entries[i]))
  }

  function Removes(ids: seq<Id>): seq<Call<Entry>> {
    seq(|ids|, i requires 0 <= i < |ids| => Call.Remove(ids[i]))
  }

  lemma PutsTake(entries: seq<Entry>, i: nat)
    requires i < |entries|
    ensures Puts(entries)[..i + 1][..i] == Puts(entries)[..i]
    ensures Puts(entries)[..i + 1][i] == Call.Put(entries[i].definition.id, entries[i])
  {
  }

  lemma PutsLength(entries: seq<Entry>)
    ensures |Puts(entries)| == |entries|
  {
  }

  lemma RemovesLength(ids: seq<Id>)
    ensures |Removes(ids)| == |ids|
  {
  }

  lemma RemovesTake(ids: seq<Id>, i: nat)
    requires i < |ids|
    ensures Removes(ids)[..i + 1][..i] == Removes(ids)[..i] && Removes(ids)[..i + 1][i] == Call.Remove(ids[i])
  {
  }

  lemma RemovedIds(c: CacheState<Entry>, ids: seq<Id>)
    ensures AppCache.Run(c, Removes(ids)).entries == c.entries - Elements(ids)
  {
    hide AppCache.Run;
    RemovesForget(c, Removes(ids));
    var removed := set i | 0 <= i < |Removes(ids)| :: Removes(ids)[i].id;
    forall id | id in ids ensures id in removed {
      var i :| 0 <= i < |ids| && ids[i] == id;
      assert Removes(ids)[i].id == id;
    }
    assert removed == Elements(ids);
  }

  /** After a deployment its definitions are cached, the last ones as far as the limit allows. */
  lemma DeployedAreCached(
      store: Store, deployment: Id, tenant: Option<string>, items: seq<Item>, cache: CacheState<Entry>, i: nat)
    requires DeployItems(store, deployment, tenant, items).Ok? && i < |items| && AppCache.Valid(cache)
    requires cache.limit.Some? ==> |items| - i <= cache.limit.value
    ensures var entries := DeployItems(store, deployment, tenant, items).value.1;
            var cached := AppCache.Run(cache, Puts(entries)).entries;
            i < |entries| && entries[i].definition.id in cached && cached[entries[i].definition.id] == entries[i]
  {
    hide DeployItems, AppCache.Run, AppCache.Valid;
    var entries := DeployItems(store, deployment, tenant, items).value.1;
    DeployStores(store, deployment, tenant, items);
    DeploysIff(store, deployment, tenant, items);
    forall j, k | 0 <= j < k < |entries| ensures entries[j].definition.id != entries[k].definition.id {
      DefinitionIdInjective(deployment, items[j].key, deployment, items[k].key);
    }
    PutsAreCached(cache, Puts(entries), i);
  }

  class AppRepositoryService {
    var store: Store
    const cache: AppDefinitionCache<Entry>

    ghost predicate Valid()
      reads this, cache
    {
      Sound(store) && Coherent(store, cache.entries) && AppCache.Valid(cache.State())
    }

    constructor (cacheLimit: Option<nat>)
      ensures Valid() && store == EMPTY && fresh(cache) && cache.State() == Fresh(cacheLimit)
    {
      store := EMPTY;
      cache := new AppDefinitionCache(cacheLimit);
    }

    /** Commits all definitions of the request or none; the cache is filled after the commit. */
    method Deploy(deployment: Id, tenant: Option<string>, items: seq<Item>) returns (r: Result<seq<Entry>, StoreError>)
      requires Valid() && Unused(store, Names(deployment, items))
      modifies this, cache
      ensures Valid()
      ensures match DeployItems(old(store), deployment, tenant, items)
              case Err(e) => r == Err(e) && store == old(store) && cache.State() == old(cache.State())
              case Ok((session, entries)) => r == Ok(entries) && store == session
      ensures r.Ok? ==> |r.value| == |items| && forall i :: 0 <= i < |items| ==>
                IsEntryFor(r.value[i], items[i], deployment, tenant, old(store.rows))
      ensures r.Ok? ==> cache.State() == AppCache.Run(old(cache.State()), Puts(r.value))
    {
      hide IsEntryFor, AppCache.Run, AppCache.Valid;
      var prepared := PrepareSession(store, deployment, tenant, items);
      if prepared.Err? {
        return Err(prepared.error);
      }
      var (session, entries) := prepared.value;
      DeployLoads(store, deployment, tenant, items);
      DeployStores(store, deployment, tenant, items);
      StillCoherent(store, session, cache.entries, Names(deployment, items));
      store := session;
      PublishEntries(entries);
      r := Ok(entries);
    }

    method PublishEntries(entries: seq<Entry>)
      requires Coherent(store, cache.entries) && AllLoadable(store, entries) && AppCache.Valid(cache.State())
      modifies cache
      ensures Coherent(store, cache.entries)
      ensures cache.State() == AppCache.Run(old(cache.State()), Puts(entries)) && AppCache.Valid(cache.State())
    {
      hide Puts, Load, AppCache.Valid, Step;
      PutsLength(entries);
      for i := 0 to |entries|
        invariant Coherent(store, cache.entries)
        invariant cache.State() == AppCache.Run(old(cache.State()), Puts(entries)[..i])
      {
        var entry := entries[i];
        PutsTake(entries, i);
        CallAddsAtMostItsEntry(cache.State(), Call.Put(entry.definition.id, entry));
        cache.Put(entry.definition.id, entry);
      }
      assert Puts(entries)[..|entries|] == Puts(entries);
      RunFromValid(old(cache.State()), Puts(entries));
    }

    method InvalidateDefinitions(ids: seq<Id>)
      requires AppCache.Valid(cache.State())
      modifies cache
      ensures cache.State() == AppCache.Run(old(cache.State()), Removes(ids)) && AppCache.Valid(cache.State())
      ensures cache.entries == old(cache.entries) - Elements(ids)
    {
      hide AppCache.Valid, Step, Removes;
      RemovesLength(ids);
      for i := 0 to |ids|
        invariant cache.State() == AppCache.Run(old(cache.State()), Removes(ids)[..i])
      {
        RemovesTake(ids, i);
        var _ := cache.Remove(ids[i]);
      }
      assert Removes(ids)[..|ids|] == Removes(ids);
      RunFromValid(old(cache.State()), Removes(ids));
      RemovedIds(old(cache.State()), ids);
    }

    method DeleteDeployment(deployment: Id) returns (r: Result<(), StoreError>)
      requires Valid()
      modifies this, cache
      ensures Valid()
      ensures r.Ok? <==> deployment in old(store.deployments)
      ensures store == if r.Ok? then AppStore.DeleteDeployment(old(store), deployment) else old(store)
      ensures r.Err? ==> r == Err(NotFound(deployment)) && cache.State() == old(cache.State())
      ensures r.Ok? ==> cache.State() == AppCache.Run(old(cache.State()), Removes(IdsOf(old(store.rows), deployment)))
      ensures r.Ok? ==> cache.entries == old(cache.entries) - Elements(IdsOf(old(store.rows), deployment))
    {
      hide AppCache.Run, AppCache.Valid, Removes;
      if deployment !in store.deployments {
        return Err(NotFound(deployment));
      }
      var ids := IdsOf(store.rows, deployment);
      DeleteSound(store, deployment);
      ghost var before := store;
      store := AppStore.DeleteDeployment(store, deployment);
      InvalidateDefinitions(ids);
      hide AppStore.DeleteDeployment, Load, IdsOf;
      forall id | id in cache.entries ensures Load(store, id) == Some(cache.entries[id]) {
        DeleteLoad(before, deployment, id);
      }
      r := Ok(());
    }

    method SetAppDefinitionCategory(id: Id, category: Option<string>) returns (r: Result<Record, StoreError>)
      requires Valid()
      modifies this, cache
      ensures Valid()
      ensures match Find(old(store.rows), id)
              case None => r == Err(NotFound(id)) && store == old(store)
              case Some(row) =>
                && r == Ok(Categorised(row, category))
                && store == old(store).(rows := SetCategory(old(store.rows), id, category))
                && r.value.category == category && r.value.modelCategory == category
                && r.value.(category := row.category, modelCategory := row.modelCategory) == row
      ensures r.Err? ==> cache.State() == old(cache.State())
      ensures r.Ok? ==> cache.State() == Step(old(cache.State()), Call.Remove(id))
      ensures r.Ok? ==> cache.entries == old(cache.entries) - {id}
    {
      var found := Find(store.rows, id);
      if found.None? {
        return Err(NotFound(id));
      }
      CategoriseSound(store, id, category);
      forall x ensures x != id ==> Load(store.(rows := SetCategory(store.rows, id, category)), x) == Load(store, x) {
        CategoriseLoad(store, id, category, x);
      }
      store := store.(rows := SetCategory(store.rows, id, category));
      CallAddsAtMostItsEntry(cache.State(), Call.Remove(id));
      StepKeepsValid(cache.State(), Call.Remove(id));
      var _ := cache.Remove(id);
      r := Ok(Categorised(found.value, category));
    }

    /**
     * Whatever ran before, the answer is the one a direct load from the store gives, and what was
     * found is cached afterwards as the most recent entry.
     */
    method ResolveAppDefinition(id: Id) returns (r: Result<Entry, StoreError>)
      requires Valid()
      modifies cache
      ensures Valid() && store == old(store)
      ensures r == match Load(store, id) case Some(entry) => Ok(entry) case None => Err(NotFound(id))
      ensures id in old(cache.entries) ==> cache.State() == Step(old(cache.State()), Call.Get(id))
      ensures id !in old(cache.entries) && r.Err? ==> cache.State() == old(cache.State())
      ensures id !in old(cache.entries) && r.Ok? ==>
                cache.State() == Step(old(cache.State()), Call.PutIfAbsent(id, r.value))
      ensures r.Ok? ==> id in cache.entries && cache.entries[id] == r.value
      ensures r.Ok? ==> |cache.order| > 0 && cache.order[|cache.order| - 1] == id
    {
      hide AppCache.Valid;
      CallAddsAtMostItsEntry(cache.State(), Call.Get(id));
      StepKeepsValid(cache.State(), Call.Get(id));
      if id in cache.entries {
        UsedIsLast(cache.State(), Call.Get(id));
      }
      var hit := cache.Get(id);
      if hit.Some? {
        return Ok(hit.value);
      }
      var loaded := Load(store, id);
      if loaded.None? {
        return Err(NotFound(id));
      }
      CallAddsAtMostItsEntry(cache.State(), Call.PutIfAbsent(id, loaded.value));
      StepKeepsValid(cache.State(), Call.PutIfAbsent(id, loaded.value));
      UsedIsLast(cache.State(), Call.PutIfAbsent(id, loaded.value));
      var entry := cache.PutIfAbsent(id, loaded.value);
      r := Ok(entry);
    }

    method EvictAppDefinition(id: Id)
      requires Valid()
      modifies cache
      ensures Valid() && cache.State() == Step(old(cache.State()), Call.Remove(id))
      ensures cache.entries == old(cache.entries) - {id}
    {
      CallAddsAtMostItsEntry(cache.State(), Call.Remove(id));
      StepKeepsValid(cache.State(), Call.Remove(id));
      var _ := cache.Remove(id);
    }

    method ClearCache()
      requires Valid()
      modifies cache
      ensures Valid() && cache.State() == Step(old(cache.State()), Call.Clear)
      ensures cache.entries == map[]
    {
      StepKeepsValid(cache.State(), Call<Entry>.Clear);
      cache.Clear();
    }
  }

  /** Once an item fails, the whole deployment fails with that error. */
  lemma {:induction false} DeployStops(store: Store, deployment: Id, tenant: Option<string>, items: seq<Item>, i: nat)
    requires i < |items| && DeployItems(store, deployment, tenant, items[..i + 1]).Err?
    ensures DeployItems(store, deployment, tenant, items) == DeployItems(store, deployment, tenant, items[..i + 1])
  {
    if i + 1 < |items| {
      assert items[..|items| - 1][..i + 1] == items[..i + 1];
      DeployStops(store, deployment, tenant, items[..|items| - 1], i);
    } else {
      assert items[..i + 1] == items;
    }
  }

  lemma StillCoherent(before: Store, after: Store, cached: map<Id, Entry>, names: set<Id>)
    requires Coherent(before, cached) && Unused(before, names) && SameOutside(before, after, names)
    ensures Coherent(after, cached)
  {
    forall id | id in cached ensures Load(after, id) == Some(cached[id]) {
      assert Find(before.rows, id).Some?;
    }
  }
}
