/**
 * The app repository and its cache as concurrent tasks. A commit to the store and a call on the
 * cache are each one atomic step; between the steps of one task any other task may run. In
 * particular the cache is not locked while an entry is being loaded.
 */
module AppProtocol {
  import opened Common
  import opened AppStore
  import opened AppCache
  import opened AppRepository

  /** What a task still has to do. */
  datatype Task =
    | Publishing(entries: seq<Entry>)
    | Invalidating(ids: seq<Id>)
    | ReadingRow(id: Id)
    | ReadingComposition(id: Id, row: Record)
    | Inserting(id: Id, entry: Entry)

  datatype Sys = Sys(store: Store, cache: CacheState<Entry>, tasks: map<nat, Task>)

  datatype Action =
    | BeginDeploy(task: nat, deployment: Id, tenant: Option<string>, items: seq<Item>)
    | BeginDelete(task: nat, deployment: Id)
    | BeginCategorise(task: nat, id: Id, category: Option<string>)
    | BeginResolve(task: nat, id: Id)
    | Continue(task: nat)
    | EvictOne(id: Id)
    | EvictAll

  function Called(s: Sys, call: Call<Entry>): Sys {
    s.(cache := AppCache.Step(s.cache, call))
  }

  function Becomes(s: Sys, task: nat, t: Task): Sys {
    s.(tasks := s.tasks[task := t])
  }

  function Ends(s: Sys, task: nat): Sys {
    s.(tasks := s.tasks - {task})
  }

  function Proceed(s: Sys, task: nat): Sys
    requires task in s.tasks
  {
    match s.tasks[task]
    case Publishing(entries) =>
      if entries == [] then Ends(s, task)
      else Becomes(Called(s, Put(entries[0].definition.id, entries[0])), task, Publishing(entries[1..]))
    case Invalidating(ids) =>
      if ids == [] then Ends(s, task) else Becomes(Called(s, Remove(ids[0])), task, Invalidating(ids[1..]))
    case ReadingRow(id) =>
      (match Find(s.store.rows, id)
       case None => Ends(s, task)
       case Some(row) => Becomes(s, task, ReadingComposition(id, row)))
    case ReadingComposition(id, row) =>
      if id in s.store.compositions then Becomes(s, task, Inserting(id, Entry(row, s.store.compositions[id])))
      else Ends(s, task)
    case Inserting(id, entry) => Ends(Called(s, PutIfAbsent(id, entry)), task)
  }

  /** An action that is not enabled, or an operation that is refused, changes nothing. */
  function Act(s: Sys, a: Action): Sys {
    match a
    case BeginDeploy(task, deployment, tenant, items) =>
      if task in s.tasks then s else
        (match DeployItems(s.store, deployment, tenant, items)
         case Err(_) => s
         case Ok((session, entries)) => Becomes(s.(store := session), task, Publishing(entries)))
    case BeginDelete(task, deployment) =>
      if task in s.tasks || deployment !in s.store.deployments then s
      else Becomes(s.(store := DeleteDeployment(s.store, deployment)), task,
          Invalidating(IdsOf(s.store.rows, deployment)))
    case BeginCategorise(task, id, category) =>
      if task in s.tasks || Find(s.store.rows, id).None? then s
      else Becomes(s.(store := s.store.(rows := SetCategory(s.store.rows, id, category))), task, Invalidating([id]))
    case BeginResolve(task, id) =>
      if task in s.tasks then s
      else if id in s.cache.entries then Called(s, Get(id))
      else Becomes(Called(s, Get(id)), task, ReadingRow(id))
    case Continue(task) => if task in s.tasks then Proceed(s, task) else s
    case EvictOne(id) => Called(s, Remove(id))
    case EvictAll => Called(s, Clear)
  }

  function Initial(limit: Option<nat>): Sys {
    Sys(EMPTY, Fresh(limit), map[])
  }

  function Trace(limit: Option<nat>, actions: seq<Action>): Sys {
    if |actions| == 0 then Initial(limit)
    else Act(Trace(limit, actions[..|actions| - 1]), actions[|actions| - 1])
  }

  /** Deployment ids are UUIDs: of one length, never drawn twice. */
  ghost predicate FreshRun(actions: seq<Action>) {
    && (forall i :: 0 <= i < |actions| && actions[i].BeginDeploy? ==>
          |actions[i].deployment.text| == DEPLOYMENT_ID_LENGTH)
    && (forall i, j :: 0 <= i < j < |actions| && actions[i].BeginDeploy? && actions[j].BeginDeploy? ==>
          actions[i].deployment != actions[j].deployment)
  }

  // ---- What was committed and deployed along a run --------------------------------

  /** At some point of the run the row of `id` was `row`. */
  ghost predicate WasRow(limit: Option<nat>, actions: seq<Action>, id: Id, row: Record) {
    exists k :: 0 <= k <= |actions| && Find(Trace(limit, actions[..k]).store.rows, id) == Some(row)
  }

  /** Action `m` of the run deployed `d`. */
  ghost predicate DeployedAt(limit: Option<nat>, actions: seq<Action>, m: nat, d: Entry) {
    && m < |actions| && actions[m].BeginDeploy?
    && var r := DeployItems(Trace(limit, actions[..m]).store, actions[m].deployment, actions[m].tenant,
        actions[m].items);
       r.Ok? && d in r.value.1 && IsOrdered(d, actions[m], Trace(limit, actions[..m]).store.rows)
  }

  /** One of the items of the request asked for this entry. */
  ghost predicate IsOrdered(d: Entry, a: Action, stored: seq<Record>)
    requires a.BeginDeploy?
  {
    exists i :: 0 <= i < |a.items| && IsEntryFor(d, a.items[i], a.deployment, a.tenant, stored)
  }

  ghost predicate SameButCategory(a: Record, b: Record) {
    a.(category := None, modelCategory := None) == b.(category := None, modelCategory := None)
  }

  /** `d` is what the run deployed under `id`, and `row` is that definition up to its category. */
  ghost predicate Origin(limit: Option<nat>, actions: seq<Action>, id: Id, row: Record, d: Entry) {
    && d.definition.id == id && SameButCategory(row, d.definition)
    && exists m: nat :: DeployedAt(limit, actions, m, d)
  }

  ghost predicate GenuineRow(limit: Option<nat>, actions: seq<Action>, id: Id, row: Record) {
    WasRow(limit, actions, id, row) && exists d :: Origin(limit, actions, id, row, d)
  }

  ghost predicate GenuineEntry(limit: Option<nat>, actions: seq<Action>, id: Id, e: Entry) {
    && WasRow(limit, actions, id, e.definition)
    && exists d :: Origin(limit, actions, id, e.definition, d) && e.composition == d.composition
  }

  lemma TraceSnoc(limit: Option<nat>, actions: seq<Action>, a: Action)
    ensures Trace(limit, actions + [a]) == Act(Trace(limit, actions), a)
    ensures forall k :: 0 <= k <= |actions| ==> (actions + [a])[..k] == actions[..k]
  {
    assert (actions + [a])[..|actions|] == actions;
    assert forall k :: 0 <= k <= |actions| ==> (actions + [a])[..k] == actions[..k];
  }

  lemma WasRowNow(limit: Option<nat>, actions: seq<Action>, id: Id, row: Record)
    requires Find(Trace(limit, actions).store.rows, id) == Some(row)
    ensures WasRow(limit, actions, id, row)
  {
    assert actions[..|actions|] == actions;
  }

  lemma WasRowLater(limit: Option<nat>, actions: seq<Action>, a: Action, id: Id, row: Record)
    requires WasRow(limit, actions, id, row)
    ensures WasRow(limit, actions + [a], id, row)
  {
    var k :| 0 <= k <= |actions| && Find(Trace(limit, actions[..k]).store.rows, id) == Some(row);
    assert (actions + [a])[..k] == actions[..k];
  }

  lemma OriginLater(limit: Option<nat>, actions: seq<Action>, a: Action, id: Id, row: Record, d: Entry)
    requires Origin(limit, actions, id, row, d)
    ensures Origin(limit, actions + [a], id, row, d)
  {
    var m: nat :| DeployedAt(limit, actions, m, d);
    assert (actions + [a])[..m] == actions[..m];
    assert DeployedAt(limit, actions + [a], m, d);
  }

  lemma GenuineLater(limit: Option<nat>, actions: seq<Action>, a: Action, id: Id, e: Entry)
    requires GenuineEntry(limit, actions, id, e)
    ensures GenuineEntry(limit, actions + [a], id, e)
  {
    WasRowLater(limit, actions, a, id, e.definition);
    var d :| Origin(limit, actions, id, e.definition, d) && e.composition == d.composition;
    OriginLater(limit, actions, a, id, e.definition, d);
  }

  lemma GenuineRowLater(limit: Option<nat>, actions: seq<Action>, a: Action, id: Id, row: Record)
    requires GenuineRow(limit, actions, id, row)
    ensures GenuineRow(limit, actions + [a], id, row)
  {
    WasRowLater(limit, actions, a, id, row);
    var d :| Origin(limit, actions, id, row, d);
    OriginLater(limit, actions, a, id, row, d);
  }

  // ---- One definition per id ------------------------------------------------------

  /** The entries of a deployment are named after its items, whose keys all differ. */
  lemma {:induction false} DeployedNames(store: Store, deployment: Id, tenant: Option<string>, items: seq<Item>)
    requires DeployItems(store, deployment, tenant, items).Ok?
    ensures var entries := DeployItems(store, deployment, tenant, items).value.1;
            && |entries| == |items|
            && (forall i :: 0 <= i < |items| ==> entries[i].definition.id == DefinitionId(deployment, items[i].key))
            && (forall i, j :: 0 <= i < j < |items| ==> items[i].key != items[j].key)
  {
    if |items| > 0 {
      var before := items[..|items| - 1];
      assert forall i :: 0 <= i < |before| ==> before[i] == items[i];
      DeployedNames(store, deployment, tenant, before);
    }
  }

  lemma DeployedHasName(limit: Option<nat>, actions: seq<Action>, m: nat, d: Entry)
    requires DeployedAt(limit, actions, m, d)
    ensures d.definition.id in Names(actions[m].deployment, actions[m].items)
    ensures exists key :: d.definition.id == DefinitionId(actions[m].deployment, key)
  {
    var s := Trace(limit, actions[..m]).store;
    var a := actions[m];
    DeployedNames(s, a.deployment, a.tenant, a.items);
    var entries := DeployItems(s, a.deployment, a.tenant, a.items).value.1;
    var i :| 0 <= i < |entries| && entries[i] == d;
    assert d.definition.id == DefinitionId(a.deployment, a.items[i].key);
  }

  lemma DeployedOnce(limit: Option<nat>, actions: seq<Action>, m: nat, d: Entry, m': nat, d': Entry)
    requires FreshRun(actions) && DeployedAt(limit, actions, m, d) && DeployedAt(limit, actions, m', d')
    requires d.definition.id == d'.definition.id
    ensures d == d'
  {
    DeployedHasName(limit, actions, m, d);
    DeployedHasName(limit, actions, m', d');
    var key :| d.definition.id == DefinitionId(actions[m].deployment, key);
    var key' :| d'.definition.id == DefinitionId(actions[m'].deployment, key');
    DefinitionIdInjective(actions[m].deployment, key, actions[m'].deployment, key');
    assert m == m';
    SameDeploymentOnce(Trace(limit, actions[..m]).store, actions[m].deployment, actions[m].tenant, actions[m].items,
        d, d');
  }

  lemma SameDeploymentOnce(store: Store, deployment: Id, tenant: Option<string>, items: seq<Item>, d: Entry, d': Entry)
    requires DeployItems(store, deployment, tenant, items).Ok?
    requires d in DeployItems(store, deployment, tenant, items).value.1
    requires d' in DeployItems(store, deployment, tenant, items).value.1
    requires d.definition.id == d'.definition.id
    ensures d == d'
  {
    DeployedNames(store, deployment, tenant, items);
    var entries := DeployItems(store, deployment, tenant, items).value.1;
    var i :| 0 <= i < |entries| && entries[i] == d;
    var j :| 0 <= j < |entries| && entries[j] == d';
    DefinitionIdInjective(deployment, items[i].key, deployment, items[j].key);
  }

  /** A row and a composition of the same id come from the same deployed definition. */
  lemma SameOrigin(limit: Option<nat>, actions: seq<Action>, id: Id, row: Record, e: Entry)
    requires FreshRun(actions) && GenuineRow(limit, actions, id, row) && GenuineEntry(limit, actions, id, e)
    ensures GenuineEntry(limit, actions, id, Entry(row, e.composition))
  {
    var d :| Origin(limit, actions, id, row, d);
    var d' :| Origin(limit, actions, id, e.definition, d') && e.composition == d'.composition;
    var m: nat :| DeployedAt(limit, actions, m, d);
    var m': nat :| DeployedAt(limit, actions, m', d');
    DeployedOnce(limit, actions, m, d, m', d');
  }

  // ---- Every cached entry is genuine, in every interleaving -----------------------

  ghost predicate TaskGenuine(limit: Option<nat>, actions: seq<Action>, t: Task) {
    match t
    case Publishing(entries) =>
      forall i :: 0 <= i < |entries| ==> GenuineEntry(limit, actions, entries[i].definition.id, entries[i])
    case ReadingComposition(id, row) => GenuineRow(limit, actions, id, row)
    case Inserting(id, entry) => GenuineEntry(limit, actions, id, entry)
    case _ => true
  }

  ghost predicate StoreGenuine(limit: Option<nat>, actions: seq<Action>, store: Store) {
    Sound(store) && forall id :: Load(store, id).Some? ==> GenuineEntry(limit, actions, id, Load(store, id).value)
  }

  ghost predicate CacheGenuine(limit: Option<nat>, actions: seq<Action>, cached: map<Id, Entry>) {
    forall id :: id in cached ==> GenuineEntry(limit, actions, id, cached[id])
  }

  ghost predicate TasksGenuine(limit: Option<nat>, actions: seq<Action>, tasks: map<nat, Task>) {
    forall t :: t in tasks ==> TaskGenuine(limit, actions, tasks[t])
  }

  lemma TaskGenuineLater(limit: Option<nat>, actions: seq<Action>, a: Action, t: Task)
    requires TaskGenuine(limit, actions, t)
    ensures TaskGenuine(limit, actions + [a], t)
  {
    match t {
      case Publishing(entries) =>
        forall i | 0 <= i < |entries| ensures GenuineEntry(limit, actions + [a], entries[i].definition.id, entries[i]) {
          GenuineLater(limit, actions, a, entries[i].definition.id, entries[i]);
        }
      case ReadingComposition(id, row) => GenuineRowLater(limit, actions, a, id, row);
      case Inserting(id, entry) => GenuineLater(limit, actions, a, id, entry);
      case _ =>
    }
  }

  lemma AllLater(limit: Option<nat>, actions: seq<Action>, a: Action, s: Sys)
    requires StoreGenuine(limit, actions, s.store) && CacheGenuine(limit, actions, s.cache.entries)
    requires TasksGenuine(limit, actions, s.tasks)
    ensures StoreGenuine(limit, actions + [a], s.store) && CacheGenuine(limit, actions + [a], s.cache.entries)
    ensures TasksGenuine(limit, actions + [a], s.tasks)
  {
    hide GenuineEntry, TaskGenuine, Sound;
    forall id | Load(s.store, id).Some? ensures GenuineEntry(limit, actions + [a], id, Load(s.store, id).value) {
      GenuineLater(limit, actions, a, id, Load(s.store, id).value);
    }
    forall id | id in s.cache.entries ensures GenuineEntry(limit, actions + [a], id, s.cache.entries[id]) {
      GenuineLater(limit, actions, a, id, s.cache.entries[id]);
    }
    forall t | t in s.tasks ensures TaskGenuine(limit, actions + [a], s.tasks[t]) {
      TaskGenuineLater(limit, actions, a, s.tasks[t]);
    }
  }

  /** A freshly drawn deployment id makes definition ids no row bears. */
  lemma FreshNamesUnused(limit: Option<nat>, actions: seq<Action>, a: Action)
    requires FreshRun(actions + [a]) && a.BeginDeploy? && StoreGenuine(limit, actions, Trace(limit, actions).store)
    ensures Unused(Trace(limit, actions).store, Names(a.deployment, a.items))
  {
    var store := Trace(limit, actions).store;
    forall id | id in Names(a.deployment, a.items) ensures Find(store.rows, id).None? {
      if Find(store.rows, id).Some? {
        assert ComposedAt(store, id);
        NotYetDeployed(limit, actions, a, id, Load(store, id).value.definition);
        assert false;
      }
    }
  }

  lemma NotYetDeployed(limit: Option<nat>, actions: seq<Action>, a: Action, id: Id, row: Record)
    requires FreshRun(actions + [a]) && a.BeginDeploy? && GenuineRow(limit, actions, id, row)
    ensures id !in Names(a.deployment, a.items)
  {
    var d :| Origin(limit, actions, id, row, d);
    var m: nat :| DeployedAt(limit, actions, m, d);
    DeployedHasName(limit, actions, m, d);
    var key :| d.definition.id == DefinitionId(actions[m].deployment, key);
    assert (actions + [a])[m] == actions[m] && (actions + [a])[|actions|] == a;
    if id in Names(a.deployment, a.items) {
      var i :| 0 <= i < |a.items| && id == DefinitionId(a.deployment, a.items[i].key);
      DefinitionIdInjective(actions[m].deployment, key, a.deployment, a.items[i].key);
      assert false;
    }
  }

  /** What a deployment has just committed is genuine. */
  lemma CommittedIsGenuine(limit: Option<nat>, actions: seq<Action>, a: Action, e: Entry)
    requires a.BeginDeploy? && a.task !in Trace(limit, actions).tasks
    requires var r := DeployItems(Trace(limit, actions).store, a.deployment, a.tenant, a.items);
             r.Ok? && e in r.value.1 && Load(r.value.0, e.definition.id) == Some(e)
    ensures GenuineEntry(limit, actions + [a], e.definition.id, e)
  {
    var later := actions + [a];
    assert WasRow(limit, later, e.definition.id, e.definition) by {
      TraceSnoc(limit, actions, a);
      WasRowNow(limit, later, e.definition.id, e.definition);
    }
    assert DeployedAt(limit, later, |actions|, e) by {
      assert later[|actions|] == a && later[..|actions|] == actions;
      hide DeployItems, Trace, IsEntryFor;
      var store := Trace(limit, actions).store;
      DeployStores(store, a.deployment, a.tenant, a.items);
      var entries := DeployItems(store, a.deployment, a.tenant, a.items).value.1;
      var i :| 0 <= i < |entries| && entries[i] == e;
      assert IsEntryFor(e, a.items[i], a.deployment, a.tenant, store.rows);
    }
    hide DeployItems, Trace, DeployedAt;
    assert Origin(limit, later, e.definition.id, e.definition, e);
  }

  lemma DeployStep(limit: Option<nat>, actions: seq<Action>, a: Action)
    requires FreshRun(actions + [a]) && a.BeginDeploy? && a.task !in Trace(limit, actions).tasks
    requires StoreGenuine(limit, actions, Trace(limit, actions).store)
    requires DeployItems(Trace(limit, actions).store, a.deployment, a.tenant, a.items).Ok?
    ensures var (session, entries) := DeployItems(Trace(limit, actions).store, a.deployment, a.tenant, a.items).value;
            StoreGenuine(limit, actions + [a], session) && TaskGenuine(limit, actions + [a], Publishing(entries))
  {
    var store := Trace(limit, actions).store;
    var (session, entries) := DeployItems(store, a.deployment, a.tenant, a.items).value;
    FreshNamesUnused(limit, actions, a);
    DeployLoads(store, a.deployment, a.tenant, a.items);
    DeployedNames(store, a.deployment, a.tenant, a.items);
    hide Trace, DeployItems, GenuineEntry, Sound, Load, DefinitionId;
    forall i | 0 <= i < |entries| ensures GenuineEntry(limit, actions + [a], entries[i].definition.id, entries[i]) {
      CommittedIsGenuine(limit, actions, a, entries[i]);
    }
    forall id | Load(session, id).Some? ensures GenuineEntry(limit, actions + [a], id, Load(session, id).value) {
      if id in Names(a.deployment, a.items) {
        var i :| 0 <= i < |a.items| && id == DefinitionId(a.deployment, a.items[i].key);
        assert entries[i].definition.id == id;
      } else {
        GenuineLater(limit, actions, a, id, Load(store, id).value);
      }
    }
  }

  lemma DeleteStep(limit: Option<nat>, actions: seq<Action>, a: Action, store: Store, deployment: Id)
    requires StoreGenuine(limit, actions, store)
    ensures StoreGenuine(limit, actions + [a], DeleteDeployment(store, deployment))
  {
    DeleteSound(store, deployment);
    hide GenuineEntry, Sound, Load, DeleteDeployment, IdsOf;
    var after := DeleteDeployment(store, deployment);
    forall id | Load(after, id).Some? ensures GenuineEntry(limit, actions + [a], id, Load(after, id).value) {
      DeleteLoad(store, deployment, id);
      GenuineLater(limit, actions, a, id, Load(store, id).value);
    }
  }

  lemma CategoriseStep(limit: Option<nat>, actions: seq<Action>, a: Action)
    requires a.BeginCategorise? && a.task !in Trace(limit, actions).tasks
    requires StoreGenuine(limit, actions, Trace(limit, actions).store)
    ensures Find(Trace(limit, actions).store.rows, a.id).Some? ==>
              StoreGenuine(limit, actions + [a], Trace(limit, actions + [a]).store)
  {
    var store := Trace(limit, actions).store;
    if Find(store.rows, a.id).Some? {
      TraceSnoc(limit, actions, a);
      var after := Trace(limit, actions + [a]).store;
      CategoriseSound(store, a.id, a.category);
      forall id | Load(after, id).Some? ensures GenuineEntry(limit, actions + [a], id, Load(after, id).value) {
        FindCategorised(store.rows, a.id, a.category, id);
        RecategorisedIsGenuine(limit, actions, a, id, Load(store, id).value, Load(after, id).value);
      }
    }
  }

  lemma RecategorisedIsGenuine(limit: Option<nat>, actions: seq<Action>, a: Action, id: Id, e: Entry, e': Entry)
    requires GenuineEntry(limit, actions, id, e)
    requires e' == e || Load(Trace(limit, actions + [a]).store, id) == Some(e')
    requires SameButCategory(e'.definition, e.definition) && e'.composition == e.composition
    ensures GenuineEntry(limit, actions + [a], id, e')
  {
    GenuineLater(limit, actions, a, id, e);
    if e' != e {
      WasRowNow(limit, actions + [a], id, e'.definition);
      var d :| Origin(limit, actions + [a], id, e.definition, d) && e.composition == d.composition;
      assert Origin(limit, actions + [a], id, e'.definition, d);
    }
  }

  lemma CacheStep(limit: Option<nat>, actions: seq<Action>, c: CacheState<Entry>, call: Call<Entry>)
    requires CacheGenuine(limit, actions, c.entries)
    requires call.Put? || call.PutIfAbsent? ==> GenuineEntry(limit, actions, call.id, call.value)
    ensures CacheGenuine(limit, actions, AppCache.Step(c, call).entries)
  {
    hide GenuineEntry;
    CallAddsAtMostItsEntry(c, call);
  }

  lemma TaskAdded(limit: Option<nat>, actions: seq<Action>, tasks: map<nat, Task>, task: nat, t: Task)
    requires TasksGenuine(limit, actions, tasks) && TaskGenuine(limit, actions, t)
    ensures TasksGenuine(limit, actions, tasks[task := t])
  {
  }

  ghost predicate Genuine(limit: Option<nat>, actions: seq<Action>, s: Sys) {
    && StoreGenuine(limit, actions, s.store)
    && CacheGenuine(limit, actions, s.cache.entries)
    && TasksGenuine(limit, actions, s.tasks)
  }

  lemma ProceedKeepsGenuine(limit: Option<nat>, actions: seq<Action>, s: Sys, task: nat)
    requires FreshRun(actions) && Genuine(limit, actions, s) && task in s.tasks
    requires s.store == Trace(limit, actions).store
    ensures Genuine(limit, actions, Proceed(s, task))
  {
    var t := s.tasks[task];
    assert TaskGenuine(limit, actions, t);
    TaskRemoved(limit, actions, s.tasks, task);
    hide GenuineEntry, GenuineRow, Load, Find, FreshRun, Trace, StoreGenuine, CacheGenuine, TasksGenuine, AppCache.Step;
    match t {
      case Publishing(entries) =>
        if entries != [] {
          CacheStep(limit, actions, s.cache, Put(entries[0].definition.id, entries[0]));
          TaskAdded(limit, actions, s.tasks, task, Publishing(entries[1..]));
        }
      case Invalidating(ids) =>
        if ids != [] {
          CacheStep(limit, actions, s.cache, Remove(ids[0]));
          TaskAdded(limit, actions, s.tasks, task, Invalidating(ids[1..]));
        }
      case ReadingRow(id) =>
        if Find(s.store.rows, id).Some? {
          RowReadIsGenuine(limit, actions, s.store, id);
          TaskAdded(limit, actions, s.tasks, task, ReadingComposition(id, Find(s.store.rows, id).value));
        }
      case ReadingComposition(id, row) =>
        if id in s.store.compositions {
          CompositionReadIsGenuine(limit, actions, s.store, id, row);
          TaskAdded(limit, actions, s.tasks, task, Inserting(id, Entry(row, s.store.compositions[id])));
        }
      case Inserting(id, entry) =>
        CacheStep(limit, actions, s.cache, PutIfAbsent(id, entry));
    }
  }

  lemma TaskRemoved(limit: Option<nat>, actions: seq<Action>, tasks: map<nat, Task>, task: nat)
    requires TasksGenuine(limit, actions, tasks)
    ensures TasksGenuine(limit, actions, tasks - {task})
  {
  }

  lemma RowReadIsGenuine(limit: Option<nat>, actions: seq<Action>, store: Store, id: Id)
    requires StoreGenuine(limit, actions, store) && Find(store.rows, id).Some?
    ensures GenuineRow(limit, actions, id, Find(store.rows, id).value)
  {
    assert ComposedAt(store, id);
    var e := Load(store, id).value;
    assert GenuineEntry(limit, actions, id, e);
  }

  lemma CompositionReadIsGenuine(limit: Option<nat>, actions: seq<Action>, store: Store, id: Id, row: Record)
    requires FreshRun(actions) && StoreGenuine(limit, actions, store) && id in store.compositions
    requires GenuineRow(limit, actions, id, row)
    ensures GenuineEntry(limit, actions, id, Entry(row, store.compositions[id]))
  {
    assert ComposedAt(store, id);
    SameOrigin(limit, actions, id, row, Load(store, id).value);
  }

  /**
   * In every interleaving each cached entry holds a row its id once had in the store, and the
   * composition, version and other fixed fields that were deployed under that id.
   */
  lemma {:induction false} EveryInterleavingKeepsGenuine(limit: Option<nat>, actions: seq<Action>)
    requires FreshRun(actions)
    ensures Genuine(limit, actions, Trace(limit, actions))
  {
    if |actions| == 0 {
      assert Sound(EMPTY) by {
        assert forall id :: ComposedAt(EMPTY, id);
      }
    } else {
      var before, a := actions[..|actions| - 1], actions[|actions| - 1];
      assert before + [a] == actions;
      EveryInterleavingKeepsGenuine(limit, before);
      StepKeepsGenuine(limit, before, a);
    }
  }

  lemma StepKeepsGenuine(limit: Option<nat>, actions: seq<Action>, a: Action)
    requires FreshRun(actions + [a]) && Genuine(limit, actions, Trace(limit, actions))
    ensures Genuine(limit, actions + [a], Trace(limit, actions + [a]))
  {
    hide GenuineEntry, Load, FreshRun, StoreGenuine, CacheGenuine, TasksGenuine, AppCache.Step, DeployItems,
        DeleteDeployment, Trace, Proceed, SetCategory, IdsOf, Find;
    var s, later := Trace(limit, actions), actions + [a];
    TraceSnoc(limit, actions, a);
    AllLater(limit, actions, a, s);
    match a {
      case BeginDeploy(task, deployment, tenant, items) =>
        if task !in s.tasks && DeployItems(s.store, deployment, tenant, items).Ok? {
          DeployStep(limit, actions, a);
          TaskAdded(limit, later, s.tasks, task, Publishing(DeployItems(s.store, deployment, tenant, items).value.1));
        }
      case BeginDelete(task, deployment) =>
        DeleteStep(limit, actions, a, s.store, deployment);
        TaskAdded(limit, later, s.tasks, task, Invalidating(IdsOf(s.store.rows, deployment)));
      case BeginCategorise(task, id, category) =>
        if task !in s.tasks {
          CategoriseStep(limit, actions, a);
          TaskAdded(limit, later, s.tasks, task, Invalidating([id]));
        }
      case BeginResolve(task, id) =>
        CacheStep(limit, later, s.cache, Get(id));
        TaskAdded(limit, later, s.tasks, task, ReadingRow(id));
      case Continue(task) =>
        if task in s.tasks {
          ProceedKeepsStore(s, task);
          ProceedKeepsGenuine(limit, later, s, task);
        }
      case EvictOne(id) => CacheStep(limit, later, s.cache, Remove(id));
      case EvictAll => CacheStep(limit, later, s.cache, Clear);
    }
  }

  lemma ProceedKeepsStore(s: Sys, task: nat)
    requires task in s.tasks
    ensures Proceed(s, task).store == s.store
  {
  }
}
