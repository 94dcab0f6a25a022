/**
 * When the definition cache can be stale. A task that has read a row (or committed it) and has not
 * yet put it into the cache holds a snapshot of it. A commit disturbs such a task when it changes the
 * row and the task will insert its snapshot nevertheless. Runs without a disturbing commit are
 * exactly those from which no stale entry can be reached by letting the running tasks go on.
 */
module AppStaleness {
  import opened Common
  import opened AppStore
  import opened AppCache
  import opened AppRepository
  import opened AppProtocol

  ghost predicate Holds(t: Task, id: Id) {
    match t
    case Publishing(entries) => exists i :: 0 <= i < |entries| && entries[i].definition.id == id
    case ReadingComposition(x, _) => x == id
    case Inserting(x, _) => x == id
    case _ => false
  }

  ghost predicate Held(s: Sys, id: Id) {
    exists task :: task in s.tasks && Holds(s.tasks[task], id)
  }

  /** The task puts its snapshot of `id` into the cache even if the row is deleted meanwhile. */
  ghost predicate Inserts(t: Task, id: Id) {
    Holds(t, id) && !t.ReadingComposition?
  }

  /** A deletion of a row about to be inserted, or a category change that alters a row held by a task. */
  ghost predicate Disturbs(s: Sys, a: Action) {
    match a
    case BeginDelete(task, deployment) =>
      && task !in s.tasks && deployment in s.store.deployments
      && exists id, k :: id in IdsOf(s.store.rows, deployment) && k in s.tasks && Inserts(s.tasks[k], id)
    case BeginCategorise(task, id, category) =>
      && task !in s.tasks && Find(s.store.rows, id).Some?
      && Categorised(Find(s.store.rows, id).value, category) != Find(s.store.rows, id).value
      && Held(s, id)
    case _ => false
  }

  ghost predicate Undisturbed(limit: Option<nat>, actions: seq<Action>) {
    forall k :: 0 <= k < |actions| ==> !Disturbs(Trace(limit, actions[..k]), actions[k])
  }

  /** An invalidation of `id` is still to come. */
  ghost predicate Pending(tasks: map<nat, Task>, id: Id) {
    exists task :: task in tasks && tasks[task].Invalidating? && id in tasks[task].ids
  }

  /** The snapshot a task holds is the current row, or the task has yet to find out that the row is gone. */
  ghost predicate SnapshotCurrent(store: Store, t: Task) {
    match t
    case Publishing(entries) => AllLoadable(store, entries)
    case ReadingComposition(id, row) => Find(store.rows, id) == Some(row) || Find(store.rows, id).None?
    case Inserting(id, entry) => Load(store, id) == Some(entry)
    case _ => true
  }

  ghost predicate SnapshotsCurrent(s: Sys) {
    forall task :: task in s.tasks ==> SnapshotCurrent(s.store, s.tasks[task])
  }

  ghost predicate CacheCurrent(s: Sys) {
    forall id :: id in s.cache.entries ==> Load(s.store, id) == Some(s.cache.entries[id]) || Pending(s.tasks, id)
  }

  ghost predicate Current(s: Sys) {
    Sound(s.store) && SnapshotsCurrent(s) && CacheCurrent(s)
  }

  // ---- Changing the store ---------------------------------------------------------

  /** The row and composition of `id` are the same in both stores. */
  ghost predicate SameAt(before: Store, after: Store, id: Id) {
    Find(after.rows, id) == Find(before.rows, id) && Load(after, id) == Load(before, id)
  }

  /** The commit does no harm to a task's snapshot of `id`. */
  ghost predicate Spares(before: Store, after: Store, t: Task, id: Id) {
    SameAt(before, after, id) || (t.ReadingComposition? && Find(after.rows, id).None?)
  }

  lemma SnapshotSurvives(before: Store, after: Store, t: Task)
    requires SnapshotCurrent(before, t)
    requires forall id :: Holds(t, id) ==> Spares(before, after, t, id)
    ensures SnapshotCurrent(after, t)
  {
    match t {
      case Publishing(entries) =>
        forall i | 0 <= i < |entries| ensures Load(after, entries[i].definition.id) == Some(entries[i]) {
          assert Holds(t, entries[i].definition.id);
          assert Spares(before, after, t, entries[i].definition.id);
        }
      case ReadingComposition(id, row) => assert Holds(t, id);
      case Inserting(id, entry) => assert Holds(t, id);
      case _ =>
    }
  }

  /** A commit that spares held rows, announced by a task that will invalidate the ids it changes. */
  lemma CommitKeepsCurrent(s: Sys, after: Store, task: nat, t: Task, changed: set<Id>)
    requires Current(s) && Sound(after) && task !in s.tasks
    requires forall id :: id !in changed ==> SameAt(s.store, after, id)
    requires forall k, id :: k in s.tasks && id in changed && Holds(s.tasks[k], id) ==>
            Spares(s.store, after, s.tasks[k], id)
    requires SnapshotCurrent(after, t)
    requires forall id :: id in changed && id in s.cache.entries ==> t.Invalidating? && id in t.ids
    ensures Current(Becomes(s.(store := after), task, t))
  {
    var s' := Becomes(s.(store := after), task, t);
    hide Sound, Load, Find;
    forall k | k in s'.tasks ensures SnapshotCurrent(after, s'.tasks[k]) {
      if k != task {
        assert forall id :: Holds(s.tasks[k], id) ==> Spares(s.store, after, s.tasks[k], id);
        SnapshotSurvives(s.store, after, s.tasks[k]);
      }
    }
    forall id | id in s'.cache.entries ensures Load(after, id) == Some(s'.cache.entries[id]) || Pending(s'.tasks, id) {
      if id in changed {
        assert task in s'.tasks && s'.tasks[task].Invalidating? && id in s'.tasks[task].ids;
      } else if Pending(s.tasks, id) {
        PendingStays(s.tasks, task, t, id);
      }
    }
  }

  lemma PendingStays(tasks: map<nat, Task>, task: nat, t: Task, id: Id)
    requires Pending(tasks, id) && (task in tasks && tasks[task].Invalidating? ==>
            t.Invalidating? && (id in tasks[task].ids ==> id in t.ids))
    ensures Pending(tasks[task := t], id)
  {
    var k :| k in tasks && tasks[k].Invalidating? && id in tasks[k].ids;
    var after := tasks[task := t];
    assert k in after && after[k].Invalidating? && id in after[k].ids;
  }

  // ---- Calls on the cache ---------------------------------------------------------

  /** A cache call that adds nothing but a current entry; task `task` becomes `t`. */
  lemma CallKeepsCurrent(s: Sys, call: Call<Entry>, task: nat, t: Task)
    requires Current(s) && SnapshotCurrent(s.store, t)
    requires call.Put? || call.PutIfAbsent? ==> Load(s.store, call.id) == Some(call.value)
    requires task in s.tasks && s.tasks[task].Invalidating? ==>
               t.Invalidating? && forall id :: id in s.tasks[task].ids ==> id in t.ids || (call == Remove(id))
    ensures Current(Becomes(Called(s, call), task, t))
  {
    var s' := Becomes(Called(s, call), task, t);
    CallAddsAtMostItsEntry(s.cache, call);
    hide Sound, Load, Find, AppCache.Step, SnapshotCurrent;
    forall id | id in s'.cache.entries ensures Load(s'.store, id) == Some(s'.cache.entries[id])
        || Pending(s'.tasks, id) {
      if Load(s'.store, id) != Some(s'.cache.entries[id]) {
        assert Pending(s.tasks, id);
        PendingStays(s.tasks, task, t, id);
      }
    }
  }

  lemma EndKeepsCurrent(s: Sys, task: nat)
    requires Current(s) && task in s.tasks && (s.tasks[task].Invalidating? ==> s.tasks[task].ids == [])
    ensures Current(Ends(s, task))
  {
    hide Sound, Load, Find, SnapshotCurrent;
    forall id | Pending(s.tasks, id) ensures Pending(Ends(s, task).tasks, id) {
      var k :| k in s.tasks && s.tasks[k].Invalidating? && id in s.tasks[k].ids;
      assert k in Ends(s, task).tasks;
    }
  }

  lemma BareCallKeepsCurrent(s: Sys, call: Call<Entry>)
    requires Current(s) && !call.Put? && !call.PutIfAbsent?
    ensures Current(Called(s, call))
  {
    CallAddsAtMostItsEntry(s.cache, call);
    hide Sound, Load, Find, AppCache.Step, SnapshotCurrent, Pending;
  }

  lemma ProceedKeepsCurrent(s: Sys, task: nat)
    requires Current(s) && task in s.tasks
    ensures Current(Proceed(s, task))
  {
    var t := s.tasks[task];
    assert SnapshotCurrent(s.store, t);
    hide Sound, SnapshotsCurrent, CacheCurrent, AppCache.Step;
    match t {
      case Publishing(entries) =>
        if entries == [] {
          EndKeepsCurrent(s, task);
        } else {
          assert AllLoadable(s.store, entries[1..]);
          CallKeepsCurrent(s, Put(entries[0].definition.id, entries[0]), task, Publishing(entries[1..]));
        }
      case Invalidating(ids) =>
        if ids == [] {
          EndKeepsCurrent(s, task);
        } else {
          assert ids == [ids[0]] + ids[1..];
          CallKeepsCurrent(s, Remove(ids[0]), task, Invalidating(ids[1..]));
        }
      case ReadingRow(id) =>
        if Find(s.store.rows, id).None? {
          EndKeepsCurrent(s, task);
        } else {
          TaskMoves(s, task, ReadingComposition(id, Find(s.store.rows, id).value));
        }
      case ReadingComposition(id, row) =>
        if id in s.store.compositions {
          ComposedHasRow(s.store, id);
          TaskMoves(s, task, Inserting(id, Entry(row, s.store.compositions[id])));
        } else {
          EndKeepsCurrent(s, task);
        }
      case Inserting(id, entry) =>
        CallKeepsCurrent(s, PutIfAbsent(id, entry), task, ReadingRow(id));
        EndKeepsCurrent(Becomes(Called(s, PutIfAbsent(id, entry)), task, ReadingRow(id)), task);
        assert Ends(Becomes(Called(s, PutIfAbsent(id, entry)), task, ReadingRow(id)), task)
            == Ends(Called(s, PutIfAbsent(id, entry)), task);
    }
  }

  lemma ComposedHasRow(store: Store, id: Id)
    requires Sound(store) && id in store.compositions
    ensures Find(store.rows, id).Some?
  {
    assert ComposedAt(store, id);
  }

  lemma TaskMoves(s: Sys, task: nat, t: Task)
    requires Current(s) && SnapshotCurrent(s.store, t)
    requires task in s.tasks ==> !s.tasks[task].Invalidating?
    ensures Current(Becomes(s, task, t))
  {
    hide Sound, Load, Find, SnapshotCurrent;
    var s' := Becomes(s, task, t);
    forall id | id in s'.cache.entries ensures Load(s'.store, id) == Some(s'.cache.entries[id])
        || Pending(s'.tasks, id) {
      if Pending(s.tasks, id) {
        PendingStays(s.tasks, task, t, id);
      }
    }
  }

  // ---- Undisturbed runs -----------------------------------------------------------

  lemma DeployKeepsCurrent(limit: Option<nat>, actions: seq<Action>, a: Action)
    requires FreshRun(actions + [a]) && a.BeginDeploy? && Current(Trace(limit, actions))
    ensures Current(Act(Trace(limit, actions), a))
  {
    var s := Trace(limit, actions);
    var r := DeployItems(s.store, a.deployment, a.tenant, a.items);
    if a.task !in s.tasks && r.Ok? {
      FreshPrefix(actions, a);
      EveryInterleavingKeepsGenuine(limit, actions);
      FreshNamesUnused(limit, actions, a);
      var names := Names(a.deployment, a.items);
      DeployLoads(s.store, a.deployment, a.tenant, a.items);
      hide Trace, DeployItems, Genuine, FreshRun, Names;
      forall id | id in names ensures !Held(s, id) && (id !in s.cache.entries || Pending(s.tasks, id)) {
        FreshIsNotHeld(limit, actions, a, id);
      }
      DeployCommit(s, r.value.0, a.task, r.value.1, names);
    }
  }

  /** An id of a fresh deployment is neither held nor, unless about to be invalidated, cached. */
  lemma FreshIsNotHeld(limit: Option<nat>, actions: seq<Action>, a: Action, id: Id)
    requires FreshRun(actions + [a]) && a.BeginDeploy? && id in Names(a.deployment, a.items)
    requires Genuine(limit, actions, Trace(limit, actions)) && Current(Trace(limit, actions))
    requires Find(Trace(limit, actions).store.rows, id).None?
    ensures var s := Trace(limit, actions); !Held(s, id) && (id !in s.cache.entries || Pending(s.tasks, id))
  {
    hide Trace, FreshRun, Names, GenuineRow, GenuineEntry;
    var s := Trace(limit, actions);
    forall k | k in s.tasks ensures !Holds(s.tasks[k], id) {
      assert SnapshotCurrent(s.store, s.tasks[k]) && TaskGenuine(limit, actions, s.tasks[k]);
      if s.tasks[k].ReadingComposition? && s.tasks[k].id == id {
        NotYetDeployed(limit, actions, a, id, s.tasks[k].row);
      }
    }
  }

  lemma DeployCommit(s: Sys, after: Store, task: nat, entries: seq<Entry>, names: set<Id>)
    requires Current(s) && Sound(after) && task !in s.tasks
    requires SameOutside(s.store, after, names) && AllLoadable(after, entries)
    requires forall id :: id in names ==> !Held(s, id) && (id !in s.cache.entries || Pending(s.tasks, id))
    ensures Current(Becomes(s.(store := after), task, Publishing(entries)))
  {
    var t := Publishing(entries);
    var s' := Becomes(s.(store := after), task, t);
    hide Sound, Load, Find;
    forall k | k in s'.tasks ensures SnapshotCurrent(after, s'.tasks[k]) {
      if k != task {
        forall id | Holds(s.tasks[k], id) ensures Spares(s.store, after, s.tasks[k], id) {
          assert Held(s, id);
        }
        SnapshotSurvives(s.store, after, s.tasks[k]);
      }
    }
    forall id | id in s'.cache.entries ensures Load(after, id) == Some(s'.cache.entries[id]) || Pending(s'.tasks, id) {
      if Pending(s.tasks, id) {
        PendingStays(s.tasks, task, t, id);
      }
    }
  }

  lemma DeleteKeepsCurrent(s: Sys, a: Action)
    requires Current(s) && a.BeginDelete? && !Disturbs(s, a)
    ensures Current(Act(s, a))
  {
    if a.task !in s.tasks && a.deployment in s.store.deployments {
      var ids := IdsOf(s.store.rows, a.deployment);
      var changed := set id | id in ids;
      DeleteSound(s.store, a.deployment);
      forall id | id !in changed ensures SameAt(s.store, DeleteDeployment(s.store, a.deployment), id) {
        DeleteLoad(s.store, a.deployment, id);
        FindOutside(s.store.rows, a.deployment, id);
      }
      var after := DeleteDeployment(s.store, a.deployment);
      forall k, id | k in s.tasks && id in changed && Holds(s.tasks[k], id)
          ensures Spares(s.store, after, s.tasks[k], id) {
        assert !Inserts(s.tasks[k], id);
        FindOutside(s.store.rows, a.deployment, id);
      }
      hide Disturbs, IdsOf, DeleteDeployment, Sound, Current;
      CommitKeepsCurrent(s, after, a.task, Invalidating(ids), changed);
    }
  }

  lemma CategoriseKeepsCurrent(s: Sys, a: Action)
    requires Current(s) && a.BeginCategorise? && !Disturbs(s, a)
    ensures Current(Act(s, a))
  {
    if a.task !in s.tasks && Find(s.store.rows, a.id).Some? {
      var after := s.store.(rows := SetCategory(s.store.rows, a.id, a.category));
      CategoriseSound(s.store, a.id, a.category);
      forall id | id !in {a.id} ensures SameAt(s.store, after, id) {
        CategoriseLoad(s.store, a.id, a.category, id);
        FindCategorised(s.store.rows, a.id, a.category, id);
      }
      FindCategorised(s.store.rows, a.id, a.category, a.id);
      forall k, id | k in s.tasks && id in {a.id} && Holds(s.tasks[k], id)
          ensures Spares(s.store, after, s.tasks[k], id) {
        assert Held(s, id);
      }
      hide Disturbs, SetCategory, Sound, Current;
      CommitKeepsCurrent(s, after, a.task, Invalidating([a.id]), {a.id});
    }
  }

  lemma FreshPrefix(actions: seq<Action>, a: Action)
    requires FreshRun(actions + [a])
    ensures FreshRun(actions)
  {
    var all := actions + [a];
    assert forall i :: 0 <= i < |actions| ==> all[i] == actions[i];
  }

  lemma UndisturbedStep(limit: Option<nat>, actions: seq<Action>, a: Action)
    requires FreshRun(actions + [a]) && Current(Trace(limit, actions)) && !Disturbs(Trace(limit, actions), a)
    ensures Current(Act(Trace(limit, actions), a))
  {
    var s := Trace(limit, actions);
    hide Trace, FreshRun, Current, Disturbs, Proceed, DeployItems, Find, DeleteDeployment, SetCategory, AppCache.Step;
    match a {
      case BeginDeploy(_, _, _, _) => DeployKeepsCurrent(limit, actions, a);
      case BeginDelete(_, _) => DeleteKeepsCurrent(s, a);
      case BeginCategorise(_, _, _) => CategoriseKeepsCurrent(s, a);
      case BeginResolve(task, id) =>
        BareCallKeepsCurrent(s, Get(id));
        if task !in s.tasks {
          TaskMoves(Called(s, Get(id)), task, ReadingRow(id));
        }
      case Continue(task) =>
        if task in s.tasks {
          ProceedKeepsCurrent(s, task);
        }
      case EvictOne(id) => BareCallKeepsCurrent(s, Remove(id));
      case EvictAll => BareCallKeepsCurrent(s, Clear);
    }
  }

  lemma UndisturbedPrefix(limit: Option<nat>, actions: seq<Action>)
    requires |actions| > 0 && Undisturbed(limit, actions)
    ensures Undisturbed(limit, actions[..|actions| - 1])
    ensures !Disturbs(Trace(limit, actions[..|actions| - 1]), actions[|actions| - 1])
  {
    hide Trace, Disturbs;
    var before := actions[..|actions| - 1];
    assert forall k :: 0 <= k < |before| ==> before[..k] == actions[..k] && before[k] == actions[k];
  }

  lemma {:induction false} UndisturbedKeepsCurrent(limit: Option<nat>, actions: seq<Action>)
    requires FreshRun(actions) && Undisturbed(limit, actions)
    ensures Current(Trace(limit, actions))
  {
    if |actions| == 0 {
      assert forall id :: ComposedAt(EMPTY, id);
    } else {
      hide Act, Disturbs, Current;
      var n := |actions| - 1;
      var before, a := actions[..n], actions[n];
      assert before + [a] == actions;
      UndisturbedPrefix(limit, actions);
      hide Undisturbed, FreshRun;
      FreshPrefix(before, a);
      UndisturbedKeepsCurrent(limit, before);
      UndisturbedStep(limit, before, a);
    }
  }

  /** Without a commit inside a snapshot window, the cache agrees with the store whenever no task runs. */
  lemma QuiescentMeansCoherent(limit: Option<nat>, actions: seq<Action>)
    requires FreshRun(actions) && Undisturbed(limit, actions) && Trace(limit, actions).tasks == map[]
    ensures Coherent(Trace(limit, actions).store, Trace(limit, actions).cache.entries)
  {
    UndisturbedKeepsCurrent(limit, actions);
  }

  // ---- Runs that do not interleave ------------------------------------------------

  /** Every operation starts with no task running. */
  ghost predicate Serial(limit: Option<nat>, actions: seq<Action>) {
    forall k :: 0 <= k < |actions| && !actions[k].Continue? ==> Trace(limit, actions[..k]).tasks == map[]
  }

  lemma SerialIsUndisturbed(limit: Option<nat>, actions: seq<Action>)
    requires Serial(limit, actions)
    ensures Undisturbed(limit, actions)
  {
    forall k | 0 <= k < |actions| ensures !Disturbs(Trace(limit, actions[..k]), actions[k]) {
      hide Trace;
    }
  }

  // ---- Operations that run alone -------------------------------------------------

  /** Task `task` takes `n` steps in a row. */
  function Continued(s: Sys, task: nat, n: nat): Sys
    decreases n
  {
    if n == 0 then s else Continued(Act(s, Continue(task)), task, n - 1)
  }

  lemma {:induction false} RunCons(c: CacheState<Entry>, call: Call<Entry>, calls: seq<Call<Entry>>)
    ensures AppCache.Run(c, [call] + calls) == AppCache.Run(AppCache.Step(c, call), calls)
    decreases |calls|
  {
    hide AppCache.Step;
    var all := [call] + calls;
    if |calls| > 0 {
      RunCons(c, call, calls[..|calls| - 1]);
      assert all[..|all| - 1] == [call] + calls[..|calls| - 1] && all[|all| - 1] == calls[|calls| - 1];
    } else {
      assert all[..0] == [] && all[0] == call && calls == [];
    }
  }

  lemma FirstPut(entries: seq<Entry>)
    requires |entries| > 0
    ensures Puts(entries) == [Put(entries[0].definition.id, entries[0])] + Puts(entries[1..])
  {
  }

  lemma FirstRemove(ids: seq<Id>)
    requires |ids| > 0
    ensures Removes(ids) == [Remove(ids[0])] + Removes(ids[1..])
  {
  }

  lemma OneStep(s: Sys, task: nat, n: nat)
    ensures Continued(s, task, 0) == s && Continued(s, task, n + 1) == Continued(Act(s, Continue(task)), task, n)
  {
  }

  /** The state once the task has made these cache calls and ended. */
  function Finished(s: Sys, task: nat, calls: seq<Call<Entry>>): Sys {
    s.(cache := AppCache.Run(s.cache, calls), tasks := s.tasks - {task})
  }

  /** Left alone, a publishing task inserts all its entries in order and ends. */
  lemma {:induction false} PublishingFinishes(s: Sys, task: nat)
    requires task in s.tasks && s.tasks[task].Publishing?
    ensures var entries := s.tasks[task].entries;
            Continued(s, task, |entries| + 1) == Finished(s, task, Puts(entries))
    decreases |s.tasks[task].entries|
  {
    hide AppCache.Step, Continued, Puts;
    var entries := s.tasks[task].entries;
    var next := Act(s, Continue(task));
    OneStep(s, task, |entries|);
    if entries == [] {
      OneStep(next, task, 0);
      PutsLength(entries);
    } else {
      PublishingFinishes(next, task);
      FirstPut(entries);
      RunCons(s.cache, Put(entries[0].definition.id, entries[0]), Puts(entries[1..]));
      hide AppCache.Run;
      assert next.tasks - {task} == s.tasks - {task};
    }
  }

  /** Left alone, an invalidating task removes all its ids and ends. */
  lemma {:induction false} InvalidatingFinishes(s: Sys, task: nat)
    requires task in s.tasks && s.tasks[task].Invalidating?
    ensures var ids := s.tasks[task].ids;
            Continued(s, task, |ids| + 1) == Finished(s, task, Removes(ids))
    decreases |s.tasks[task].ids|
  {
    hide AppCache.Step, Continued, Removes;
    var ids := s.tasks[task].ids;
    var next := Act(s, Continue(task));
    OneStep(s, task, |ids|);
    if ids == [] {
      OneStep(next, task, 0);
      RemovesLength(ids);
    } else {
      InvalidatingFinishes(next, task);
      FirstRemove(ids);
      RunCons(s.cache, Remove(ids[0]), Removes(ids[1..]));
      hide AppCache.Run;
      assert next.tasks - {task} == s.tasks - {task};
    }
  }

  /** A deployment that runs alone leaves store and cache as the service does. */
  lemma DeployAlone(s: Sys, task: nat, deployment: Id, tenant: Option<string>, items: seq<Item>)
    requires task !in s.tasks && DeployItems(s.store, deployment, tenant, items).Ok?
    ensures var (session, entries) := DeployItems(s.store, deployment, tenant, items).value;
            Continued(Act(s, BeginDeploy(task, deployment, tenant, items)), task, |entries| + 1) ==
            Sys(session, AppCache.Run(s.cache, Puts(entries)), s.tasks)
  {
    hide AppCache.Run, Continued, Puts, DeployItems;
    var begun := Act(s, BeginDeploy(task, deployment, tenant, items));
    PublishingFinishes(begun, task);
    assert begun.tasks - {task} == s.tasks;
  }

  /** So does a deletion, */
  lemma DeleteAlone(s: Sys, task: nat, deployment: Id)
    requires task !in s.tasks && deployment in s.store.deployments
    ensures var ids := IdsOf(s.store.rows, deployment);
            Continued(Act(s, BeginDelete(task, deployment)), task, |ids| + 1) ==
            Sys(DeleteDeployment(s.store, deployment), AppCache.Run(s.cache, Removes(ids)), s.tasks)
  {
    hide AppCache.Run, Continued, Removes, IdsOf, DeleteDeployment;
    var begun := Act(s, BeginDelete(task, deployment));
    InvalidatingFinishes(begun, task);
    assert begun.tasks - {task} == s.tasks;
  }

  lemma OneRemoval(c: CacheState<Entry>, id: Id)
    ensures AppCache.Run(c, Removes([id])) == AppCache.Step(c, Remove(id))
  {
    hide AppCache.Step;
    assert Removes([id]) == [Remove(id)] + [];
    RunCons(c, Remove(id), []);
  }

  /** a category change, */
  lemma CategoriseAlone(s: Sys, task: nat, id: Id, category: Option<string>)
    requires task !in s.tasks && Find(s.store.rows, id).Some?
    ensures Continued(Act(s, BeginCategorise(task, id, category)), task, 2)
         == Sys(s.store.(rows := SetCategory(s.store.rows, id, category)), AppCache.Step(s.cache, Remove(id)), s.tasks)
  {
    hide AppCache.Step, AppCache.Run, Continued, Find, SetCategory, Removes;
    var begun := Act(s, BeginCategorise(task, id, category));
    InvalidatingFinishes(begun, task);
    assert begun.tasks - {task} == s.tasks;
    assert begun.tasks[task].ids == [id];
    OneRemoval(s.cache, id);
  }

  /** and a lookup: a hit is touched, what is found is inserted, and nothing changes when nothing is. */
  lemma ResolveAlone(s: Sys, task: nat, id: Id)
    requires task !in s.tasks
    ensures var s' := Continued(Act(s, BeginResolve(task, id)), task, 3);
            && s'.store == s.store && s'.tasks == s.tasks
            && s'.cache == if id in s.cache.entries then AppCache.Step(s.cache, Get(id))
                           else if Load(s.store, id).None? then s.cache
                           else AppCache.Step(s.cache, PutIfAbsent(id, Load(s.store, id).value))
  {
    hide Continued, Find, Touched, Inserted;
    var begun := Act(s, BeginResolve(task, id));
    var second := Act(begun, Continue(task));
    var third := Act(second, Continue(task));
    OneStep(begun, task, 2);
    OneStep(second, task, 1);
    OneStep(third, task, 0);
    OneStep(Act(third, Continue(task)), task, 0);
    if id !in s.cache.entries {
      assert begun.tasks - {task} == s.tasks;
      if Find(s.store.rows, id).Some? {
        assert second.tasks - {task} == s.tasks;
        if id in s.store.compositions {
          assert third.tasks - {task} == s.tasks;
        }
      }
    }
  }

  /** Evictions touch nothing but the cache, and of it only the id named or everything. */
  lemma EvictAlone(s: Sys, id: Id)
    ensures Act(s, EvictOne(id)).(cache := s.cache) == s && Act(s, EvictAll).(cache := s.cache) == s
    ensures Act(s, EvictOne(id)).cache.entries == s.cache.entries - {id} && Act(s, EvictAll).cache.entries == map[]
  {
  }

  lemma InvalidationFinishes(s: Sys, task: nat)
    requires task in s.tasks && s.tasks[task].Invalidating? && AppCache.Valid(s.cache)
    ensures var s' := Continued(s, task, |s.tasks[task].ids| + 1);
            && s'.store == s.store && s'.tasks == s.tasks - {task} && AppCache.Valid(s'.cache)
            && (forall id :: id in s'.cache.entries ==> id in s.cache.entries && id !in s.tasks[task].ids)
  {
    hide AppCache.Run, AppCache.Valid, Continued, Removes;
    InvalidatingFinishes(s, task);
    RunFromValid(s.cache, Removes(s.tasks[task].ids));
    RemovedIds(s.cache, s.tasks[task].ids);
  }

  // ---- A deletion inside a window -------------------------------------------------

  /**
   * A deployment deleted, invalidation included, between a resolver's read and its insert leaves
   * the definition cached with nothing behind it.
   */
  lemma DeletionInWindowLeavesStale(s: Sys, reader: nat, deleter: nat, deployment: Id, id: Id, entry: Entry)
    requires Sound(s.store) && AppCache.Valid(s.cache)
    requires reader in s.tasks && s.tasks[reader] == Inserting(id, entry)
    requires deleter !in s.tasks && deployment in s.store.deployments && id in IdsOf(s.store.rows, deployment)
    ensures var deleted := Act(s, BeginDelete(deleter, deployment));
            var finished := Continued(deleted, deleter, |IdsOf(s.store.rows, deployment)| + 1);
            var s' := Act(finished, Continue(reader));
            && s'.tasks == s.tasks - {reader}
            && id in s'.cache.entries && s'.cache.entries[id] == entry
            && Load(s'.store, id) == None
  {
    var deleted := Act(s, BeginDelete(deleter, deployment));
    InvalidationFinishes(deleted, deleter);
    var finished := Continued(deleted, deleter, |IdsOf(s.store.rows, deployment)| + 1);
    assert finished.tasks == s.tasks;
    InsertedHolds(finished.cache, id, entry);
    DeleteLoad(s.store, deployment, id);
  }

  // ---- Every disturbing commit can leave a stale entry ------------------------------

  function Acts(s: Sys, actions: seq<Action>): Sys
    decreases |actions|
  {
    if |actions| == 0 then s else Acts(Act(s, actions[0]), actions[1..])
  }

  /** Only running tasks go on; nothing new is started. */
  ghost predicate AllContinue(actions: seq<Action>) {
    forall i :: 0 <= i < |actions| ==> actions[i].Continue?
  }

  lemma {:induction false} ActsJoin(s: Sys, a: seq<Action>, b: seq<Action>)
    ensures Acts(s, a + b) == Acts(Acts(s, a), b)
    decreases |a|
  {
    hide Act;
    if |a| == 0 {
      assert a + b == b;
    } else {
      assert (a + b)[1..] == a[1..] + b;
      ActsJoin(Act(s, a[0]), a[1..], b);
    }
  }

  lemma {:induction false} TraceActs(limit: Option<nat>, actions: seq<Action>, more: seq<Action>)
    ensures Trace(limit, actions + more) == Acts(Trace(limit, actions), more)
    decreases |more|
  {
    hide Act;
    if |more| == 0 {
      assert actions + more == actions;
    } else {
      TraceSnoc(limit, actions, more[0]);
      TraceActs(limit, actions + [more[0]], more[1..]);
      assert actions + [more[0]] + more[1..] == actions + more;
    }
  }

  lemma {:induction false} ContinuedIsActs(s: Sys, task: nat, n: nat) returns (steps: seq<Action>)
    ensures AllContinue(steps) && Acts(s, steps) == Continued(s, task, n)
    decreases n
  {
    hide Act;
    if n == 0 {
      steps := [];
    } else {
      var rest := ContinuedIsActs(Act(s, Continue(task)), task, n - 1);
      steps := [Continue(task)] + rest;
      assert steps[1..] == rest;
    }
  }

  ghost predicate NoneInvalidating(tasks: map<nat, Task>) {
    forall k :: k in tasks ==> !tasks[k].Invalidating?
  }

  /** The other tasks are as before. */
  ghost predicate KeepsOthers(tasks: map<nat, Task>, after: map<nat, Task>) {
    && (forall k :: k in tasks && !tasks[k].Invalidating? ==> k in after && after[k] == tasks[k])
    && (forall k :: k in after ==> k in tasks && after[k] == tasks[k])
  }

  /** All invalidations can run to their end. */
  lemma {:induction false} InvalidationsFinish(s: Sys) returns (steps: seq<Action>)
    requires AppCache.Valid(s.cache)
    ensures AllContinue(steps)
    ensures var s' := Acts(s, steps);
            && s'.store == s.store && AppCache.Valid(s'.cache)
            && NoneInvalidating(s'.tasks) && KeepsOthers(s.tasks, s'.tasks)
            && (forall id :: id in s'.cache.entries ==> id in s.cache.entries && !Pending(s.tasks, id))
    decreases |s.tasks|
  {
    hide Act, AppCache.Valid, Continued;
    if NoneInvalidating(s.tasks) {
      steps := [];
    } else {
      var k :| k in s.tasks && s.tasks[k].Invalidating?;
      var n := |s.tasks[k].ids| + 1;
      InvalidationFinishes(s, k);
      var one := Continued(s, k, n);
      assert one.tasks.Keys == s.tasks.Keys - {k};
      assert |one.tasks| == |one.tasks.Keys| && |s.tasks| == |s.tasks.Keys|;
      forall id | Pending(s.tasks, id) ensures Pending(one.tasks, id) || id in s.tasks[k].ids {
        var j :| j in s.tasks && s.tasks[j].Invalidating? && id in s.tasks[j].ids;
        if j != k {
          assert j in one.tasks && one.tasks[j].Invalidating? && id in one.tasks[j].ids;
        }
      }
      var first := ContinuedIsActs(s, k, n);
      var rest := InvalidationsFinish(one);
      steps := first + rest;
      ActsJoin(s, first, rest);
    }
  }

  /** What the task will insert under `id`. */
  ghost predicate Carries(store: Store, t: Task, id: Id, e: Entry) {
    match t
    case Publishing(entries) => e in entries && e.definition.id == id
    case ReadingComposition(x, row) => x == id && id in store.compositions && e == Entry(row, store.compositions[id])
    case Inserting(x, entry) => x == id && e == entry
    case _ => false
  }

  lemma InsertOne(c: CacheState<Entry>, id: Id, e: Entry)
    requires AppCache.Valid(c) && id !in c.entries
    ensures AppCache.Step(c, Put(id, e)) == AppCache.Step(c, PutIfAbsent(id, e))
    ensures id in AppCache.Step(c, Put(id, e)).entries && AppCache.Step(c, Put(id, e)).entries[id] == e
  {
    InsertedHolds(c, id, e);
  }

  lemma {:induction false} PublishingInserts(s: Sys, task: nat, id: Id) returns (steps: seq<Action>, e: Entry)
    requires AppCache.Valid(s.cache) && id !in s.cache.entries && NoneInvalidating(s.tasks)
    requires task in s.tasks && s.tasks[task].Publishing? && Holds(s.tasks[task], id)
    ensures AllContinue(steps) && Carries(s.store, s.tasks[task], id, e)
    ensures var s' := Acts(s, steps);
            s'.store == s.store && id in s'.cache.entries && s'.cache.entries[id] == e && NoneInvalidating(s'.tasks)
    decreases |s.tasks[task].entries|
  {
    hide AppCache.Valid, AppCache.Step;
    var entries := s.tasks[task].entries;
    var next := Act(s, Continue(task));
    assert next == Becomes(Called(s, Put(entries[0].definition.id, entries[0])), task, Publishing(entries[1..]));
    if entries[0].definition.id == id {
      steps, e := [Continue(task)], entries[0];
      InsertOne(s.cache, id, e);
      assert steps[1..] == [];
      assert Acts(next, []) == next;
    } else {
      StepKeepsValid(s.cache, Put(entries[0].definition.id, entries[0]));
      CallAddsAtMostItsEntry(s.cache, Put(entries[0].definition.id, entries[0]));
      assert entries == [entries[0]] + entries[1..];
      assert Holds(next.tasks[task], id) by {
        var i :| 0 <= i < |entries| && entries[i].definition.id == id;
        assert entries[1..][i - 1] == entries[i];
      }
      var rest;
      rest, e := PublishingInserts(next, task, id);
      steps := [Continue(task)] + rest;
      assert steps[1..] == rest;
    }
  }

  /** A task that holds a row inserts it when it goes on, unless it finds no composition. */
  lemma HolderInserts(s: Sys, task: nat, id: Id) returns (steps: seq<Action>, e: Entry)
    requires AppCache.Valid(s.cache) && id !in s.cache.entries && NoneInvalidating(s.tasks)
    requires task in s.tasks && Holds(s.tasks[task], id)
    requires s.tasks[task].ReadingComposition? ==> id in s.store.compositions
    ensures AllContinue(steps) && Carries(s.store, s.tasks[task], id, e)
    ensures var s' := Acts(s, steps);
            s'.store == s.store && id in s'.cache.entries && s'.cache.entries[id] == e && NoneInvalidating(s'.tasks)
  {
    hide AppCache.Valid, AppCache.Step;
    match s.tasks[task] {
      case Publishing(_) => steps, e := PublishingInserts(s, task, id);
      case Inserting(_, entry) =>
        steps, e := [Continue(task)], entry;
        InsertOne(s.cache, id, e);
        assert Acts(Act(s, steps[0]), steps[1..]) == Act(s, Continue(task));
      case ReadingComposition(_, row) =>
        e := Entry(row, s.store.compositions[id]);
        steps := [Continue(task), Continue(task)];
        var read := Act(s, Continue(task));
        assert read == Becomes(s, task, Inserting(id, e));
        InsertOne(s.cache, id, e);
        assert steps[1..] == [Continue(task)] && steps[1..][1..] == [];
        assert Acts(Act(read, Continue(task)), []) == Act(read, Continue(task));
        assert Acts(read, steps[1..]) == Act(read, Continue(task));
    }
  }

  /** A cached entry that is not the current one, with no invalidation to come. */
  ghost predicate Stale(s: Sys, id: Id) {
    id in s.cache.entries && Load(s.store, id) != Some(s.cache.entries[id]) && !Pending(s.tasks, id)
  }

  /** What a disturbing commit does: a row changes that some task will still insert as it was. */
  lemma DisturbedRow(s: Sys, a: Action) returns (holder: nat, id: Id)
    requires Current(s) && Disturbs(s, a)
    ensures var s' := Act(s, a);
            && a.task !in s.tasks && s'.cache == s.cache && Pending(s'.tasks, id)
            && holder in s.tasks && holder in s'.tasks && s'.tasks[holder] == s.tasks[holder]
                && Holds(s.tasks[holder], id)
            && (s.tasks[holder].ReadingComposition? ==> id in s'.store.compositions)
            && (forall e :: Carries(s'.store, s.tasks[holder], id, e) ==> Load(s'.store, id) != Some(e))
  {
    var s' := Act(s, a);
    if a.BeginDelete? {
      id, holder :| id in IdsOf(s.store.rows, a.deployment) && holder in s.tasks && Inserts(s.tasks[holder], id);
      DeleteLoad(s.store, a.deployment, id);
      assert s'.tasks[a.task] == Invalidating(IdsOf(s.store.rows, a.deployment));
    } else {
      id := a.id;
      holder :| holder in s.tasks && Holds(s.tasks[holder], id);
      FindCategorised(s.store.rows, id, a.category, id);
      assert ComposedAt(s.store, id);
      assert s'.tasks[a.task] == Invalidating([id]);
      assert SnapshotCurrent(s.store, s.tasks[holder]);
      hide SetCategory, IdsOf, Sound;
    }
  }

  /** From every disturbing commit the running tasks can go on to a state with a stale entry. */
  lemma DisturbanceLeavesStale(s: Sys, a: Action) returns (steps: seq<Action>, id: Id)
    requires Current(s) && AppCache.Valid(s.cache) && Disturbs(s, a)
    ensures AllContinue(steps) && Stale(Acts(Act(s, a), steps), id)
  {
    hide Current, AppCache.Valid, Disturbs, Act;
    var holder, e;
    holder, id := DisturbedRow(s, a);
    var committed := Act(s, a);
    var first := InvalidationsFinish(committed);
    var settled := Acts(committed, first);
    assert !committed.tasks[holder].Invalidating?;
    var rest;
    rest, e := HolderInserts(settled, holder, id);
    steps := first + rest;
    ActsJoin(committed, first, rest);
  }

  lemma {:induction false} TraceCacheValid(limit: Option<nat>, actions: seq<Action>)
    ensures AppCache.Valid(Trace(limit, actions).cache)
  {
    hide AppCache.Step;
    if |actions| > 0 {
      TraceCacheValid(limit, actions[..|actions| - 1]);
      ActKeepsValid(Trace(limit, actions[..|actions| - 1]), actions[|actions| - 1]);
    }
  }

  lemma ActKeepsValid(s: Sys, a: Action)
    requires AppCache.Valid(s.cache)
    ensures AppCache.Valid(Act(s, a).cache)
  {
    hide AppCache.Valid, AppCache.Step, DeployItems;
    forall call: Call<Entry> ensures AppCache.Valid(AppCache.Step(s.cache, call)) {
      StepKeepsValid(s.cache, call);
    }
  }

  /** However the running tasks go on from any point of the run, no entry is stale. */
  ghost predicate NeverStale(limit: Option<nat>, actions: seq<Action>) {
    forall k: nat, steps, id :: k <= |actions| && AllContinue(steps) ==> !Stale(Trace(limit, actions[..k] + steps), id)
  }

  lemma ExtendedByContinues(limit: Option<nat>, actions: seq<Action>, k: nat, steps: seq<Action>)
    requires FreshRun(actions) && Undisturbed(limit, actions) && k <= |actions| && AllContinue(steps)
    ensures FreshRun(actions[..k] + steps) && Undisturbed(limit, actions[..k] + steps)
  {
    hide Trace;
    var all := actions[..k] + steps;
    forall j | 0 <= j < |all| ensures !Disturbs(Trace(limit, all[..j]), all[j]) {
      if j < k {
        assert all[..j] == actions[..j] && all[j] == actions[j];
      } else {
        assert all[j] == steps[j - k];
      }
    }
  }

  lemma {:induction false} FirstDisturbance(limit: Option<nat>, actions: seq<Action>) returns (k: nat)
    requires !Undisturbed(limit, actions)
    ensures k < |actions| && Undisturbed(limit, actions[..k]) && Disturbs(Trace(limit, actions[..k]), actions[k])
  {
    hide Trace, Disturbs;
    var n := |actions| - 1;
    assert |actions| > 0;
    var before := actions[..n];
    assert forall j :: 0 <= j < n ==> before[..j] == actions[..j] && before[j] == actions[j];
    if Undisturbed(limit, before) {
      k := n;
    } else {
      k := FirstDisturbance(limit, before);
    }
  }

  /**
   * A run has no disturbing commit exactly when no stale entry can be reached from it: the window
   * between reading a row and inserting it is harmless precisely as long as nothing disturbs it.
   */
  lemma UndisturbedIffNeverStale(limit: Option<nat>, actions: seq<Action>)
    requires FreshRun(actions)
    ensures Undisturbed(limit, actions) <==> NeverStale(limit, actions)
  {
    hide Trace, FreshRun, Stale, Undisturbed, Act;
    if Undisturbed(limit, actions) {
      forall k: nat, steps, id | k <= |actions| && AllContinue(steps)
          ensures !Stale(Trace(limit, actions[..k] + steps), id) {
        ExtendedByContinues(limit, actions, k, steps);
        UndisturbedKeepsCurrent(limit, actions[..k] + steps);
        CurrentIsNotStale(Trace(limit, actions[..k] + steps), id);
      }
    } else {
      var k := FirstDisturbance(limit, actions);
      FreshPart(actions, k);
      UndisturbedKeepsCurrent(limit, actions[..k]);
      TraceCacheValid(limit, actions[..k]);
      var steps, id := DisturbanceLeavesStale(Trace(limit, actions[..k]), actions[k]);
      TraceSnoc(limit, actions[..k], actions[k]);
      assert actions[..k] + [actions[k]] == actions[..k + 1];
      TraceActs(limit, actions[..k + 1], steps);
      assert Stale(Trace(limit, actions[..k + 1] + steps), id);
    }
  }

  lemma CurrentIsNotStale(s: Sys, id: Id)
    requires Current(s)
    ensures !Stale(s, id)
  {
  }

  lemma FreshPart(actions: seq<Action>, k: nat)
    requires FreshRun(actions) && k <= |actions|
    ensures FreshRun(actions[..k])
  {
  }
}
