/**
 * The bounded least-recently-used cache of deployed app definitions.
 *
 * `AppDefinitionCache` is the mutable cache; `CacheState` is its abstract value, and every
 * method is specified by a function on that value. Runs of calls are runs of those functions.
 */
module AppCache {
  import opened Common

  /** `limit` is None for an unbounded cache; `order` runs from least to most recently used. */
  datatype CacheState<V> = CacheState(limit: Option<nat>, entries: map<Id, V>, order: seq<Id>)

  function WithoutFirst(s: seq<Id>, id: Id): seq<Id> {
    if |s| == 0 then [] else if s[0] == id then s[1..] else [s[0]] + WithoutFirst(s[1..], id)
  }

  function Evicted<V>(c: CacheState<V>): CacheState<V>
    decreases |c.order|
  {
    if c.limit.None? || |c.entries| <= c.limit.value || c.order == [] then c
    else Evicted(c.(entries := c.entries - {c.order[0]}, order := c.order[1..]))
  }

  datatype Call<V> =
    | Get(id: Id)
    | Put(id: Id, value: V)
    | PutIfAbsent(id: Id, value: V)
    | Remove(id: Id)
    | Clear

  function Touched<V>(c: CacheState<V>, id: Id): CacheState<V> {
    c.(order := WithoutFirst(c.order, id) + [id])
  }

  function Inserted<V>(c: CacheState<V>, id: Id, value: V): CacheState<V> {
    Evicted(c.(entries := c.entries[id := value], order := c.order + [id]))
  }

  function Removed<V>(c: CacheState<V>, id: Id): CacheState<V> {
    c.(entries := c.entries - {id}, order := WithoutFirst(c.order, id))
  }

  function Step<V>(c: CacheState<V>, call: Call<V>): CacheState<V> {
    match call
    case Get(id) => if id in c.entries then Touched(c, id) else c
    case Put(id, value) =>
      Inserted(if id in c.entries then c.(order := WithoutFirst(c.order, id)) else c, id, value)
    case PutIfAbsent(id, value) => if id in c.entries then Touched(c, id) else Inserted(c, id, value)
    case Remove(id) => Removed(c, id)
    case Clear => c.(entries := map[], order := [])
  }

  function Run<V>(c: CacheState<V>, calls: seq<Call<V>>): CacheState<V> {
    if |calls| == 0 then c else Step(Run(c, calls[..|calls| - 1]), calls[|calls| - 1])
  }

  function Fresh<V>(limit: Option<nat>): CacheState<V> {
    CacheState(if limit == Some(0) then None else limit, map[], [])
  }

  // ---- The cache object -----------------------------------------------------------

  class AppDefinitionCache<V> {
    const limit: Option<nat>
    var entries: map<Id, V>
    var order: seq<Id>

    ghost function State(): CacheState<V>
      reads this
    {
      CacheState(limit, entries, order)
    }

    constructor (limit: Option<nat>)
      ensures State() == Fresh(limit)
    {
      this.limit := if limit == Some(0) then None else limit;
      entries := map[];
      order := [];
    }

    method Get(id: Id) returns (hit: Option<V>)
      modifies this
      ensures State() == Step(old(State()), Call.Get(id))
      ensures hit == if id in old(entries) then Some(old(entries)[id]) else None
    {
      if id !in entries {
        return None;
      }
      TouchOrder(id);
      hit := Some(entries[id]);
    }

    method Put(id: Id, value: V)
      modifies this
      ensures State() == Step(old(State()), Call.Put(id, value))
    {
      if id in entries {
        RemoveOrder(id);
      }
      entries := entries[id := value];
      order := order + [id];
      EvictIfNeeded();
    }

    /** Double-checked insert: an entry already cached wins. */
    method PutIfAbsent(id: Id, value: V) returns (cached: V)
      modifies this
      ensures State() == Step(old(State()), Call.PutIfAbsent(id, value))
      ensures cached == if id in old(entries) then old(entries)[id] else value
    {
      if id in entries {
        cached := entries[id];
        TouchOrder(id);
        return;
      }
      entries := entries[id := value];
      order := order + [id];
      EvictIfNeeded();
      cached := value;
    }

    method Remove(id: Id) returns (removed: Option<V>)
      modifies this
      ensures State() == Step(old(State()), Call.Remove(id))
      ensures removed == if id in old(entries) then Some(old(entries)[id]) else None
    {
      removed := if id in entries then Some(entries[id]) else None;
      RemoveOrder(id);
      entries := entries - {id};
    }

    method Clear()
      modifies this
      ensures State() == Step(old(State()), Call.Clear)
    {
      entries := map[];
      order := [];
    }

    method TouchOrder(id: Id)
      modifies this`order
      ensures order == WithoutFirst(old(order), id) + [id]
    {
      RemoveOrder(id);
      order := order + [id];
    }

    method RemoveOrder(id: Id)
      modifies this`order
      ensures order == WithoutFirst(old(order), id)
    {
      var index := 0;
      while index < |order| && order[index] != id
        invariant 0 <= index <= |order|
        invariant id !in order[..index]
      {
        index := index + 1;
      }
      WithoutFirstAt(order, id, index);
      if index < |order| {
        order := order[..index] + order[index + 1..];
      }
    }

    method EvictIfNeeded()
      modifies this
      ensures State() == Evicted(old(State()))
    {
      if limit.None? {
        return;
      }
      while |entries| > limit.value
        invariant Evicted(State()) == Evicted(old(State()))
        decreases |order|
      {
        if order == [] {
          break;
        }
        var oldest := order[0];
        order := order[1..];
        entries := entries - {oldest};
      }
    }
  }

  lemma {:induction false} WithoutFirstAt(s: seq<Id>, id: Id, index: nat)
    requires index <= |s| && id !in s[..index]
    requires index < |s| ==> s[index] == id
    ensures WithoutFirst(s, id) == if index < |s| then s[..index] + s[index + 1..] else s
  {
    if |s| > 0 && index > 0 {
      assert s[0] == s[..index][0];
      assert s[1..][..index - 1] == s[..index][1..];
      WithoutFirstAt(s[1..], id, index - 1);
    }
  }

  // ---- Every run keeps the cache consistent and within its limit ------------------

  ghost predicate WithinLimit<V>(c: CacheState<V>) {
    c.limit.Some? ==> 0 < c.limit.value && |c.order| <= c.limit.value
  }

  /** The recency list names every cached id exactly once. */
  ghost predicate Consistent<V>(c: CacheState<V>) {
    Distinct(c.order) && Elements(c.order) == c.entries.Keys
  }

  ghost predicate Valid<V>(c: CacheState<V>) {
    Consistent(c) && WithinLimit(c)
  }

  lemma {:induction false} WithoutFirstFacts(s: seq<Id>, id: Id)
    requires Distinct(s)
    ensures Distinct(WithoutFirst(s, id)) && Elements(WithoutFirst(s, id)) == Elements(s) - {id}
    ensures |WithoutFirst(s, id)| == |s| - if id in s then 1 else 0
  {
    if |s| > 0 {
      assert s == [s[0]] + s[1..];
      if s[0] != id {
        WithoutFirstFacts(s[1..], id);
        var t := WithoutFirst(s[1..], id);
        assert s[0] !in Elements(t);
        assert Elements([s[0]] + t) == {s[0]} + Elements(t);
        assert Elements(s) == {s[0]} + Elements(s[1..]);
      } else {
        assert s[0] !in s[1..];
        assert Elements(s) == {s[0]} + Elements(s[1..]);
      }
    }
  }

  lemma {:induction false} OrderLength<V>(c: CacheState<V>)
    requires Consistent(c)
    ensures |c.entries| == |c.order|
  {
    DistinctCount(c.order);
    assert |c.entries| == |c.entries.Keys|;
  }

  lemma {:induction false} DistinctCount(s: seq<Id>)
    requires Distinct(s)
    ensures |Elements(s)| == |s|
  {
    if |s| > 0 {
      DistinctCount(s[1..]);
      assert s == [s[0]] + s[1..];
      assert s[0] !in s[1..];
      assert Elements(s) == {s[0]} + Elements(s[1..]);
    }
  }

  predicate Full(order: seq<Id>, limit: Option<nat>) {
    limit.Some? && |order| >= limit.value
  }

  /** What a call does to the recency list alone. */
  function OrderStep<V>(order: seq<Id>, limit: Option<nat>, call: Call<V>): seq<Id> {
    match call
    case Get(id) => if id in order then WithoutFirst(order, id) + [id] else order
    case Remove(id) => WithoutFirst(order, id)
    case Clear => []
    case _ =>
      if call.id in order then WithoutFirst(order, call.id) + [call.id]
      else if Full(order, limit) && |order| > 0 then order[1..] + [call.id]
      else order + [call.id]
  }

  lemma TouchKeepsIds(order: seq<Id>, id: Id)
    requires Distinct(order) && id in order
    ensures var t := WithoutFirst(order, id) + [id];
            Distinct(t) && Elements(t) == Elements(order) && |t| == |order|
  {
    WithoutFirstFacts(order, id);
    assert id !in Elements(WithoutFirst(order, id));
    DistinctAppend(WithoutFirst(order, id), id);
  }

  lemma DropFront<V>(c: CacheState<V>)
    requires Consistent(c) && c.order != []
    ensures Consistent(c.(entries := c.entries - {c.order[0]}, order := c.order[1..]))
  {
    var front, rest := c.order[0], c.order[1..];
    assert c.order == [front] + rest;
    assert front !in rest;
    assert Elements(c.order) == {front} + Elements(rest);
  }

  lemma EvictedByOne<V>(d: CacheState<V>)
    requires Consistent(d)
    requires d.limit.Some? ==> 0 < d.limit.value && |d.order| <= d.limit.value + 1
    ensures Valid(Evicted(d)) && Evicted(d).limit == d.limit
    ensures Evicted(d) ==
            if d.limit.Some? && |d.order| > d.limit.value
            then d.(entries := d.entries - {d.order[0]}, order := d.order[1..]) else d
  {
    OrderLength(d);
    if d.limit.Some? && |d.order| > d.limit.value {
      DropFront(d);
      OrderLength(d.(entries := d.entries - {d.order[0]}, order := d.order[1..]));
    }
  }

  /** What inserting a new id leaves: all, or all but the oldest when the cache was full. */
  lemma InsertedIs<V>(c: CacheState<V>, id: Id, value: V)
    requires Valid(c) && id !in c.entries
    ensures Valid(Inserted(c, id, value))
    ensures Inserted(c, id, value) ==
            if Full(c.order, c.limit)
            then CacheState(c.limit, c.entries[id := value] - {c.order[0]}, c.order[1..] + [id])
            else CacheState(c.limit, c.entries[id := value], c.order + [id])
  {
    hide Evicted;
    var d := c.(entries := c.entries[id := value], order := c.order + [id]);
    assert Consistent(d) by {
      assert id !in Elements(c.order);
      DistinctAppend(c.order, id);
    }
    EvictedByOne(d);
    assert c.order != [] ==> d.order[0] == c.order[0] && d.order[1..] == c.order[1..] + [id];
  }

  lemma InsertedHolds<V>(c: CacheState<V>, id: Id, value: V)
    requires Valid(c) && id !in c.entries
    ensures var d := Inserted(c, id, value);
            && Valid(d) && d.limit == c.limit && id in d.entries && d.entries[id] == value
            && (forall k :: k in d.entries && k != id ==> k in c.entries && d.entries[k] == c.entries[k])
  {
    hide Inserted;
    InsertedIs(c, id, value);
    assert Full(c.order, c.limit) ==> c.order[0] in Elements(c.order);
  }

  lemma StepKeepsValid<V>(c: CacheState<V>, call: Call<V>)
    requires Valid(c)
    ensures Valid(Step(c, call)) && Step(c, call).limit == c.limit
    ensures Step(c, call).order == OrderStep(c.order, c.limit, call)
  {
    assert forall id :: id in c.order <==> id in Elements(c.order);
    match call {
      case Get(id) =>
        if id in c.order {
          TouchKeepsIds(c.order, id);
        }
      case Remove(id) =>
        WithoutFirstFacts(c.order, id);
      case Clear =>
      case Put(id, value) =>
        if id in c.order {
          TouchKeepsIds(c.order, id);
          var d := c.(entries := c.entries[id := value], order := WithoutFirst(c.order, id) + [id]);
          assert Consistent(d) && d.entries.Keys == c.entries.Keys;
          OrderLength(d);
        } else {
          InsertedIs(c, id, value);
        }
      case PutIfAbsent(id, value) =>
        if id in c.order {
          TouchKeepsIds(c.order, id);
        } else {
          InsertedIs(c, id, value);
        }
    }
  }

  /** Over every run of calls the recency list is duplicate-free, names the cached ids and fits the limit. */
  lemma {:induction false} RunKeepsValid<V>(limit: Option<nat>, calls: seq<Call<V>>)
    ensures Valid(Run(Fresh(limit), calls)) && Run(Fresh(limit), calls).limit == Fresh<V>(limit).limit
  {
    if |calls| > 0 {
      RunKeepsValid(limit, calls[..|calls| - 1]);
      StepKeepsValid(Run(Fresh(limit), calls[..|calls| - 1]), calls[|calls| - 1]);
    }
  }

  // ---- What is cached, and what is dropped ------------------------------------------

  /** The call has to drop the oldest entry to make room. */
  predicate Drops<V>(c: CacheState<V>, call: Call<V>) {
    (call.Put? || call.PutIfAbsent?) && call.id !in c.entries && c.limit.Some? && |c.entries| >= c.limit.value
  }

  predicate Stores<V>(c: CacheState<V>, call: Call<V>, id: Id) {
    (call.Put? || (call.PutIfAbsent? && id !in c.entries)) && call.id == id
  }

  predicate Forgets<V>(c: CacheState<V>, call: Call<V>, id: Id) {
    call.Clear? || (call.Remove? && call.id == id) || (Drops(c, call) && |c.order| > 0 && id == c.order[0])
  }

  /**
   * An id is cached after a call exactly when the call stores it, or it was cached and is not
   * forgotten; its entry is the one stored or the one that was there.
   */
  lemma StepEntries<V>(c: CacheState<V>, call: Call<V>, id: Id)
    requires Valid(c)
    ensures id in Step(c, call).entries <==> Stores(c, call, id) || (id in c.entries && !Forgets(c, call, id))
    ensures id in Step(c, call).entries ==>
              (Stores(c, call, id) ==> Step(c, call).entries[id] == call.value)
              && (!Stores(c, call, id) ==> id in c.entries && Step(c, call).entries[id] == c.entries[id])
  {
    hide Evicted, WithoutFirst;
    if call.Put? || call.PutIfAbsent? {
      OrderLength(c);
      if call.id !in c.entries {
        InsertedIs(c, call.id, call.value);
      } else if call.Put? {
        ReplacedEntries(c, call.id, call.value);
      }
    }
  }

  lemma ReplacedEntries<V>(c: CacheState<V>, id: Id, value: V)
    requires Valid(c) && id in c.entries
    ensures Inserted(c.(order := WithoutFirst(c.order, id)), id, value).entries == c.entries[id := value]
  {
    hide WithoutFirst;
    assert id in Elements(c.order);
    TouchKeepsIds(c.order, id);
    var d := c.(entries := c.entries[id := value], order := WithoutFirst(c.order, id) + [id]);
    assert d.entries.Keys == c.entries.Keys;
    EvictedByOne(d);
  }

  /** How many calls there were up to the last one that looked an id up or inserted it. */
  function LastUse<V>(calls: seq<Call<V>>, id: Id): nat {
    if |calls| == 0 then 0
    else if Uses(calls[|calls| - 1], id) then |calls|
    else LastUse(calls[..|calls| - 1], id)
  }

  predicate Uses<V>(call: Call<V>, id: Id) {
    (call.Get? || call.Put? || call.PutIfAbsent?) && call.id == id
  }

  /** The ids are sorted by their last use, the longest unused first. */
  ghost predicate ByUse<V>(order: seq<Id>, calls: seq<Call<V>>) {
    forall i, j :: 0 <= i < j < |order| ==> LastUse(calls, order[i]) < LastUse(calls, order[j])
  }

  lemma {:induction false} UsedSoFar<V>(calls: seq<Call<V>>, id: Id)
    ensures LastUse(calls, id) <= |calls|
  {
    if |calls| > 0 {
      UsedSoFar(calls[..|calls| - 1], id);
    }
  }

  lemma {:induction false} WithoutKeepsByUse<V>(order: seq<Id>, id: Id, calls: seq<Call<V>>)
    requires ByUse(order, calls)
    ensures ByUse(WithoutFirst(order, id), calls)
    ensures forall k :: k in WithoutFirst(order, id) ==> k in order
    decreases |order|
  {
    hide LastUse, ByUse;
    if |order| > 0 {
      RestByUse(order, calls);
      if order[0] != id {
        WithoutKeepsByUse(order[1..], id, calls);
        ConsByUse(order[0], WithoutFirst(order[1..], id), calls);
      }
    } else {
      NothingByUse(calls);
    }
  }

  /** Ids not used by the last call keep their order, and the one it used comes last. */
  lemma UsedComesLast<V>(order: seq<Id>, id: Id, calls: seq<Call<V>>)
    requires |calls| > 0 && ByUse(order, calls[..|calls| - 1]) && id !in order && Uses(calls[|calls| - 1], id)
    ensures ByUse(order + [id], calls)
  {
    var before := calls[..|calls| - 1];
    forall k | k in order ensures LastUse(calls, k) == LastUse(before, k) < |calls| == LastUse(calls, id) {
      UsedSoFar(before, k);
    }
    hide LastUse;
  }

  lemma UnusedKeepsByUse<V>(order: seq<Id>, calls: seq<Call<V>>)
    requires |calls| > 0 && ByUse(order, calls[..|calls| - 1])
    requires forall k :: k in order ==> !Uses(calls[|calls| - 1], k)
    ensures ByUse(order, calls)
  {
    forall k | k in order ensures LastUse(calls, k) == LastUse(calls[..|calls| - 1], k) {
    }
    hide LastUse;
  }

  lemma StepByUse<V>(order: seq<Id>, limit: Option<nat>, calls: seq<Call<V>>)
    requires |calls| > 0 && Distinct(order) && ByUse(order, calls[..|calls| - 1])
    ensures ByUse(OrderStep(order, limit, calls[|calls| - 1]), calls)
  {
    hide LastUse, WithoutFirst, ByUse;
    var before, call := calls[..|calls| - 1], calls[|calls| - 1];
    if call.Clear? {
      NothingByUse(calls);
    } else {
      var id := call.id;
      WithoutKeepsByUse(order, id, before);
      WithoutFirstFacts(order, id);
      assert id !in Elements(WithoutFirst(order, id));
      if call.Remove? {
        UnusedKeepsByUse(WithoutFirst(order, id), calls);
      } else if id in order {
        UsedComesLast(WithoutFirst(order, id), id, calls);
      } else if call.Get? {
        UnusedKeepsByUse(order, calls);
      } else if Full(order, limit) && |order| > 0 {
        RestByUse(order, before);
        UsedComesLast(order[1..], id, calls);
      } else {
        UsedComesLast(order, id, calls);
      }
    }
  }

  lemma NothingByUse<V>(calls: seq<Call<V>>)
    ensures ByUse([], calls)
  {
  }

  lemma RestByUse<V>(order: seq<Id>, calls: seq<Call<V>>)
    requires ByUse(order, calls) && |order| > 0
    ensures ByUse(order[1..], calls)
    ensures forall k :: k in order[1..] ==> LastUse(calls, order[0]) < LastUse(calls, k)
  {
    hide LastUse;
  }

  lemma ConsByUse<V>(id: Id, order: seq<Id>, calls: seq<Call<V>>)
    requires ByUse(order, calls) && forall k :: k in order ==> LastUse(calls, id) < LastUse(calls, k)
    ensures ByUse([id] + order, calls)
  {
    hide LastUse;
  }

  /**
   * Over every run the recency list is sorted by last use, so what a call drops to make room is the
   * entry that was unused for longest.
   */
  lemma {:induction false} OldestIsLeastRecentlyUsed<V>(limit: Option<nat>, calls: seq<Call<V>>)
    ensures ByUse(Run(Fresh(limit), calls).order, calls)
    ensures var c := Run(Fresh(limit), calls);
            forall id :: id in c.entries && |c.order| > 0 && id != c.order[0] ==>
              LastUse(calls, c.order[0]) < LastUse(calls, id)
    decreases |calls|
  {
    hide LastUse, OrderStep, Step, ByUse;
    var c := Run(Fresh(limit), calls);
    if |calls| > 0 {
      var before := calls[..|calls| - 1];
      OldestIsLeastRecentlyUsed(limit, before);
      RunKeepsValid(limit, before);
      StepKeepsValid(Run(Fresh(limit), before), calls[|calls| - 1]);
      StepByUse(Run(Fresh(limit), before).order, Run(Fresh(limit), before).limit, calls);
    } else {
      NothingByUse(calls);
    }
    RunKeepsValid(limit, calls);
    assert forall id :: id in c.entries ==> id in Elements(c.order);
    FirstByUse(c.order, calls);
  }

  lemma FirstByUse<V>(order: seq<Id>, calls: seq<Call<V>>)
    requires ByUse(order, calls)
    ensures forall id :: id in order && id != order[0] ==> LastUse(calls, order[0]) < LastUse(calls, id)
  {
    hide LastUse;
  }

  /** What a call finds or stores is cached afterwards and the most recent. */
  lemma UsedIsLast<V>(c: CacheState<V>, call: Call<V>)
    requires Valid(c) && (call.Put? || call.PutIfAbsent? || (call.Get? && call.id in c.entries))
    ensures var d := Step(c, call);
            && call.id in d.entries && |d.order| > 0 && d.order[|d.order| - 1] == call.id
            && (!Stores(c, call, call.id) ==> call.id in c.entries && d.entries[call.id] == c.entries[call.id])
            && (Stores(c, call, call.id) ==> d.entries[call.id] == call.value)
  {
    hide Step, WithoutFirst, Consistent;
    StepKeepsValid(c, call);
    StepEntries(c, call, call.id);
    OldestIsNotTheCall(c, call);
  }

  lemma OldestIsNotTheCall<V>(c: CacheState<V>, call: Call<V>)
    requires Valid(c) && (call.Put? || call.PutIfAbsent? || (call.Get? && call.id in c.entries))
    ensures !Forgets(c, call, call.id)
    ensures call.Get? ==> call.id in c.order
  {
    assert forall id :: id in c.order <==> id in Elements(c.order);
  }

  // ---- Several calls in a row -------------------------------------------------------

  lemma {:induction false} RunFromValid<V>(c: CacheState<V>, calls: seq<Call<V>>)
    requires Valid(c)
    ensures Valid(Run(c, calls)) && Run(c, calls).limit == c.limit
    decreases |calls|
  {
    hide Valid, Step;
    if |calls| > 0 {
      RunFromValid(c, calls[..|calls| - 1]);
      StepKeepsValid(Run(c, calls[..|calls| - 1]), calls[|calls| - 1]);
    }
  }

  /** Insertions of different ids. */
  ghost predicate ArePuts<V(!new)>(calls: seq<Call<V>>) {
    && (forall i :: 0 <= i < |calls| ==> calls[i].Put?)
    && (forall i, j :: 0 <= i < j < |calls| ==> calls[i].id != calls[j].id)
  }

  function CallIds<V>(calls: seq<Call<V>>): seq<Id> {
    if |calls| == 0 then []
    else CallIds(calls[..|calls| - 1]) + if calls[|calls| - 1].Clear? then [] else [calls[|calls| - 1].id]
  }

  /** The last ids, as many as the limit allows. */
  function Last(ids: seq<Id>, limit: Option<nat>): seq<Id> {
    if limit.Some? && |ids| > limit.value then ids[|ids| - limit.value..] else ids
  }

  ghost predicate EndsWith(order: seq<Id>, tail: seq<Id>) {
    |tail| <= |order| && order[|order| - |tail|..] == tail
  }

  lemma Extended(head: seq<Id>, tail: seq<Id>)
    ensures EndsWith(head + tail, tail)
  {
  }

  lemma TouchPosition(order: seq<Id>, id: Id) returns (p: nat)
    requires id in order
    ensures p < |order| && order[p] == id && WithoutFirst(order, id) == order[..p] + order[p + 1..]
  {
    p :| 0 <= p < |order| && order[p] == id && id !in order[..p] by { FirstPlace(order, id); }
    WithoutFirstAt(order, id, p);
  }

  lemma {:induction false} FirstPlace(order: seq<Id>, id: Id)
    requires id in order
    ensures exists p :: 0 <= p < |order| && order[p] == id && id !in order[..p]
  {
    if order[0] == id {
      assert order[..0] == [];
    } else {
      FirstPlace(order[1..], id);
      var q :| 0 <= q < |order[1..]| && order[1..][q] == id && id !in order[1..][..q];
      assert order[..q + 1] == [order[0]] + order[1..][..q];
      assert order[q + 1] == id;
    }
  }

  lemma TouchKeepsTail(head: seq<Id>, tail: seq<Id>, id: Id)
    requires id in head + tail && id !in tail
    ensures EndsWith(WithoutFirst(head + tail, id) + [id], tail + [id])
  {
    hide WithoutFirst;
    var order := head + tail;
    var p := TouchPosition(order, id);
    assert p < |head|;
    assert order[..p] + order[p + 1..] == (head[..p] + head[p + 1..]) + tail;
    Extended(head[..p] + head[p + 1..], tail + [id]);
    assert (head[..p] + head[p + 1..]) + tail + [id] == (head[..p] + head[p + 1..]) + (tail + [id]);
  }

  /** One more insertion comes last, and the ones before it move up. */
  lemma OnePutMore<V>(order: seq<Id>, limit: Option<nat>, ids: seq<Id>, call: Call<V>)
    requires call.Put? && call.id !in ids && EndsWith(order, Last(ids, limit))
    requires limit.Some? ==> 0 < limit.value && |order| <= limit.value
    ensures EndsWith(OrderStep(order, limit, call), Last(ids + [call.id], limit))
  {
    hide WithoutFirst, Last, EndsWith;
    var tail, id := Last(ids, limit), call.id;
    var head := TailOf(order, tail);
    LastGrows(ids, id, limit);
    if id in order {
      TouchKeepsTail(head, tail, id);
    } else if Full(order, limit) {
      if |head| > 0 {
        assert order[1..] + [id] == head[1..] + (tail + [id]);
        Extended(head[1..], tail + [id]);
      } else {
        assert order == tail;
        Extended([], tail[1..] + [id]);
        assert order[1..] + [id] == [] + (tail[1..] + [id]);
      }
    } else {
      assert order + [id] == head + (tail + [id]);
      Extended(head, tail + [id]);
    }
  }

  lemma TailOf(order: seq<Id>, tail: seq<Id>) returns (head: seq<Id>)
    requires EndsWith(order, tail)
    ensures order == head + tail
  {
    head := order[..|order| - |tail|];
  }

  lemma LastGrows(ids: seq<Id>, id: Id, limit: Option<nat>)
    requires limit.Some? ==> 0 < limit.value
    ensures forall x :: x in Last(ids, limit) ==> x in ids
    ensures limit.Some? && |Last(ids, limit)| >= limit.value ==>
              |Last(ids, limit)| == limit.value && Last(ids + [id], limit) == Last(ids, limit)[1..] + [id]
    ensures !(limit.Some? && |Last(ids, limit)| >= limit.value) ==>
              Last(ids + [id], limit) == Last(ids, limit) + [id]
  {
  }

  lemma {:induction false} PutIds<V(!new)>(calls: seq<Call<V>>)
    requires ArePuts(calls)
    ensures |CallIds(calls)| == |calls| && forall i :: 0 <= i < |calls| ==> CallIds(calls)[i] == calls[i].id
    decreases |calls|
  {
    if |calls| > 0 {
      PutIds(calls[..|calls| - 1]);
    }
  }

  /** After insertions of different ids these are the most recent ones, in their order. */
  lemma {:induction false} PutsComeLast<V(!new)>(c: CacheState<V>, calls: seq<Call<V>>)
    requires Valid(c) && ArePuts(calls)
    ensures EndsWith(Run(c, calls).order, Last(CallIds(calls), c.limit))
    decreases |calls|
  {
    hide Step, OrderStep, EndsWith, Consistent, Last;
    if |calls| > 0 {
      var rest, call := calls[..|calls| - 1], calls[|calls| - 1];
      PutsComeLast(c, rest);
      RunFromValid(c, rest);
      StepKeepsValid(Run(c, rest), call);
      PutIds(rest);
      OnePutMore(Run(c, rest).order, c.limit, CallIds(rest), call);
    } else {
      NothingLast(c.order, c.limit);
    }
  }

  lemma NothingLast(order: seq<Id>, limit: Option<nat>)
    ensures EndsWith(order, Last([], limit))
  {
  }

  lemma {:induction false} PutValueStays<V(!new)>(c: CacheState<V>, calls: seq<Call<V>>, j: nat)
    requires Valid(c) && ArePuts(calls) && j < |calls| && calls[j].id in Run(c, calls).entries
    ensures Run(c, calls).entries[calls[j].id] == calls[j].value
    decreases |calls|
  {
    hide Step, Valid;
    var rest := calls[..|calls| - 1];
    RunFromValid(c, rest);
    StepEntries(Run(c, rest), calls[|calls| - 1], calls[j].id);
    if j < |rest| {
      PutValueStays(c, rest, j);
    }
  }

  /** Of a row of insertions of different ids the last ones are cached, as many as the limit allows. */
  lemma PutsAreCached<V(!new)>(c: CacheState<V>, calls: seq<Call<V>>, j: nat)
    requires Valid(c) && ArePuts(calls) && j < |calls|
    requires c.limit.Some? ==> |calls| - j <= c.limit.value
    ensures calls[j].id in Run(c, calls).entries && Run(c, calls).entries[calls[j].id] == calls[j].value
  {
    PutIds(calls);
    hide Run, ArePuts, CallIds;
    PutsComeLast(c, calls);
    RunFromValid(c, calls);
    var order, ids := Run(c, calls).order, CallIds(calls);
    var tail := Last(ids, c.limit);
    assert tail[j - (|ids| - |tail|)] == ids[j] == calls[j].id;
    assert order[|order| - |tail|..][j - (|ids| - |tail|)] in order;
    assert calls[j].id in Elements(order);
    PutValueStays(c, calls, j);
  }

  /** A row of removals forgets exactly the ids named. */
  lemma {:induction false} RemovesForget<V(!new)>(c: CacheState<V>, calls: seq<Call<V>>)
    requires forall i :: 0 <= i < |calls| ==> calls[i].Remove?
    ensures Run(c, calls).entries == c.entries - set i | 0 <= i < |calls| :: calls[i].id
    decreases |calls|
  {
    if |calls| > 0 {
      var rest := calls[..|calls| - 1];
      RemovesForget(c, rest);
      assert (set i | 0 <= i < |calls| :: calls[i].id)
          == (set i | 0 <= i < |rest| :: rest[i].id) + {calls[|calls| - 1].id};
    }
  }

  // ---- A smaller cache holds no id a larger one has dropped -----------------------

  /** `s` with the ids outside `keep` crossed out. */
  function Restrict(s: seq<Id>, keep: set<Id>): seq<Id> {
    if |s| == 0 then [] else if s[0] in keep then [s[0]] + Restrict(s[1..], keep) else Restrict(s[1..], keep)
  }

  lemma {:induction false} RestrictAppend(s: seq<Id>, x: Id, keep: set<Id>)
    ensures Restrict(s + [x], keep) == Restrict(s, keep) + if x in keep then [x] else []
  {
    if |s| > 0 {
      assert (s + [x])[1..] == s[1..] + [x];
      RestrictAppend(s[1..], x, keep);
    }
  }

  lemma {:induction false} RestrictAgree(s: seq<Id>, keep: set<Id>, keep': set<Id>)
    requires forall x :: x in s ==> (x in keep <==> x in keep')
    ensures Restrict(s, keep) == Restrict(s, keep')
  {
    if |s| > 0 {
      RestrictAgree(s[1..], keep, keep');
    }
  }

  lemma {:induction false} RestrictMembers(s: seq<Id>, keep: set<Id>)
    ensures forall x :: x in Restrict(s, keep) <==> x in s && x in keep
  {
    if |s| > 0 {
      RestrictMembers(s[1..], keep);
    }
  }

  lemma {:induction false} RestrictWithout(s: seq<Id>, x: Id, keep: set<Id>)
    requires Distinct(s)
    ensures Restrict(WithoutFirst(s, x), keep - {x}) == WithoutFirst(Restrict(s, keep), x)
    ensures x !in keep ==> WithoutFirst(Restrict(s, keep), x) == Restrict(s, keep)
  {
    if |s| > 0 {
      if s[0] == x {
        RestrictAgree(s[1..], keep, keep - {x});
        RestrictMembers(s[1..], keep);
        if x !in keep {
          WithoutAbsent(Restrict(s, keep), x);
        }
      } else {
        RestrictWithout(s[1..], x, keep);
        var t := WithoutFirst(s[1..], x);
        assert ([s[0]] + t)[1..] == t;
        var r := Restrict(s[1..], keep);
        assert ([s[0]] + r)[1..] == r;
      }
    }
  }

  lemma {:induction false} WithoutAbsent(s: seq<Id>, x: Id)
    requires x !in s
    ensures WithoutFirst(s, x) == s
  {
    if |s| > 0 {
      WithoutAbsent(s[1..], x);
    }
  }

  /** Crossing out the first survivor leaves the others. */
  lemma {:induction false} RestrictDropFront(s: seq<Id>, keep: set<Id>)
    requires Distinct(s) && Restrict(s, keep) != []
    ensures Restrict(s, keep - {Restrict(s, keep)[0]}) == Restrict(s, keep)[1..]
  {
    var x := Restrict(s, keep)[0];
    if s[0] in keep {
      RestrictAgree(s[1..], keep, keep - {x});
    } else {
      RestrictDropFront(s[1..], keep);
    }
  }

  predicate NoLargerThan(m: Option<nat>, n: Option<nat>) {
    n.None? || (m.Some? && m.value <= n.value)
  }

  /**
   * Recency list `a` under limit `m` against `b` under limit `n`: `a` is `b` with some ids crossed
   * out, and no more are crossed out than the limits differ by.
   */
  ghost predicate Included(a: seq<Id>, m: Option<nat>, b: seq<Id>, n: Option<nat>) {
    && Distinct(a) && Distinct(b)
    && a == Restrict(b, Elements(a))
    && NoLargerThan(m, n)
    && (m.Some? ==> 0 < m.value && |a| <= m.value)
    && (n.Some? ==> |b| <= n.value && |b| - |a| <= n.value - m.value)
  }

  lemma IncludedIds(a: seq<Id>, m: Option<nat>, b: seq<Id>, n: Option<nat>)
    requires Included(a, m, b, n)
    ensures Elements(a) <= Elements(b) && |a| <= |b|
  {
    RestrictMembers(b, Elements(a));
    DistinctLength(a, Elements(b));
    DistinctCount(b);
  }

  /** Touching an id both hold. */
  lemma IncludedTouch(a: seq<Id>, m: Option<nat>, b: seq<Id>, n: Option<nat>, id: Id)
    requires Included(a, m, b, n) && id in a
    ensures id in b && Included(WithoutFirst(a, id) + [id], m, WithoutFirst(b, id) + [id], n)
  {
    RestrictMembers(b, Elements(a));
    TouchKeepsIds(a, id);
    TouchKeepsIds(b, id);
    RestrictWithout(b, id, Elements(a));
    var b1 := WithoutFirst(b, id);
    WithoutFirstFacts(b, id);
    assert id !in Elements(b1);
    RestrictAgree(b1, Elements(a) - {id}, Elements(a));
    RestrictAppend(b1, id, Elements(a));
  }

  /** Touching an id only the larger cache still holds: the smaller one inserts it, or misses. */
  lemma IncludedTouchLarger(a: seq<Id>, m: Option<nat>, b: seq<Id>, n: Option<nat>, id: Id)
    requires Included(a, m, b, n) && id !in a && id in b
    ensures Included(a, m, WithoutFirst(b, id) + [id], n)
  {
    TouchKeepsIds(b, id);
    RestrictWithout(b, id, Elements(a));
    var b1 := WithoutFirst(b, id);
    assert Elements(a) - {id} == Elements(a);
    RestrictAppend(b1, id, Elements(a));
  }

  /** The smaller cache takes in an id at the recent end of the larger one. */
  lemma IncludedCatchUp(a: seq<Id>, m: Option<nat>, b: seq<Id>, n: Option<nat>, id: Id)
    requires Included(a, m, b + [id], n) && id !in a
    ensures Included(if Full(a, m) then a[1..] + [id] else a + [id], m, b + [id], n)
  {
    var kept := if Full(a, m) then a[1..] else a;
    RestrictAppend(b, id, Elements(a));
    assert a == Restrict(b, Elements(a));
    var whole := b + [id];
    assert forall i :: 0 <= i < |b| ==> whole[i] == b[i];
    assert whole[|b|] == id;
    KeptIsRestricted(a, m, b);
    AppendRecent(kept, b, id);
    assert kept + [id] == if Full(a, m) then a[1..] + [id] else a + [id];
  }

  /** Dropping the oldest id of `a` when it is full still leaves `b` with ids crossed out. */
  lemma KeptIsRestricted(a: seq<Id>, m: Option<nat>, b: seq<Id>)
    requires Distinct(a) && Distinct(b) && a == Restrict(b, Elements(a))
    requires m.Some? ==> 0 < m.value
    ensures var kept := if Full(a, m) then a[1..] else a;
            Distinct(kept) && kept == Restrict(b, Elements(kept))
  {
    if Full(a, m) {
      RestrictDropFront(b, Elements(a));
      assert a == [a[0]] + a[1..];
      assert Elements(a[1..]) == Elements(a) - {a[0]} by {
        assert a[0] !in a[1..];
      }
    }
  }

  lemma AppendRecent(kept: seq<Id>, b: seq<Id>, id: Id)
    requires Distinct(kept) && Distinct(b) && kept == Restrict(b, Elements(kept)) && id !in kept && id !in b
    ensures Distinct(kept + [id]) && kept + [id] == Restrict(b + [id], Elements(kept + [id]))
  {
    DistinctAppend(kept, id);
    RestrictAgree(b, Elements(kept), Elements(kept + [id]));
    RestrictAppend(b, id, Elements(kept + [id]));
  }

  /** Both caches insert a new id, each dropping its oldest when full. */
  lemma IncludedInsert(a: seq<Id>, m: Option<nat>, b: seq<Id>, n: Option<nat>, id: Id)
    requires Included(a, m, b, n) && id !in a && id !in b
    ensures Included(if Full(a, m) then a[1..] + [id] else a + [id], m,
                     if Full(b, n) && |b| > 0 then b[1..] + [id] else b + [id], n)
  {
    IncludedIds(a, m, b, n);
    var kept := if Full(a, m) then a[1..] else a;
    KeptIsRestricted(a, m, b);
    if Full(b, n) && |b| > 0 {
      assert Full(a, m);
      assert b[0] !in kept by {
        if b[0] in a {
          assert a[0] == b[0];
        }
      }
      AppendRecent(kept, b[1..], id);
      DistinctAppend(b[1..], id);
    } else {
      AppendRecent(kept, b, id);
      DistinctAppend(b, id);
    }
    assert kept + [id] == if Full(a, m) then a[1..] + [id] else a + [id];
  }

  lemma IncludedRemove(a: seq<Id>, m: Option<nat>, b: seq<Id>, n: Option<nat>, id: Id)
    requires Included(a, m, b, n)
    ensures Included(WithoutFirst(a, id), m, WithoutFirst(b, id), n)
  {
    IncludedIds(a, m, b, n);
    WithoutFirstFacts(a, id);
    WithoutFirstFacts(b, id);
    RestrictWithout(b, id, Elements(a));
    assert id in a ==> id in Elements(a);
  }

  lemma IncludedStep<V>(a: seq<Id>, m: Option<nat>, b: seq<Id>, n: Option<nat>, call: Call<V>)
    requires Included(a, m, b, n)
    ensures Included(OrderStep(a, m, call), m, OrderStep(b, n, call), n)
  {
    if call.Clear? {
    } else if call.Remove? {
      IncludedRemove(a, m, b, n, call.id);
    } else {
      var id := call.id;
      RestrictMembers(b, Elements(a));
      if id in a {
        IncludedTouch(a, m, b, n, id);
      } else if id in b {
        IncludedTouchLarger(a, m, b, n, id);
        if !call.Get? {
          IncludedCatchUp(a, m, WithoutFirst(b, id), n, id);
        }
      } else if !call.Get? {
        IncludedInsert(a, m, b, n, id);
      }
    }
  }

  /**
   * On the same calls a cache with a smaller limit holds, in the same recency order, a part of what
   * one with a larger or absent limit holds: raising the limit never turns a hit into a miss.
   */
  lemma {:induction false} SmallerLimitHoldsLess<V>(m: Option<nat>, n: Option<nat>, calls: seq<Call<V>>)
    requires NoLargerThan(Fresh<V>(m).limit, Fresh<V>(n).limit)
    ensures var small, large := Run(Fresh(m), calls), Run(Fresh(n), calls);
            && small.order == Restrict(large.order, small.entries.Keys)
            && small.entries.Keys <= large.entries.Keys
  {
    IncludedRun(m, n, calls);
    RunKeepsValid(m, calls);
    RunKeepsValid(n, calls);
    var small, large := Run(Fresh(m), calls), Run(Fresh(n), calls);
    IncludedIds(small.order, small.limit, large.order, large.limit);
  }

  lemma {:induction false} IncludedRun<V>(m: Option<nat>, n: Option<nat>, calls: seq<Call<V>>)
    requires NoLargerThan(Fresh<V>(m).limit, Fresh<V>(n).limit)
    ensures var small, large := Run(Fresh(m), calls), Run(Fresh(n), calls);
            Included(small.order, small.limit, large.order, large.limit)
  {
    if |calls| > 0 {
      var before := calls[..|calls| - 1];
      IncludedRun(m, n, before);
      RunKeepsValid(m, before);
      RunKeepsValid(n, before);
      var small, large := Run(Fresh(m), before), Run(Fresh(n), before);
      StepKeepsValid(small, calls[|calls| - 1]);
      StepKeepsValid(large, calls[|calls| - 1]);
      IncludedStep(small.order, small.limit, large.order, large.limit, calls[|calls| - 1]);
    }
  }
}
