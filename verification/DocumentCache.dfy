/** The LRU cache with a fixed time to live, and the recency list it behaves like. */
module DocumentCache {
  import opened Collections

  const TTL_MS: int := 60 * 60 * 1000

  datatype CacheEntry<D> = CacheEntry(document: D, cachedAt: int, lastAccessedAt: int, accessCount: nat)

  /** One line of the reference list. */
  datatype Ref<I, D> = Ref(id: I, document: D, cachedAt: int)

  function Without<I(==), D>(list: seq<Ref<I, D>>, id: I): seq<Ref<I, D>> {
    if list == [] then []
    else if list[0].id == id then list[1..]
    else [list[0]] + Without(list[1..], id)
  }

  function Find<I(==), D>(list: seq<Ref<I, D>>, id: I): (r: Option<Ref<I, D>>)
    ensures r.Some? ==> r.value in list && r.value.id == id
    ensures r.None? <==> forall i :: 0 <= i < |list| ==> list[i].id != id
  {
    if list == [] then None else if list[0].id == id then Some(list[0]) else Find(list[1..], id)
  }

  function Fresh<I, D>(list: seq<Ref<I, D>>, now: int): seq<Ref<I, D>> {
    if list == [] then []
    else (if now - list[0].cachedAt > TTL_MS then [] else [list[0]]) + Fresh(list[1..], now)
  }

  /** Looking up moves an unexpired document to the recent end, and drops an expired one. */
  function RefGet<I(==), D>(list: seq<Ref<I, D>>, id: I, now: int): seq<Ref<I, D>> {
    match Find(list, id)
    case None => list
    case Some(r) => if now - r.cachedAt > TTL_MS then Without(list, id) else Without(list, id) + [r]
  }

  /** What a lookup answers. */
  function RefAnswer<I(==), D>(list: seq<Ref<I, D>>, id: I, now: int): Option<D> {
    var f := Find(list, id);
    if f.Some? && now - f.value.cachedAt <= TTL_MS then Some(f.value.document) else None
  }

  /** Adding drops the least recent document when the list is full. */
  function RefSet<I(==), D>(list: seq<Ref<I, D>>, id: I, document: D, now: int, max: nat): seq<Ref<I, D>> {
    var room :=
      if Find(list, id).Some? then Without(list, id)
      else if |list| >= max && |list| > 0 then list[1..]
      else list;
    room + [Ref(id, document, now)]
  }

  /** The map and the list hold the same documents, and the list is in order of last access. */
  ghost predicate InStep<I, D>(cache: JsMap<I, CacheEntry<D>>, list: seq<Ref<I, D>>, clock: int) {
    && |list| == |cache.order|
    && (forall i :: 0 <= i < |list| ==> Same(cache.items, list[i]))
    && (forall i, j :: 0 <= i < j < |list| ==> Earlier(cache.items, list[i].id, list[j].id))
    && (forall id :: id in cache.items ==> Find(list, id).Some? && cache.items[id].lastAccessedAt <= clock)
  }

  ghost predicate Same<I, D>(items: map<I, CacheEntry<D>>, r: Ref<I, D>) {
    r.id in items && items[r.id].document == r.document && items[r.id].cachedAt == r.cachedAt
  }

  ghost predicate Earlier<I, D>(items: map<I, CacheEntry<D>>, a: I, b: I) {
    a in items && b in items && items[a].lastAccessedAt < items[b].lastAccessedAt
  }

  class DocumentCache<I(==), D> {
    const MAX_SIZE: nat
    var cache: JsMap<I, CacheEntry<D>>

    /** The reference list, least recently used first; the last clock reading; whether the clock has always advanced. */
    ghost var recency: seq<Ref<I, D>>
    ghost var clock: int
    ghost var strict: bool

    ghost predicate Valid()
      reads this
    {
      && cache.Valid()
      && (strict ==> InStep(cache, recency, clock))
      && (strict && MAX_SIZE >= 1 ==> cache.Size() <= MAX_SIZE)
    }

    constructor (maxSize: nat, now: int)
      ensures Valid() && MAX_SIZE == maxSize && cache == JsMap([], map[]) && recency == [] && clock == now && strict
    {
      MAX_SIZE := maxSize;
      cache := JsMap([], map[]);
      recency, clock, strict := [], now, true;
    }

    /** Nothing older than the time to live is served; while the clock advances, the answer is the reference list's. */
    method Get(id: I, now: int) returns (r: Option<D>)
      requires Valid()
      modifies this
      ensures Valid() && clock == now && strict == (old(strict) && old(clock) < now)
      ensures r == if id in old(cache.items) && now - old(cache.items)[id].cachedAt <= 3600000
                   then Some(old(cache.items)[id].document) else None
      ensures cache.items.Keys == if r.None? then old(cache.items.Keys) - {id} else old(cache.items.Keys)
      ensures forall x :: x in cache.items && x != id ==> cache.items[x] == old(cache.items)[x]
      ensures r.Some? ==>
                var e := old(cache.items)[id];
                cache.items[id] == CacheEntry(e.document, e.cachedAt, now, e.accessCount + 1)
      ensures Kept(cache, old(cache))
      ensures recency == RefGet(old(recency), id, now)
      ensures strict ==> r == RefAnswer(old(recency), id, now)
    {
      hide InStep, RefGet, RefAnswer, JsMap.Valid;
      strict := strict && clock < now;
      if strict { GetInStep(cache, recency, clock, id, now); }
      clock, recency := now, RefGet(recency, id, now);
      r := None;
      if id in cache.items {
        var entry := cache.items[id];
        if now - entry.cachedAt > TTL_MS {
          cache.DeleteValid(id);
          cache := cache.Delete(id);
        } else {
          SetAgain(cache, id, entry.(lastAccessedAt := now, accessCount := entry.accessCount + 1));
          cache := cache.Set(id, entry.(lastAccessedAt := now, accessCount := entry.accessCount + 1));
          r := Some(entry.document);
        }
      }
    }

    /** The cache outgrows its limit exactly when it is full, the id is new, and no entry was last used before now. */
    method Set(id: I, document: D, now: int)
      requires Valid()
      modifies this
      ensures Valid() && clock == now && strict == (old(strict) && old(clock) < now)
      ensures id in cache.items && cache.items[id] == CacheEntry(document, now, now, 1)
      ensures forall x :: x in cache.items && x != id ==> x in old(cache.items) && cache.items[x] == old(cache.items)[x]
      ensures if id in old(cache.items) || old(cache.Size()) < MAX_SIZE
              then cache.items.Keys == old(cache.items.Keys) + {id}
              else Replaced(old(cache), cache, id, now)
      ensures recency == RefSet(old(recency), id, document, now, MAX_SIZE)
      ensures old(cache.Size()) <= MAX_SIZE ==>
                (cache.Size() <= MAX_SIZE <==>
                  id in old(cache.items) || old(cache.Size()) < MAX_SIZE
                  || (MAX_SIZE > 0 && exists x :: x in old(cache.items) && old(cache.items)[x].lastAccessedAt < now))
    {
      hide InStep, RefSet, JsMap.Valid, IsVictim, Replaced;
      strict := strict && clock < now;
      ghost var before, list := cache, recency;
      var entry := CacheEntry(document, now, now, 1);
      if cache.Size() >= MAX_SIZE && id !in cache.items {
        var victim := EvictLRU(now);
        if strict { EvictInStep(before, list, clock, now, victim); }
        VictimIsOld(before, victim, now);
        ReplacedByNew(before, cache, victim, id, entry, now);
      }
      if strict { SetInStep(before, cache, list, clock, id, entry, MAX_SIZE); }
      cache.SetValid(id, entry);
      cache := cache.Set(id, entry);
      clock, recency := now, RefSet(recency, id, document, now, MAX_SIZE);
    }

    /** Remove the entry used longest ago; an entry used at this very moment is never chosen. */
    method EvictLRU(now: int) returns (victim: Option<I>)
      requires cache.Valid()
      modifies this`cache
      ensures cache.Valid()
      ensures victim.None? ==> cache == old(cache) && forall x :: x in cache.items ==>
              cache.items[x].lastAccessedAt >= now
      ensures victim.Some? ==> IsVictim(old(cache), victim.value, now) && cache == old(cache).Delete(victim.value)
    {
      victim := None;
      var oldestTime := now;
      ghost var at: nat := 0;
      for i := 0 to |cache.order|
        invariant cache == old(cache)
        invariant victim.None? ==> oldestTime == now && forall j :: 0 <= j < i ==>
                cache.items[cache.order[j]].lastAccessedAt >= now
        invariant victim.Some? ==>
                  && victim.value in cache.items
                  && cache.items[victim.value].lastAccessedAt == oldestTime < now
        invariant victim.Some? ==> at < i && cache.order[at] == victim.value
        invariant victim.Some? ==> forall j :: 0 <= j < i ==> cache.items[cache.order[j]].lastAccessedAt >= oldestTime
        invariant victim.Some? ==> forall j :: 0 <= j < at ==> cache.items[cache.order[j]].lastAccessedAt > oldestTime
      {
        var id := cache.order[i];
        if cache.items[id].lastAccessedAt < oldestTime {
          oldestTime := cache.items[id].lastAccessedAt;
          victim := Some(id);
          at := i;
        }
      }
      if victim.Some? {
        cache.DeleteValid(victim.value);
        cache := cache.Delete(victim.value);
      }
    }

    method Invalidate(id: I)
      requires Valid()
      modifies this
      ensures Valid() && clock == old(clock) && strict == old(strict)
      ensures cache == old(cache).Delete(id) && cache.items.Keys == old(cache.items.Keys) - {id}
      ensures Kept(cache, old(cache))
      ensures recency == Without(old(recency), id)
    {
      hide InStep;
      if strict { DropInStep(cache, recency, clock, id); }
      cache.DeleteValid(id);
      cache := cache.Delete(id);
      recency := Without(recency, id);
    }

    method Clear()
      requires Valid()
      modifies this
      ensures Valid() && clock == old(clock) && strict == old(strict) && cache == JsMap([], map[]) && recency == []
    {
      cache := JsMap([], map[]);
      recency := [];
    }

    /** The periodic sweep takes out exactly the expired entries. */
    method Sweep(now: int)
      requires Valid()
      modifies this
      ensures Valid() && clock == now && strict == (old(strict) && old(clock) < now)
      ensures cache.items ==
              map x | x in old(cache.items) && now - old(cache.items)[x].cachedAt <= 3600000 :: old(cache.items)[x]
      ensures strict ==> recency == Fresh(old(recency), now)
    {
      hide InStep, Without, Fresh, JsMap.Valid, JsMap.Delete;
      strict := strict && clock < now;
      if strict { Later(cache, recency, clock, now); }
      clock := now;
      var ids := cache.order;
      ghost var first := cache.items;
      Ordered(cache);
      for i := 0 to |ids|
        invariant cache.Valid() && cache.Size() <= old(cache.Size()) && clock == now
        invariant strict == (old(strict) && old(clock) < now)
        invariant forall x :: x in cache.items ==> x in first && cache.items[x] == first[x]
        invariant forall x :: x in first ==> (x in cache.items <==> x !in ids[..i] || now - first[x].cachedAt <= TTL_MS)
        invariant strict ==> InStep(cache, recency, clock) && Fresh(recency, now) == Fresh(old(recency), now)
      {
        var id := ids[i];
        TakeNext(ids, i);
        if id in cache.items && now - cache.items[id].cachedAt > TTL_MS {
          SweepOne(cache, recency, clock, id, now, strict);
          cache, recency := cache.Delete(id), Without(recency, id);
        }
      }
      if strict { AllFresh(cache, recency, clock, now); }
    }
  }

  lemma SweepOne<I, D>(cache: JsMap<I, CacheEntry<D>>, list: seq<Ref<I, D>>, clock: int, id: I, now: int, strict: bool)
    requires cache.Valid() && id in cache.items && now - cache.items[id].cachedAt > TTL_MS
    requires strict ==> InStep(cache, list, clock)
    ensures cache.Delete(id).Valid() && cache.Delete(id).Size() == cache.Size() - 1
    ensures cache.Delete(id).items == cache.items - {id}
    ensures strict ==>
              && InStep(cache.Delete(id), Without(list, id), clock)
              && Fresh(Without(list, id), now) == Fresh(list, now)
  {
    hide InStep, Without, Fresh;
    cache.DeleteValid(id);
    if strict {
      FreshWithout(cache, list, clock, id, now);
      DropInStep(cache, list, clock, id);
    }
  }

  ghost predicate Kept<I, D>(after: JsMap<I, CacheEntry<D>>, before: JsMap<I, CacheEntry<D>>) {
    forall x :: x in after.items ==> x in before.items && after.items[x].document == before.items[x].document
  }

  /** The first entry, in the map's order, among those used longest before now. */
  ghost predicate IsVictim<I, D>(cache: JsMap<I, CacheEntry<D>>, id: I, now: int) {
    && id in cache.items && cache.items[id].lastAccessedAt < now
    && (forall x :: x in cache.items ==> cache.items[id].lastAccessedAt <= cache.items[x].lastAccessedAt)
    && (forall i, j :: 0 <= i < j < |cache.order| && cache.order[j] == id && cache.order[i] in cache.items ==>
          cache.items[id].lastAccessedAt < cache.items[cache.order[i]].lastAccessedAt)
  }

  /** A new id came in for the entry used longest before now, or beside them all if there was none. */
  ghost predicate Replaced<I, D>(before: JsMap<I, CacheEntry<D>>, after: JsMap<I, CacheEntry<D>>, id: I, now: int) {
    || (after.items.Keys == before.items.Keys + {id} && forall x :: x in before.items ==>
        before.items[x].lastAccessedAt >= now)
    || exists victim ::
         && victim in before.items && IsVictim(before, victim, now)
         && after.items.Keys == before.items.Keys - {victim} + {id}
  }

  lemma ReplacedByNew<I, D>(before: JsMap<I, CacheEntry<D>>, evicted: JsMap<I, CacheEntry<D>>, victim: Option<I>, id: I,
                            e: CacheEntry<D>, now: int)
    requires if victim.Some? then victim.value in before.items && IsVictim(before, victim.value, now)
            && evicted == before.Delete(victim.value)
             else evicted == before && forall x :: x in before.items ==> before.items[x].lastAccessedAt >= now
    ensures Replaced(before, evicted.Set(id, e), id, now)
  {
    hide IsVictim;
    if victim.Some? {
      assert evicted.Set(id, e).items.Keys == before.items.Keys - {victim.value} + {id};
    } else {
      assert evicted.Set(id, e).items.Keys == before.items.Keys + {id};
    }
  }

  lemma VictimIsOld<I, D>(cache: JsMap<I, CacheEntry<D>>, victim: Option<I>, now: int)
    requires cache.Valid()
    requires victim.Some? ==> IsVictim(cache, victim.value, now)
    ensures victim.Some? ==>
              && victim.value in cache.items
              && cache.items[victim.value].lastAccessedAt < now
              && cache.Size() > 0
    ensures victim.Some? ==> cache.Delete(victim.value).Size() == cache.Size() - 1
  {
    if victim.Some? { cache.DeleteValid(victim.value); }
  }

  lemma SetAgain<I, D>(cache: JsMap<I, CacheEntry<D>>, id: I, e: CacheEntry<D>)
    requires cache.Valid() && id in cache.items && e.document == cache.items[id].document
    ensures cache.Set(id, e).Valid() && cache.Set(id, e).Size() == cache.Size()
    ensures cache.Set(id, e).items.Keys == cache.items.Keys && Kept(cache.Set(id, e), cache)
  {
    cache.SetValid(id, e);
  }

  lemma Ordered<I, D>(cache: JsMap<I, CacheEntry<D>>)
    requires cache.Valid()
    ensures forall x :: x in cache.items <==> x in cache.order
  {}

  // One operation after another keeps the map and the list in step

  lemma {:induction false} WithoutKeeps<I, D>(items: map<I, CacheEntry<D>>, list: seq<Ref<I, D>>, id: I)
    requires forall i :: 0 <= i < |list| ==> Same(items, list[i])
    requires forall i, j :: 0 <= i < j < |list| ==> Earlier(items, list[i].id, list[j].id)
    ensures var r := Without(list, id);
            && |r| == |list| - (if Find(list, id).Some? then 1 else 0)
            && (forall i :: 0 <= i < |r| ==> Same(items, r[i]) && r[i].id != id && r[i] in list)
            && (forall i, j :: 0 <= i < j < |r| ==> Earlier(items, r[i].id, r[j].id))
            && (forall x: I :: x != id && Find(list, x).Some? ==> Find(r, x).Some?)
  {
    if list == [] {
    } else {
      WithoutKeeps(items, list[1..], id);
      if list[0].id == id {
        forall i | 0 <= i < |list[1..]| ensures list[1..][i].id != id {
          assert Earlier(items, list[0].id, list[i + 1].id);
        }
      } else {
        var r := Without(list[1..], id);
        forall i | 0 <= i < |r| ensures Earlier(items, list[0].id, r[i].id) {
          var j :| 0 <= j < |list[1..]| && list[1..][j] == r[i];
          assert Earlier(items, list[0].id, list[j + 1].id);
        }
      }
    }
  }

  lemma DropInStep<I, D>(cache: JsMap<I, CacheEntry<D>>, list: seq<Ref<I, D>>, clock: int, id: I)
    requires cache.Valid() && InStep(cache, list, clock)
    ensures cache.Delete(id).Valid() && InStep(cache.Delete(id), Without(list, id), clock)
  {
    hide Without, Find, JsMap.Valid;
    WithoutKeeps(cache.items, list, id);
    FoundIff(cache, list, clock, id);
    cache.DeleteValid(id);
    var r := Without(list, id);
    forall i | 0 <= i < |r| ensures Same(cache.Delete(id).items, r[i]) {
      assert Same(cache.items, r[i]);
    }
    forall i, j | 0 <= i < j < |r| ensures Earlier(cache.Delete(id).items, r[i].id, r[j].id) {
      assert Earlier(cache.items, r[i].id, r[j].id);
    }
  }

  lemma FoundIff<I, D>(cache: JsMap<I, CacheEntry<D>>, list: seq<Ref<I, D>>, clock: int, id: I)
    requires InStep(cache, list, clock)
    ensures id in cache.items <==> Find(list, id).Some?
    ensures id in cache.items ==> Same(cache.items, Find(list, id).value)
  {
    if Find(list, id).Some? {
      var i :| 0 <= i < |list| && list[i] == Find(list, id).value;
      assert Same(cache.items, list[i]);
    }
  }

  /** The entry most recently used goes to the end of the list. */
  lemma TouchInStep<I, D>(cache: JsMap<I, CacheEntry<D>>, list: seq<Ref<I, D>>, clock: int, id: I, e: CacheEntry<D>)
    requires cache.Valid() && InStep(cache, list, clock) && id !in cache.items
    requires clock < e.lastAccessedAt
    ensures cache.Set(id, e).Valid()
    ensures InStep(cache.Set(id, e), list + [Ref(id, e.document, e.cachedAt)], e.lastAccessedAt)
  {
    hide JsMap.Valid;
    cache.SetValid(id, e);
    var after, r := cache.Set(id, e), list + [Ref(id, e.document, e.cachedAt)];
    FoundIff(cache, list, clock, id);
    forall i | 0 <= i < |r| ensures Same(after.items, r[i]) {
      assert i < |list| ==> Same(cache.items, list[i]);
    }
    forall i, j | 0 <= i < j < |r| ensures Earlier(after.items, r[i].id, r[j].id) {
      assert Same(cache.items, list[i]);
      assert j < |list| ==> Earlier(cache.items, list[i].id, list[j].id);
    }
    forall x | x in after.items ensures Find(r, x).Some? && after.items[x].lastAccessedAt <= e.lastAccessedAt {
      FindLater(list, Ref(id, e.document, e.cachedAt), x);
      assert x != id ==> x in cache.items;
    }
  }

  lemma {:induction false} FindLater<I, D>(list: seq<Ref<I, D>>, last: Ref<I, D>, x: I)
    ensures Find(list + [last], x).Some? <==> Find(list, x).Some? || x == last.id
  {
    if list == [] {
    } else {
      assert (list + [last])[1..] == list[1..] + [last];
      FindLater(list[1..], last, x);
    }
  }

  /** Setting again is removing and setting, as far as the list can tell. */
  lemma ResetInStep<I, D>(cache: JsMap<I, CacheEntry<D>>, list: seq<Ref<I, D>>, clock: int, id: I, e: CacheEntry<D>)
    requires cache.Valid() && InStep(cache, list, clock) && clock < e.lastAccessedAt
    ensures InStep(cache.Set(id, e), Without(list, id) + [Ref(id, e.document, e.cachedAt)], e.lastAccessedAt)
  {
    hide InStep, Without;
    DropInStep(cache, list, clock, id);
    TouchInStep(cache.Delete(id), Without(list, id), clock, id, e);
    cache.DeleteValid(id);
    assert cache.Delete(id).Set(id, e).items == cache.Set(id, e).items;
    SameSteps(cache.Delete(id).Set(id, e), cache.Set(id, e), Without(list, id) + [Ref(id, e.document, e.cachedAt)],
              e.lastAccessedAt);
  }

  lemma SameSteps<I, D>(a: JsMap<I, CacheEntry<D>>, b: JsMap<I, CacheEntry<D>>, list: seq<Ref<I, D>>, clock: int)
    requires InStep(a, list, clock) && a.items == b.items && |a.order| == |b.order|
    ensures InStep(b, list, clock)
  {}

  lemma GetInStep<I, D>(cache: JsMap<I, CacheEntry<D>>, list: seq<Ref<I, D>>, clock: int, id: I, now: int)
    requires cache.Valid() && InStep(cache, list, clock) && clock < now
    ensures id in cache.items <==> Find(list, id).Some?
    ensures RefAnswer(list, id, now) == if id in cache.items && now - cache.items[id].cachedAt <= TTL_MS
                                        then Some(cache.items[id].document) else None
    ensures id !in cache.items ==> InStep(cache, RefGet(list, id, now), now)
    ensures id in cache.items && now - cache.items[id].cachedAt > TTL_MS ==>
              InStep(cache.Delete(id), RefGet(list, id, now), now)
    ensures id in cache.items && now - cache.items[id].cachedAt <= TTL_MS ==>
              InStep(cache.Set(id, cache.items[id].(lastAccessedAt := now,
                                                    accessCount := cache.items[id].accessCount + 1)),
                     RefGet(list, id, now), now)
  {
    hide InStep, Without;
    FoundIff(cache, list, clock, id);
    Later(cache, list, clock, now);
    if id in cache.items {
      var e := cache.items[id];
      if now - e.cachedAt > TTL_MS {
        DropInStep(cache, list, clock, id);
        Later(cache.Delete(id), Without(list, id), clock, now);
      } else {
        ResetInStep(cache, list, clock, id, e.(lastAccessedAt := now, accessCount := e.accessCount + 1));
      }
    }
  }

  lemma Later<I, D>(cache: JsMap<I, CacheEntry<D>>, list: seq<Ref<I, D>>, clock: int, now: int)
    requires InStep(cache, list, clock) && clock <= now
    ensures InStep(cache, list, now)
  {}

  lemma {:induction false} FreshConcat<I, D>(a: seq<Ref<I, D>>, b: seq<Ref<I, D>>, now: int)
    ensures Fresh(a + b, now) == Fresh(a, now) + Fresh(b, now)
  {
    if a == [] {
      assert a + b == b;
    } else {
      assert (a + b)[1..] == a[1..] + b;
      FreshConcat(a[1..], b, now);
    }
  }

  lemma {:induction false} WithoutExpired<I, D>(list: seq<Ref<I, D>>, id: I, now: int)
    requires Find(list, id).Some? ==> now - Find(list, id).value.cachedAt > TTL_MS
    ensures Fresh(Without(list, id), now) == Fresh(list, now)
  {
    if list != [] && list[0].id != id {
      WithoutExpired(list[1..], id, now);
      assert ([list[0]] + Without(list[1..], id))[1..] == Without(list[1..], id);
    }
  }

  lemma FreshWithout<I, D>(cache: JsMap<I, CacheEntry<D>>, list: seq<Ref<I, D>>, clock: int, id: I, now: int)
    requires InStep(cache, list, clock) && id in cache.items && now - cache.items[id].cachedAt > TTL_MS
    ensures Fresh(Without(list, id), now) == Fresh(list, now)
  {
    FoundIff(cache, list, clock, id);
    WithoutExpired(list, id, now);
  }

  lemma {:induction false} FreshAll<I, D>(list: seq<Ref<I, D>>, now: int)
    requires forall i :: 0 <= i < |list| ==> now - list[i].cachedAt <= TTL_MS
    ensures Fresh(list, now) == list
  {
    if list == [] {
    } else {
      FreshAll(list[1..], now);
    }
  }

  lemma AllFresh<I, D>(cache: JsMap<I, CacheEntry<D>>, list: seq<Ref<I, D>>, clock: int, now: int)
    requires InStep(cache, list, clock) && forall x :: x in cache.items ==> now - cache.items[x].cachedAt <= TTL_MS
    ensures Fresh(list, now) == list
  {
    forall i | 0 <= i < |list| ensures now - list[i].cachedAt <= TTL_MS {
      assert Same(cache.items, list[i]);
    }
    FreshAll(list, now);
  }

  /** While the clock advances the victim is the head of the reference list, and a cache with entries has one. */
  lemma EvictInStep<I, D>(cache: JsMap<I, CacheEntry<D>>, list: seq<Ref<I, D>>, clock: int, now: int, victim: Option<I>)
    requires cache.Valid() && InStep(cache, list, clock) && clock < now
    requires victim.None? ==> forall x :: x in cache.items ==> cache.items[x].lastAccessedAt >= now
    requires victim.Some? ==> IsVictim(cache, victim.value, now)
    ensures victim.None? <==> list == []
    ensures victim.Some? ==> victim.value == list[0].id && InStep(cache.Delete(victim.value), list[1..], clock)
    ensures victim.None? ==> cache.Size() == 0
  {
    if victim.Some? {
      FoundIff(cache, list, clock, victim.value);
      forall k | 0 < k < |list| ensures list[k].id != victim.value {
        assert Earlier(cache.items, list[0].id, list[k].id);
      }
      DropInStep(cache, list, clock, victim.value);
    } else {
      HeadPresent(cache, list, clock);
    }
  }

  lemma HeadPresent<I, D>(cache: JsMap<I, CacheEntry<D>>, list: seq<Ref<I, D>>, clock: int)
    requires InStep(cache, list, clock)
    ensures list != [] ==> list[0].id in cache.items && cache.items[list[0].id].lastAccessedAt <= clock
  {
    assert list != [] ==> Same(cache.items, list[0]);
  }

  /** Adding keeps the map and the list in step: `cache` is `before` with its victim gone, if it had to make room. */
  lemma SetInStep<I, D>(before: JsMap<I, CacheEntry<D>>, cache: JsMap<I, CacheEntry<D>>, list: seq<Ref<I, D>>,
                        clock: int,
                        id: I, e: CacheEntry<D>, max: nat)
    requires before.Valid() && cache.Valid() && InStep(before, list, clock) && clock < e.lastAccessedAt == e.cachedAt
    requires if before.Size() >= max && id !in before.items
             then InStep(cache, if list == [] then [] else list[1..], clock) && id !in cache.items else cache == before
    ensures InStep(cache.Set(id, e), RefSet(list, id, e.document, e.cachedAt, max), e.lastAccessedAt)
  {
    FoundIff(before, list, clock, id);
    if id in before.items {
      ResetInStep(cache, list, clock, id, e);
    } else if before.Size() >= max && |list| > 0 {
      TouchInStep(cache, list[1..], clock, id, e);
    } else {
      TouchInStep(cache, list, clock, id, e);
    }
  }

  /** A run that fails: two documents cached within one tick of the clock outgrow a cache for one. */
  method TwoInOneTick<D>(a: D, b: D, now: int) returns (c: DocumentCache<nat, D>)
    ensures c.Valid() && c.MAX_SIZE == 1 && c.cache.items.Keys == {0, 1} && c.cache.Size() > 1
  {
    hide InStep, RefSet;
    c := new DocumentCache(1, now - 1);
    c.Set(0, a, now);
    assert c.cache.items.Keys == {0};
    c.Set(1, b, now);
  }
}
