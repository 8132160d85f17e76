/** `tryToFetchCachedData`: a read through a key-value cache that refreshes an entry when
    it is missing or older than the update period. The store is an immutable map, the
    current time a parameter, and the refresh (the getter's promise) its outcome. */
module Cache {
  import opened Wrappers

  /** `CACHE_UPDATE_PERIOD`: one minute, in milliseconds. */
  const CacheUpdatePeriod: int := 1000 * 60

  /** A cached object: what the getter produced, and the time of its `lastUpdate` in
      milliseconds, which a getter may leave unset. */
  datatype Entry<V> = Entry(value: V, lastUpdate: Option<int>)

  type Store<V> = map<string, Entry<V>>

  /** The outcome of one read: the store afterwards, what the read resolves or rejects
      with, and whether the getter was called. */
  datatype Read<V, E> = Read(store: Store<V>, result: Result<Entry<V>, E>, invoked: bool)

  /** The test `new Date() - val.lastUpdate > CACHE_UPDATE_PERIOD`. Without a
      `lastUpdate` the difference is NaN, and NaN is greater than nothing. */
  predicate IsStale<V>(e: Entry<V>, now: int): (b: bool)
    ensures b <==> !IsFresh(e, now)
  {
    match e.lastUpdate
    case None => false
    case Some(t) => now - t > CacheUpdatePeriod
  }

  /** The entry may be served as it is: it carries no date, or it is at most one update
      period old (an age of exactly one period still counts). */
  predicate IsFresh<V>(e: Entry<V>, now: int) {
    e.lastUpdate.None? || e.lastUpdate.value + CacheUpdatePeriod >= now
  }

  /** `tryToFetchCachedData(key, getter)`: serve the cached entry when there is one and
      it is not stale; otherwise call the getter, store what it resolves with under the
      key and return it. When the getter rejects, `await` throws before `set`, so the
      store is left as it was and the rejection propagates. */
  function FetchCached<V, E>(store: Store<V>, key: string, now: int, refresh: Result<Entry<V>, E>): (r: Read<V, E>)
    ensures r.invoked <==> key !in store || !IsFresh(store[key], now)
    ensures !r.invoked ==> r.result == Success(store[key]) && r.store == store
    ensures r.invoked ==> r.result == refresh
    ensures r.invoked && refresh.Success? ==> r.store == store[key := refresh.value]
    ensures refresh.Failure? ==> r.store == store
    ensures r.result.Success? ==> key in r.store && r.store[key] == r.result.value
  {
    if key !in store || IsStale(store[key], now) then
      match refresh
      case Success(e) => Read(store[key := e], refresh, true)
      case Failure(_) => Read(store, refresh, true)
    else
      Read(store, Success(store[key]), false)
  }

  /** A miss calls the getter, and what it resolves with is both stored and returned. */
  lemma MissRefreshes<V, E>(store: Store<V>, key: string, now: int, e: Entry<V>)
    requires key !in store
    ensures var r := FetchCached<V, E>(store, key, now, Success(e));
      r.invoked && r.result == Success(e) && r.store == store[key := e]
  {
  }

  /** A dated entry at most one period old is served untouched, whatever the getter would
      have produced: the store and the entry's `lastUpdate` stay as they are. */
  lemma FreshHitServed<V, E>(store: Store<V>, key: string, now: int, t: int, refresh: Result<Entry<V>, E>)
    requires key in store && store[key].lastUpdate == Some(t)
    requires now - t <= CacheUpdatePeriod
    ensures var r := FetchCached(store, key, now, refresh);
      !r.invoked && r.result == Success(store[key]) && r.store == store
      && r.result.value.lastUpdate == Some(t)
  {
  }

  /** The comparison is strict: an entry exactly one period old is still fresh, and one
      millisecond later it is refreshed. */
  lemma PeriodBoundary<V, E>(store: Store<V>, key: string, t: int, refresh: Result<Entry<V>, E>)
    requires key in store && store[key].lastUpdate == Some(t)
    ensures !FetchCached(store, key, t + 60000, refresh).invoked
    ensures FetchCached(store, key, t + 60001, refresh).invoked
  {
  }

  /** A stale entry is replaced by the refreshed one; every other key keeps its entry. */
  lemma StaleHitReplaces<V, E>(store: Store<V>, key: string, now: int, t: int, e: Entry<V>)
    requires key in store && store[key].lastUpdate == Some(t)
    requires now - t > CacheUpdatePeriod
    ensures var r := FetchCached<V, E>(store, key, now, Success(e));
      && r.invoked && r.result == Success(e)
      && key in r.store && r.store[key] == e
      && r.store.Keys == store.Keys
      && (forall k :: k in store && k != key ==> r.store[k] == store[k])
  {
  }

  /** A getter that rejects leaves the store exactly as it was, a stale entry included,
      and the rejection is what the read gives. */
  lemma FailureKeepsStore<V, E>(store: Store<V>, key: string, now: int, err: E)
    ensures var r := FetchCached(store, key, now, Failure(err));
      r.store == store && (r.invoked ==> r.result == Failure(err))
      && (key in store ==> r.store[key] == store[key])
  {
  }

  /** An entry without a `lastUpdate` is never refreshed, however late the read. */
  lemma UndatedNeverRefreshed<V, E>(store: Store<V>, key: string, refresh: Result<Entry<V>, E>)
    requires key in store && store[key].lastUpdate.None?
    ensures forall now :: !FetchCached(store, key, now, refresh).invoked
  {
  }

  /** What a refresh stores with the current time is served, unchanged and without calling
      the getter, by every read up to one period later. */
  lemma RefreshThenHit<V, E>(store: Store<V>, key: string, now: int, v: V,
                             later: int, refresh: Result<Entry<V>, E>)
    requires key !in store || IsStale(store[key], now)
    requires now <= later <= now + CacheUpdatePeriod
    ensures var first := FetchCached<V, E>(store, key, now, Success(Entry(v, Some(now))));
      var second := FetchCached(first.store, key, later, refresh);
      !second.invoked && second.result == Success(Entry(v, Some(now))) && second.store == first.store
  {
    var e := Entry(v, Some(now));
    var first := FetchCached<V, E>(store, key, now, Success(e));
    assert first.store == store[key := e];
    assert IsFresh(first.store[key], later);
  }
}
