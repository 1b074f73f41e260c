/** The in-memory key-value cache with expiry times (src/core/cache.py).

    Clock readings are parameters. A stored value may be Python's `None`, so values are options and
    `Get` answers `None` both for a missing key and for a stored `None`. */
module CacheStores {
  import opened Wrappers

  datatype Entry<V> = Entry(value: Option<V>, expiresAt: real)

  type Store<V> = map<string, Entry<V>>

  function Live<V>(store: Store<V>, now: real): Store<V> {
    map k | k in store && now <= store[k].expiresAt :: store[k]
  }

  predicate IsSoonest<V>(k: string, store: Store<V>) {
    k in store && forall j :: j in store ==> store[k].expiresAt <= store[j].expiresAt
  }

  lemma {:induction false} SoonestExists<V>(store: Store<V>)
    requires store != map[]
    ensures exists k :: IsSoonest(k, store)
    decreases |store|
  {
    var j :| j in store;
    var rest := store - {j};
    if rest == map[] {
      forall i | i in store ensures i == j {
        assert i != j ==> i in rest;
      }
      assert IsSoonest(j, store);
    } else {
      SoonestExists(rest);
      var k :| IsSoonest(k, rest);
      var soonest := if store[j].expiresAt <= store[k].expiresAt then j else k;
      forall i | i in store ensures store[soonest].expiresAt <= store[i].expiresAt {
        assert i == j || i in rest;
      }
      assert IsSoonest(soonest, store);
    }
  }

  /** The live entries, less the victim of the size limit, with `key` set. */
  function Stored<V>(store: Store<V>, victim: Option<string>, key: string, entry: Entry<V>): Store<V> {
    (if victim.Some? then store - {victim.value} else store)[key := entry]
  }

  /** The store after an entry was set: nothing else is lost than what had expired and, if the rest
      filled the store, one entry that would have expired soonest. */
  ghost predicate AfterSet<V>(before: Store<V>, after: Store<V>, maxSize: nat,
                              key: string, entry: Entry<V>, evictAt: real)
  {
    var live := Live(before, evictAt);
    if |live| >= maxSize then
      exists victim :: IsSoonest(victim, live) && after == Stored(live, Some(victim), key, entry)
    else
      after == Stored(live, None, key, entry)
  }

  lemma AfterSetEntries<V>(before: Store<V>, after: Store<V>, maxSize: nat, key: string, entry: Entry<V>, evictAt: real)
    requires AfterSet(before, after, maxSize, key, entry, evictAt)
    ensures key in after && after[key] == entry
    ensures forall k :: k in after && k != key ==> k in before && after[k] == before[k]
  {
  }

  /** The keys whose entries have not expired. */
  ghost function LiveKeys<V>(store: Store<V>, now: real): set<string> {
    set k | k in store && now <= store[k].expiresAt
  }

  ghost predicate IsLost<V>(before: Store<V>, after: Store<V>, key: string, evictAt: real, k: string) {
    k != key && k in LiveKeys(before, evictAt) && k !in after
  }

  /** What a set keeps: other keys only if they have not expired, as they were; and all of those, except
      for at most one, which expires soonest and goes only if such keys fill the store. */
  ghost predicate Keeps<V>(before: Store<V>, after: Store<V>, maxSize: nat, key: string, evictAt: real) {
    && (forall k :: k in after && k != key ==>
          k in before && after[k] == before[k] && evictAt <= before[k].expiresAt)
    && (forall k, j :: IsLost(before, after, key, evictAt, k) && IsLost(before, after, key, evictAt, j) ==> k == j)
    && (forall k, j :: IsLost(before, after, key, evictAt, k) && j in LiveKeys(before, evictAt) ==>
          before[k].expiresAt <= before[j].expiresAt)
    && (forall k :: IsLost(before, after, key, evictAt, k) ==> |LiveKeys(before, evictAt)| >= maxSize)
  }

  lemma AfterSetKeeps<V>(before: Store<V>, after: Store<V>, maxSize: nat, key: string, entry: Entry<V>, evictAt: real)
    requires AfterSet(before, after, maxSize, key, entry, evictAt)
    ensures Keeps(before, after, maxSize, key, evictAt)
  {
    var live := Live(before, evictAt);
    assert live.Keys == LiveKeys(before, evictAt);
    if |live| >= maxSize {
      var victim :| IsSoonest(victim, live) && after == Stored(live, Some(victim), key, entry);
      assert forall k :: IsLost(before, after, key, evictAt, k) ==> k == victim;
    }
  }

  /** The store after a lookup that respects expiry times. */
  function AfterLookup<V>(store: Store<V>, key: string, now: real): Store<V> {
    if key in store && now > store[key].expiresAt then store - {key} else store
  }

  /** A lookup drops nothing else than its own key, and that exactly when it has expired. */
  lemma LookupDropsExactly<V>(store: Store<V>, key: string, now: real, k: string)
    ensures k in AfterLookup(store, key, now) <==> k in store && !(k == key && now > store[k].expiresAt)
    ensures k in AfterLookup(store, key, now) ==> AfterLookup(store, key, now)[k] == store[k]
  {
  }

  class CacheStore<V(==)> {
    var store: Store<V>
    const maxSize: nat

    ghost predicate Valid()
      reads this
    {
      0 < maxSize && |store| <= maxSize
    }

    constructor (maxSize: nat)
      requires 0 < maxSize
      ensures Valid() && store == map[] && this.maxSize == maxSize
    {
      store, this.maxSize := map[], maxSize;
    }

    /** `set`: expired entries go first, then, if the store is still full, one that would expire
        soonest; the store never outgrows its limit. */
    method Set(key: string, value: Option<V>, ttl: real, evictAt: real, storeAt: real)
      requires Valid()
      modifies this
      ensures Valid()
      ensures AfterSet(old(store), store, maxSize, key, Entry(value, storeAt + ttl), evictAt)
    {
      EvictExpired(evictAt);
      var victim := EnforceSize();
      ghost var before := store;
      assert victim.Some? ==> IsSoonest(victim.value, Live(old(store), evictAt));
      store := store[key := Entry(value, storeAt + ttl)];
      assert store.Keys == before.Keys + {key};
    }

    method EvictExpired(now: real)
      requires Valid()
      modifies this
      ensures Valid() && store == Live(old(store), now)
      ensures forall k :: k in store <==> k in old(store) && !(now > old(store)[k].expiresAt)
      ensures forall k :: k in store ==> store[k] == old(store)[k]
    {
      assert Live(store, now).Keys <= store.Keys;
      Smaller(Live(store, now).Keys, store.Keys);
      store := Live(store, now);
    }

    method EnforceSize() returns (victim: Option<string>)
      requires Valid()
      modifies this
      ensures |store| < maxSize
      ensures victim.Some? <==> |old(store)| >= maxSize
      ensures victim.Some? ==> IsSoonest(victim.value, old(store)) && store == old(store) - {victim.value}
      ensures victim.None? ==> store == old(store)
    {
      if |store| >= maxSize {
        SoonestExists(store);
        var oldest :| IsSoonest(oldest, store);
        ghost var before := store;
        store := store - {oldest};
        assert before.Keys == store.Keys + {oldest};
        return Some(oldest);
      }
      return None;
    }

    method Get(key: string, ignoreTtl: bool, now: real) returns (value: Option<V>)
      requires Valid()
      modifies this
      ensures Valid()
      ensures store == if ignoreTtl then old(store) else AfterLookup(old(store), key, now)
      ensures value == if key in store then store[key].value else None
    {
      if key !in store {
        return None;
      }
      var entry := store[key];
      if !ignoreTtl && now > entry.expiresAt {
        ghost var before := store;
        store := store - {key};
        assert before.Keys == store.Keys + {key};
        return None;
      }
      return entry.value;
    }
  }

  lemma Smaller(a: set<string>, b: set<string>)
    requires a <= b
    ensures |a| <= |b|
  {
    assert b == a + (b - a);
  }
}
