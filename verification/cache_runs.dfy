/** What a value set in the cache is worth later on, over every run of sets and gets (src/core/cache.py). */
module CacheRuns {
  import opened Wrappers
  import opened CacheStores

  datatype Op<V> =
    | Set(key: string, value: Option<V>, ttl: real, evictAt: real, storeAt: real)
    | Get(key: string, ignoreTtl: bool, now: real)

  /** An operation with the store before and after it and, for a get, the answer. */
  datatype Record<V> = Record(op: Op<V>, before: Store<V>, after: Store<V>, answer: Option<V>)

  ghost predicate Happened<V>(maxSize: nat, r: Record<V>) {
    match r.op
    case Set(key, value, ttl, evictAt, storeAt) =>
      && key in r.after && r.after[key] == Entry(value, storeAt + ttl)
      && Keeps(r.before, r.after, maxSize, key, evictAt)
    case Get(key, ignoreTtl, now) =>
      && r.after == (if ignoreTtl then r.before else AfterLookup(r.before, key, now))
      && r.answer == if key in r.after then r.after[key].value else None
  }

  ghost function StoreAfter<V>(base: Store<V>, log: seq<Record<V>>): Store<V> {
    if log == [] then base else log[|log| - 1].after
  }

  ghost predicate IsRun<V>(maxSize: nat, base: Store<V>, log: seq<Record<V>>) {
    log != [] ==>
      var front, last := log[..|log| - 1], log[|log| - 1];
      IsRun(maxSize, base, front) && last.before == StoreAfter(base, front) && Happened(maxSize, last)
  }

  function Ops<V>(log: seq<Record<V>>): (ops: seq<Op<V>>)
    ensures |ops| == |log|
  {
    if log == [] then [] else Ops(log[..|log| - 1]) + [log[|log| - 1].op]
  }

  method Apply<V>(c: CacheStore<V>, op: Op<V>) returns (r: Record<V>)
    requires c.Valid()
    modifies c
    ensures c.Valid() && r.op == op && r.before == old(c.store) && r.after == c.store
    ensures Happened(c.maxSize, r)
  {
    var before := c.store;
    match op {
      case Set(key, value, ttl, evictAt, storeAt) =>
        c.Set(key, value, ttl, evictAt, storeAt);
        AfterSetEntries(before, c.store, c.maxSize, key, Entry(value, storeAt + ttl), evictAt);
        AfterSetKeeps(before, c.store, c.maxSize, key, Entry(value, storeAt + ttl), evictAt);
        r := Record(op, before, c.store, None);
      case Get(key, ignoreTtl, now) =>
        var answer := c.Get(key, ignoreTtl, now);
        r := Record(op, before, c.store, answer);
    }
  }

  lemma Append<V>(maxSize: nat, base: Store<V>, log: seq<Record<V>>, r: Record<V>)
    requires IsRun(maxSize, base, log) && r.before == StoreAfter(base, log) && Happened(maxSize, r)
    ensures IsRun(maxSize, base, log + [r]) && Ops(log + [r]) == Ops(log) + [r.op]
    ensures StoreAfter(base, log + [r]) == r.after
  {
    assert (log + [r])[..|log|] == log;
  }

  lemma TakeOneMore<T>(s: seq<T>, n: nat)
    requires n < |s|
    ensures s[..n + 1] == s[..n] + [s[n]]
  {
  }

  /** Any sequence of sets and gets, whatever the cache holds at first. */
  method Run<V>(c: CacheStore<V>, ops: seq<Op<V>>) returns (log: seq<Record<V>>)
    requires c.Valid()
    modifies c
    ensures c.Valid() && Ops(log) == ops
    ensures IsRun(c.maxSize, old(c.store), log) && StoreAfter(old(c.store), log) == c.store
  {
    ghost var base := c.store;
    log := [];
    for i := 0 to |ops|
      invariant c.Valid() && Ops(log) == ops[..i]
      invariant IsRun(c.maxSize, base, log) && StoreAfter(base, log) == c.store
    {
      var r := Apply(c, ops[i]);
      Append(c.maxSize, base, log, r);
      TakeOneMore(ops, i);
      log := log + [r];
    }
    assert ops[..|ops|] == ops;
  }

  // ----- What a get answers

  lemma {:induction false} RecordAt<V>(maxSize: nat, base: Store<V>, log: seq<Record<V>>, i: nat)
    requires IsRun(maxSize, base, log) && i < |log|
    ensures Happened(maxSize, log[i])
    ensures i > 0 ==> log[i].before == log[i - 1].after
    decreases |log|
  {
    var n := |log| - 1;
    if i == n {
    } else {
      RecordAt(maxSize, base, log[..n], i);
    }
  }

  /** The key would be evicted, or might be: it has not expired, no other such key expires sooner, and
      together they fill the store. */
  ghost predicate MayBeVictim<V>(store: Store<V>, maxSize: nat, key: string, evictAt: real) {
    && key in LiveKeys(store, evictAt) && |LiveKeys(store, evictAt)| >= maxSize
    && forall j :: j in LiveKeys(store, evictAt) ==> store[key].expiresAt <= store[j].expiresAt
  }

  /** The operation does not replace the key, does not come after its expiry as far as it drops expired
      entries, and does not find it to be a possible victim. */
  ghost predicate Spares<V>(maxSize: nat, r: Record<V>, key: string, expiry: real) {
    match r.op
    case Set(k, _, _, evictAt, _) => k != key && evictAt <= expiry && !MayBeVictim(r.before, maxSize, key, evictAt)
    case Get(k, ignoreTtl, now) => k == key && !ignoreTtl ==> now <= expiry
  }

  lemma SparedStays<V>(maxSize: nat, r: Record<V>, key: string)
    requires Happened(maxSize, r) && key in r.before && Spares(maxSize, r, key, r.before[key].expiresAt)
    ensures key in r.after && r.after[key] == r.before[key]
  {
    if r.op.Set? {
      var evictAt := r.op.evictAt;
      assert key in LiveKeys(r.before, evictAt);
      if key !in r.after {
        assert IsLost(r.before, r.after, r.op.key, evictAt, key);
      }
    }
  }

  lemma {:induction false} StaysThrough<V>(maxSize: nat, base: Store<V>, log: seq<Record<V>>,
                                           i: nat, j: nat, key: string)
    requires IsRun(maxSize, base, log) && i < j < |log| && key in log[i].after
    requires forall m :: i < m < j ==> Spares(maxSize, log[m], key, log[i].after[key].expiresAt)
    ensures key in log[j].before && log[j].before[key] == log[i].after[key]
    decreases j
  {
    RecordAt(maxSize, base, log, j);
    if i == j - 1 {
    } else {
      StaysThrough(maxSize, base, log, i, j - 1, key);
      RecordAt(maxSize, base, log, j - 1);
      SparedStays(maxSize, log[j - 1], key);
    }
  }

  /** Round trip: in any run, a value set under a key is what a later get of the key answers until its
      expiry, unless it was replaced or was a possible victim of the size limit. */
  lemma SetIsRemembered<V>(maxSize: nat, base: Store<V>, log: seq<Record<V>>, i: nat, j: nat)
    requires IsRun(maxSize, base, log) && i < j < |log| && log[i].op.Set?
    requires log[j].op.Get? && log[j].op.key == log[i].op.key
    requires var expiry := log[i].op.storeAt + log[i].op.ttl;
      && (forall m :: i < m < j ==> Spares(maxSize, log[m], log[i].op.key, expiry))
      && (log[j].op.ignoreTtl || log[j].op.now <= expiry)
    ensures log[j].answer == log[i].op.value
  {
    RecordAt(maxSize, base, log, i);
    StaysThrough(maxSize, base, log, i, j, log[i].op.key);
    RecordAt(maxSize, base, log, j);
  }

  ghost predicate Replaces<V>(op: Op<V>, key: string) {
    op.Set? && op.key == key
  }

  lemma {:induction false} OnlySetIsHeld<V>(maxSize: nat, base: Store<V>, log: seq<Record<V>>, i: nat, j: nat)
    requires IsRun(maxSize, base, log) && i < j < |log| && log[i].op.Set?
    requires forall m :: i < m < j ==> !Replaces(log[m].op, log[i].op.key)
    ensures var key := log[i].op.key;
      key in log[j].before ==> log[j].before[key] == Entry(log[i].op.value, log[i].op.storeAt + log[i].op.ttl)
    decreases j
  {
    RecordAt(maxSize, base, log, j);
    if i == j - 1 {
      RecordAt(maxSize, base, log, i);
    } else {
      OnlySetIsHeld(maxSize, base, log, i, j - 1);
      RecordAt(maxSize, base, log, j - 1);
    }
  }

  /** In any run, a get answers nothing else than the last value set under its key, and nothing at all
      after its expiry unless expiry is ignored. */
  lemma GetIsLastSet<V>(maxSize: nat, base: Store<V>, log: seq<Record<V>>, i: nat, j: nat)
    requires IsRun(maxSize, base, log) && i < j < |log| && log[i].op.Set?
    requires log[j].op.Get? && log[j].op.key == log[i].op.key
    requires forall m :: i < m < j ==> !Replaces(log[m].op, log[i].op.key)
    ensures log[j].answer == None || log[j].answer == log[i].op.value
    ensures !log[j].op.ignoreTtl && log[j].op.now > log[i].op.storeAt + log[i].op.ttl ==> log[j].answer == None
  {
    OnlySetIsHeld(maxSize, base, log, i, j);
    RecordAt(maxSize, base, log, j);
  }
}
