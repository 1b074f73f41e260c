/** What calls do, in terms of what the remote function did and of the clock (src/network/base.py). */
module ApiLaws {
  import opened Wrappers
  import opened CacheStores
  import opened ApiServices

  lemma {:induction false} RecordAt<V>(base: Held<V>, log: seq<Record<V>>, i: nat)
    requires IsRun(base, log) && i < |log|
    ensures Performed(log[i]) && Answered(log[i])
    ensures log[i].before == if i == 0 then base else log[i - 1].after
    decreases |log|
  {
    var n := |log| - 1;
    if i == n {
    } else {
      RecordAt(base, log[..n], i);
    }
  }

  /** The cache holds a value for the call that is not `None` and has not expired. */
  ghost predicate HasCached<V>(before: Held<V>, call: Call<V>) {
    && before.hasClient && call.cacheTtl.Some? && call.cacheKey in before.store
    && !(call.clock.get > before.store[call.cacheKey].expiresAt)
    && before.store[call.cacheKey].value != None
  }

  ghost function LastRecorded<V>(before: Held<V>, endpoint: string): real {
    if endpoint in before.lastCallTimes then before.lastCallTimes[endpoint] else 0.0
  }

  /** A call is dispatched exactly when there is a client, nothing usable is cached, the pause is over,
      and the endpoint's interval, if it has one, has passed since its last recorded reading. */
  lemma DispatchesExactly<V>(base: Held<V>, log: seq<Record<V>>, i: nat)
    requires IsRun(base, log) && i < |log|
    ensures var call, before := log[i].call, log[i].before;
      log[i].dispatched <==>
        && before.hasClient && !HasCached(before, call)
        && call.clock.now >= before.rateLimitUntil
        && (call.minInterval.None? || call.minInterval.value == 0.0 ||
            call.clock.now - LastRecorded(before, call.endpoint) >= call.minInterval.value)
  {
    RecordAt(base, log, i);
  }

  /** A dispatched call answers the returned value, by default after an error and after a 429, and raises
      only after a 429 with an unreadable `Retry-After`. Any other call answers the cached value, if
      there is one, and by default otherwise. */
  lemma AnswersExactly<V>(base: Held<V>, log: seq<Record<V>>, i: nat)
    requires IsRun(base, log) && i < |log|
    ensures var call, before, reply := log[i].call, log[i].before, log[i].reply;
      && (log[i].dispatched && call.outcome.Returned? ==> reply == Value(call.outcome.value))
      && (log[i].dispatched && (call.outcome.HttpError? || call.outcome.OtherError?) ==> reply == Value(call.default))
      && (log[i].dispatched && call.outcome.RateLimited? && call.outcome.retryAfter.Some? ==>
            reply == Value(call.default))
      && (reply == Raised <==> log[i].dispatched && call.outcome == RateLimited(None))
      && (!log[i].dispatched && HasCached(before, call) ==> reply == Value(before.store[call.cacheKey].value))
      && (!log[i].dispatched && !HasCached(before, call) ==> reply == Value(call.default))
  {
    RecordAt(base, log, i);
  }

  /** The pause ends 30 seconds after what a 429 answer asks for; nothing else moves its end. */
  lemma PausesExactly<V>(base: Held<V>, log: seq<Record<V>>, i: nat)
    requires IsRun(base, log) && i < |log|
    ensures var call := log[i].call;
      log[i].after.rateLimitUntil ==
        if log[i].dispatched && call.outcome.RateLimited? && call.outcome.retryAfter.Some?
        then call.clock.after + (call.outcome.retryAfter.value + 30) as real
        else log[i].before.rateLimitUntil
  {
    RecordAt(base, log, i);
  }

  /** Only a dispatch with an interval records its reading, for its own endpoint. */
  lemma RecordsExactly<V>(base: Held<V>, log: seq<Record<V>>, i: nat, endpoint: string)
    requires IsRun(base, log) && i < |log|
    ensures var call, before, after := log[i].call, log[i].before.lastCallTimes, log[i].after.lastCallTimes;
      if log[i].dispatched && call.minInterval.Some? && call.minInterval.value != 0.0 && call.endpoint == endpoint
      then endpoint in after && after[endpoint] == call.clock.now
      else (endpoint in after <==> endpoint in before) && (endpoint in after ==> after[endpoint] == before[endpoint])
  {
    RecordAt(base, log, i);
  }

  /** The cache once the call has looked: an expired entry of its key is gone. */
  ghost function AfterLook<V>(before: Held<V>, call: Call<V>): Store<V> {
    if before.hasClient && call.cacheTtl.Some? && call.cacheKey in before.store &&
       call.clock.get > before.store[call.cacheKey].expiresAt
    then before.store - {call.cacheKey} else before.store
  }

  ghost predicate StoresValue<V>(r: Record<V>) {
    r.dispatched && r.call.outcome.Returned? && r.call.cacheTtl.Some? && r.call.cacheKey != ""
  }

  /** Only a returned value is cached, under the call's key and until its time to live has passed; other
      entries are lost to expiry or to the size limit only. */
  lemma StoresExactly<V>(base: Held<V>, log: seq<Record<V>>, i: nat)
    requires IsRun(base, log) && i < |log|
    ensures var r, call := log[i], log[i].call;
      if StoresValue(r) then
        && call.cacheKey in r.after.store
        && r.after.store[call.cacheKey] == Entry(call.outcome.value, call.clock.store + call.cacheTtl.value)
        && Keeps(AfterLook(r.before, call), r.after.store, r.before.maxSize, call.cacheKey, call.clock.after)
      else r.after.store == AfterLook(r.before, call)
  {
    RecordAt(base, log, i);
    LooksExactly(log[i].before, log[i].call);
    if StoresValue(log[i]) {
      StoredBy(log[i]);
    }
  }

  lemma LooksExactly<V>(before: Held<V>, call: Call<V>)
    ensures AfterLook(before, call) == before.Looked(call)
  {
  }

  lemma StoredBy<V>(r: Record<V>)
    requires Performed(r) && StoresValue(r)
    ensures var call := r.call;
      && call.cacheKey in r.after.store
      && r.after.store[call.cacheKey] == Entry(call.outcome.value, call.clock.store + call.cacheTtl.value)
      && Keeps(r.before.Looked(call), r.after.store, r.before.maxSize, call.cacheKey, call.clock.after)
  {
    var call := r.call;
    AfterSetEntries(r.before.Looked(call), r.after.store, r.before.maxSize, call.cacheKey, call.NewEntry(),
                    call.clock.after);
    AfterSetKeeps(r.before.Looked(call), r.after.store, r.before.maxSize, call.cacheKey, call.NewEntry(),
                  call.clock.after);
  }

  // ----- From one call to a later one

  lemma OtherEntry<V>(r: Record<V>, key: string)
    requires key != r.call.cacheKey
    requires if StoresValue(r)
      then Keeps(AfterLook(r.before, r.call), r.after.store, r.before.maxSize, r.call.cacheKey, r.call.clock.after)
      else r.after.store == AfterLook(r.before, r.call)
    ensures key in r.after.store ==> key in r.before.store && r.after.store[key] == r.before.store[key]
  {
  }

  lemma Chained<V>(base: Held<V>, log: seq<Record<V>>, i: nat)
    requires IsRun(base, log) && 0 < i < |log|
    ensures log[i].before.store == log[i - 1].after.store
  {
    RecordAt(base, log, i);
  }

  /** The store holds this entry under the key, or none. */
  ghost predicate HoldsAtMost<V>(store: Store<V>, key: string, entry: Entry<V>) {
    key in store ==> store[key] == entry
  }

  lemma OtherEntryAt<V>(base: Held<V>, log: seq<Record<V>>, i: nat, key: string, entry: Entry<V>)
    requires IsRun(base, log) && i < |log| && key != log[i].call.cacheKey
    requires HoldsAtMost(log[i].before.store, key, entry)
    ensures HoldsAtMost(log[i].after.store, key, entry)
  {
    StoresExactly(base, log, i);
    OtherEntry(log[i], key);
  }

  lemma OtherCallBefore<V>(base: Held<V>, log: seq<Record<V>>, j: nat, key: string, entry: Entry<V>)
    requires IsRun(base, log) && 0 < j < |log| && key != log[j - 1].call.cacheKey
    requires HoldsAtMost(log[j - 1].before.store, key, entry)
    ensures HoldsAtMost(log[j].before.store, key, entry)
  {
    OtherEntryAt(base, log, j - 1, key, entry);
    Chained(base, log, j);
  }

  /** Other calls do not change an entry, though they may drop it. */
  lemma {:induction false} EntryUntilNext<V>(base: Held<V>, log: seq<Record<V>>, i: nat, j: nat,
                                             key: string, entry: Entry<V>)
    requires IsRun(base, log) && i < j < |log|
    requires HoldsAtMost(log[i].after.store, key, entry)
    requires forall k :: i < k < j ==> log[k].call.cacheKey != key
    ensures HoldsAtMost(log[j].before.store, key, entry)
    decreases j
  {
    if i == j - 1 {
      Chained(base, log, j);
    } else {
      EntryUntilNext(base, log, i, j - 1, key, entry);
      OtherCallBefore(base, log, j, key, entry);
    }
  }

  /** After a dispatched call that stored its value, the next call with its key answers that value
      without being dispatched, as long as it looks not later than the time to live after the storing
      and the entry is still there. */
  lemma ServesFromCache<V>(base: Held<V>, log: seq<Record<V>>, i: nat, j: nat)
    requires IsRun(base, log) && i < j < |log|
    requires var c := log[i].call;
      log[i].dispatched && c.outcome.Returned? && c.outcome.value.Some? && c.cacheTtl.Some? && c.cacheKey != ""
    requires log[j].call.cacheKey == log[i].call.cacheKey && log[j].call.cacheTtl.Some? && log[j].before.hasClient
    requires forall k :: i < k < j ==> log[k].call.cacheKey != log[i].call.cacheKey
    requires log[j].call.clock.get <= log[i].call.clock.store + log[i].call.cacheTtl.value
    requires log[i].call.cacheKey in log[j].before.store
    ensures !log[j].dispatched && log[j].reply == Value(log[i].call.outcome.value)
  {
    StoresExactly(base, log, i);
    EntryUntilNext(base, log, i, j, log[i].call.cacheKey, log[i].after.store[log[i].call.cacheKey]);
    DispatchesExactly(base, log, j);
    AnswersExactly(base, log, j);
  }

  /** After that time the next call never answers it. */
  lemma ExpiredIsNotServed<V>(base: Held<V>, log: seq<Record<V>>, i: nat, j: nat)
    requires IsRun(base, log) && i < j < |log|
    requires var c := log[i].call;
      log[i].dispatched && c.outcome.Returned? && c.cacheTtl.Some? && c.cacheKey != ""
    requires log[j].call.cacheKey == log[i].call.cacheKey
    requires forall k :: i < k < j ==> log[k].call.cacheKey != log[i].call.cacheKey
    requires log[j].call.clock.get > log[i].call.clock.store + log[i].call.cacheTtl.value
    ensures !log[j].dispatched ==> log[j].reply == Value(log[j].call.default)
  {
    StoresExactly(base, log, i);
    EntryUntilNext(base, log, i, j, log[i].call.cacheKey, log[i].after.store[log[i].call.cacheKey]);
    AnswersExactly(base, log, j);
  }
}
