/** Throttled, cached API calls made one after the other (src/network/base.py).

    A call carries its clock readings and what the remote function does, should it be dispatched. */
module ApiServices {
  import opened Wrappers
  import opened CacheStores

  /** The safety margin added to every `Retry-After`. */
  const RETRY_MARGIN: int := 30

  datatype Outcome<V> =
    | Returned(value: Option<V>)
    | RateLimited(retryAfter: Option<int>) // `None` for a header that is not an integer
    | HttpError(status: int)
    | OtherError

  /** Readings of the clock, in the order in which a call takes them. */
  datatype Clock = Clock(get: real, now: real, after: real, store: real)

  datatype Call<V> = Call(
    endpoint: string,
    cacheKey: string,
    cacheTtl: Option<real>,
    minInterval: Option<real>,
    default: Option<V>,
    clock: Clock,
    outcome: Outcome<V>)
  {
    /** `if min_interval:` skips the throttle for `None` and for zero. */
    predicate Throttled() {
      minInterval.Some? && minInterval.value != 0.0
    }

    /** The end of the pause that a 429 answer to this call asks for. */
    function PauseEnd(): Option<real> {
      if outcome.RateLimited? && outcome.retryAfter.Some?
      then Some(clock.after + (outcome.retryAfter.value + RETRY_MARGIN) as real)
      else None
    }

    predicate Stores() {
      cacheTtl.Some? && cacheKey != "" && outcome.Returned?
    }

    function NewEntry(): Entry<V>
      requires Stores()
    {
      Entry(outcome.value, clock.store + cacheTtl.value)
    }
  }

  datatype Reply<V> = Value(value: Option<V>) | Raised

  /** What a service holds between calls. The cache may have been filled before the first one. */
  datatype Held<V> = Held(
    hasClient: bool,
    maxSize: nat,
    store: Store<V>,
    lastCallTimes: map<string, real>,
    rateLimitUntil: real)
  {
    function LastCall(endpoint: string): real {
      if endpoint in lastCallTimes then lastCallTimes[endpoint] else 0.0
    }

    /** A value for the call that has not expired when the cache is first asked. */
    predicate Hit(call: Call<V>) {
      && hasClient && call.cacheTtl.Some? && call.cacheKey in store
      && call.clock.get <= store[call.cacheKey].expiresAt
      && store[call.cacheKey].value.Some?
    }

    /** No unexpired value is cached, the pause is over, and so is the interval of the endpoint. */
    predicate MayDispatch(call: Call<V>) {
      && hasClient && !Hit(call)
      && call.clock.now >= rateLimitUntil
      && (call.Throttled() ==> call.clock.now - LastCall(call.endpoint) >= call.minInterval.value)
    }

    /** The cache once the call has looked for its value. */
    function Looked(call: Call<V>): Store<V> {
      if hasClient && call.cacheTtl.Some? then AfterLookup(store, call.cacheKey, call.clock.get) else store
    }
  }

  /** A call with what the service held before and after it. */
  datatype Record<V> = Record(call: Call<V>, before: Held<V>, after: Held<V>, dispatched: bool, reply: Reply<V>)

  /** When a call is dispatched, and all that it changes. */
  ghost predicate Performed<V>(r: Record<V>) {
    var before, after, call := r.before, r.after, r.call;
    && after.hasClient == before.hasClient && after.maxSize == before.maxSize
    && (r.dispatched <==> before.MayDispatch(call))
    && after.lastCallTimes == (if r.dispatched && call.Throttled()
                               then before.lastCallTimes[call.endpoint := call.clock.now] else before.lastCallTimes)
    && after.rateLimitUntil == (if r.dispatched && call.PauseEnd().Some?
                                then call.PauseEnd().value else before.rateLimitUntil)
    && (if r.dispatched && call.Stores()
        then AfterSet(before.Looked(call), after.store, after.maxSize, call.cacheKey, call.NewEntry(), call.clock.after)
        else after.store == before.Looked(call))
  }

  /** What a call answers: a dispatched one what the remote function said. Any other answers by default,
      unless the cache holds an unexpired value: the first lookup drops an expired one, so that the
      fallback for refused calls never finds it. */
  ghost predicate Answered<V>(r: Record<V>) {
    if r.dispatched then
      match r.call.outcome
      case Returned(value) => r.reply == Value(value)
      case RateLimited(None) => r.reply == Raised
      case _ => r.reply == Value(r.call.default)
    else r.reply == Value(if r.before.Hit(r.call) then r.before.store[r.call.cacheKey].value else r.call.default)
  }

  class SpotifyService<V(==)> {
    const hasClient: bool
    const cache: CacheStore<V>
    var lastCallTimes: map<string, real>
    var rateLimitUntil: real

    ghost predicate Valid()
      reads this, cache
    {
      cache.Valid()
    }

    constructor (client: bool, store: CacheStore<V>)
      requires store.Valid()
      ensures Valid() && hasClient == client && cache == store
      ensures lastCallTimes == map[] && rateLimitUntil == 0.0
    {
      hasClient, cache, lastCallTimes, rateLimitUntil := client, store, map[], 0.0;
    }

    ghost function View(): Held<V>
      reads this, cache
    {
      Held(hasClient, cache.maxSize, cache.store, lastCallTimes, rateLimitUntil)
    }

    function LastCall(endpoint: string): real
      reads this
    {
      if endpoint in lastCallTimes then lastCallTimes[endpoint] else 0.0
    }

    /** What the call answers when it must not be dispatched: anything in the cache, even expired. */
    method Fallback(call: Call<V>) returns (r: Reply<V>)
      requires Valid()
      modifies cache
      ensures Valid() && cache.store == old(cache.store)
      ensures r == Value(
        if call.cacheTtl.Some? && call.cacheKey in cache.store && cache.store[call.cacheKey].value.Some?
        then cache.store[call.cacheKey].value else call.default)
    {
      if call.cacheTtl.Some? {
        var cached := cache.Get(call.cacheKey, true, call.clock.now);
        if cached.Some? {
          return Value(cached);
        }
      }
      return Value(call.default);
    }

    method SafeApiCall(call: Call<V>) returns (r: Reply<V>, dispatched: bool)
      requires Valid()
      modifies this, cache
      ensures Valid()
      ensures Performed(Record(call, old(View()), View(), dispatched, r))
      ensures Answered(Record(call, old(View()), View(), dispatched, r))
    {
      if !hasClient {
        return Value(call.default), false;
      }
      if call.cacheTtl.Some? {
        var cached := cache.Get(call.cacheKey, false, call.clock.get);
        if cached.Some? {
          return Value(cached), false;
        }
      }
      if call.clock.now < rateLimitUntil {
        r := Fallback(call);
        return r, false;
      }
      if call.Throttled() {
        if call.clock.now - LastCall(call.endpoint) < call.minInterval.value {
          r := Fallback(call);
          return r, false;
        }
        lastCallTimes := lastCallTimes[call.endpoint := call.clock.now];
      }
      r := Perform(call);
      return r, true;
    }

    /** The dispatched call and what its result does to the cache and to the pause. */
    method Perform(call: Call<V>) returns (r: Reply<V>)
      requires Valid()
      modifies this`rateLimitUntil, cache
      ensures Valid()
      ensures match call.outcome
        case Returned(value) => r == Value(value)
        case RateLimited(None) => r == Raised
        case _ => r == Value(call.default)
      ensures rateLimitUntil == if call.PauseEnd().Some? then call.PauseEnd().value else old(rateLimitUntil)
      ensures call.Stores() ==>
        AfterSet(old(cache.store), cache.store, cache.maxSize, call.cacheKey, call.NewEntry(), call.clock.after)
      ensures !call.Stores() ==> cache.store == old(cache.store)
    {
      match call.outcome {
        case Returned(value) =>
          if call.cacheTtl.Some? && call.cacheKey != "" {
            cache.Set(call.cacheKey, value, call.cacheTtl.value, call.clock.after, call.clock.store);
          }
          return Value(value);
        case RateLimited(retryAfter) =>
          if retryAfter.None? {
            return Raised;
          }
          rateLimitUntil := call.clock.after + (retryAfter.value + RETRY_MARGIN) as real;
          return Value(call.default);
        case _ =>
          return Value(call.default);
      }
    }
  }

  // ----- Runs of calls

  function Calls<V>(log: seq<Record<V>>): seq<Call<V>> {
    if log == [] then [] else Calls(log[..|log| - 1]) + [log[|log| - 1].call]
  }

  ghost predicate ThrottledDispatch<V>(r: Record<V>, endpoint: string) {
    r.dispatched && r.call.Throttled() && r.call.endpoint == endpoint
  }

  ghost predicate StoresUnder<V>(r: Record<V>, key: string) {
    r.dispatched && r.call.Stores() && r.call.cacheKey == key
  }

  /** The reading recorded by the last throttled dispatch of `endpoint`. */
  ghost function LastReading<V>(base: Held<V>, log: seq<Record<V>>, endpoint: string): real {
    if log == [] then
      if endpoint in base.lastCallTimes then base.lastCallTimes[endpoint] else 0.0
    else
      var last := log[|log| - 1];
      if ThrottledDispatch(last, endpoint) then last.call.clock.now
      else LastReading(base, log[..|log| - 1], endpoint)
  }

  /** The end of the pause in force after the calls. */
  ghost function PauseUntil<V>(base: Held<V>, log: seq<Record<V>>): real {
    if log == [] then base.rateLimitUntil else
      var last := log[|log| - 1];
      if last.dispatched && last.call.PauseEnd().Some? then last.call.PauseEnd().value
      else PauseUntil(base, log[..|log| - 1])
  }

  /** The value of the last successful cached call with the key, or else the one in the cache before. */
  ghost function LastStored<V>(base: Held<V>, log: seq<Record<V>>, key: string): Option<Option<V>> {
    if log == [] then
      if key in base.store then Some(base.store[key].value) else None
    else
      var last := log[|log| - 1];
      if StoresUnder(last, key) then Some(last.call.outcome.value)
      else LastStored(base, log[..|log| - 1], key)
  }

  /** What a call did is justified by the calls before it. */
  ghost predicate Justified<V>(base: Held<V>, before: seq<Record<V>>, r: Record<V>) {
    && (r.dispatched ==> r.call.clock.now >= PauseUntil(base, before))
    && (ThrottledDispatch(r, r.call.endpoint) ==>
          r.call.clock.now - LastReading(base, before, r.call.endpoint) >= r.call.minInterval.value)
    && (!r.dispatched ==>
          || r.reply == Value(r.call.default)
          || (r.reply.Value? && LastStored(base, before, r.call.cacheKey) == Some(r.reply.value)))
  }

  /** What the service holds after the calls. */
  ghost function HeldAfter<V>(base: Held<V>, log: seq<Record<V>>): Held<V> {
    if log == [] then base else log[|log| - 1].after
  }

  /** Each call starts from what the one before left, and does what a call does. */
  ghost predicate IsRun<V>(base: Held<V>, log: seq<Record<V>>) {
    log != [] ==>
      var front, last := log[..|log| - 1], log[|log| - 1];
      IsRun(base, front) && last.before == HeldAfter(base, front) && Performed(last) && Answered(last)
  }

  ghost predicate AllJustified<V>(base: Held<V>, log: seq<Record<V>>) {
    log != [] ==> AllJustified(base, log[..|log| - 1]) && Justified(base, log[..|log| - 1], log[|log| - 1])
  }

  ghost predicate FollowsReadings<V>(lastCallTimes: map<string, real>, base: Held<V>, log: seq<Record<V>>) {
    forall e :: (if e in lastCallTimes then lastCallTimes[e] else 0.0) == LastReading(base, log, e)
  }

  ghost predicate FollowsStored<V>(store: Store<V>, base: Held<V>, log: seq<Record<V>>) {
    forall k :: k in store ==> LastStored(base, log, k) == Some(store[k].value)
  }

  /** What the service holds is what the calls so far have left in it. */
  ghost predicate Follows<V>(held: Held<V>, base: Held<V>, log: seq<Record<V>>) {
    && held.rateLimitUntil == PauseUntil(base, log)
    && FollowsReadings(held.lastCallTimes, base, log)
    && FollowsStored(held.store, base, log)
  }

  lemma FollowsAtFirst<V>(base: Held<V>)
    ensures Follows(base, base, [])
  {
  }

  /** One more record: only a throttled dispatch changes a reading, only a storing call a stored value. */
  lemma OneMore<V>(base: Held<V>, log: seq<Record<V>>, r: Record<V>, e: string, k: string)
    ensures PauseUntil(base, log + [r]) ==
      if r.dispatched && r.call.PauseEnd().Some? then r.call.PauseEnd().value else PauseUntil(base, log)
    ensures LastReading(base, log + [r], e) ==
      if ThrottledDispatch(r, e) then r.call.clock.now else LastReading(base, log, e)
    ensures LastStored(base, log + [r], k) ==
      if StoresUnder(r, k) then Some(r.call.outcome.value) else LastStored(base, log, k)
  {
    assert (log + [r])[..|log|] == log;
  }

  lemma ReadingsFollow<V>(times: map<string, real>, after: map<string, real>, base: Held<V>,
                          log: seq<Record<V>>, r: Record<V>)
    requires FollowsReadings(times, base, log)
    requires after == if r.dispatched && r.call.Throttled() then times[r.call.endpoint := r.call.clock.now] else times
    ensures FollowsReadings(after, base, log + [r])
  {
    forall e ensures (if e in after then after[e] else 0.0) == LastReading(base, log + [r], e) {
      OneMore(base, log, r, e, "");
    }
  }

  /** Entries of the store stay what they were, except the one that the call stored. */
  lemma StoredFollows<V>(store: Store<V>, after: Store<V>, base: Held<V>, log: seq<Record<V>>, r: Record<V>)
    requires FollowsStored(store, base, log)
    requires forall k :: k in after ==>
      if StoresUnder(r, k) then after[k].value == r.call.outcome.value else k in store && after[k] == store[k]
    ensures FollowsStored(after, base, log + [r])
  {
    forall k | k in after ensures LastStored(base, log + [r], k) == Some(after[k].value) {
      OneMore(base, log, r, "", k);
    }
  }

  lemma RecordFollows<V>(base: Held<V>, log: seq<Record<V>>, r: Record<V>)
    requires Follows(r.before, base, log) && Performed(r) && Answered(r)
    ensures Justified(base, log, r) && Follows(r.after, base, log + [r])
  {
    var call := r.call;
    if r.dispatched && call.Stores() {
      AfterSetEntries(r.before.Looked(call), r.after.store, r.after.maxSize, call.cacheKey, call.NewEntry(),
                      call.clock.after);
    }
    OneMore(base, log, r, call.endpoint, call.cacheKey);
    ReadingsFollow(r.before.lastCallTimes, r.after.lastCallTimes, base, log, r);
    StoredFollows(r.before.store, r.after.store, base, log, r);
  }

  /** In every run what the service holds is what the calls so far have left in it, and what each call
      did is justified by the calls before it. */
  lemma {:induction false} RunsAreJustified<V>(base: Held<V>, log: seq<Record<V>>)
    requires IsRun(base, log)
    ensures AllJustified(base, log) && Follows(HeldAfter(base, log), base, log)
  {
    if log == [] {
      FollowsAtFirst(base);
    } else {
      var front, last := log[..|log| - 1], log[|log| - 1];
      RunsAreJustified(base, front);
      RecordFollows(base, front, last);
      assert log == front + [last];
    }
  }

  lemma AppendRecord<V>(base: Held<V>, log: seq<Record<V>>, r: Record<V>)
    requires IsRun(base, log) && r.before == HeldAfter(base, log) && Performed(r) && Answered(r)
    ensures IsRun(base, log + [r]) && Calls(log + [r]) == Calls(log) + [r.call]
    ensures HeldAfter(base, log + [r]) == r.after
  {
    assert (log + [r])[..|log|] == log;
  }

  lemma TakeOneMore<T>(s: seq<T>, i: nat)
    requires i < |s|
    ensures s[..i + 1] == s[..i] + [s[i]]
  {
  }

  method CallOne<V>(s: SpotifyService<V>, call: Call<V>) returns (r: Record<V>)
    requires s.Valid()
    modifies s, s.cache
    ensures s.Valid() && r.call == call && r.before == old(s.View()) && r.after == s.View()
    ensures Performed(r) && Answered(r)
  {
    var before := Held(s.hasClient, s.cache.maxSize, s.cache.store, s.lastCallTimes, s.rateLimitUntil);
    var reply, dispatched := s.SafeApiCall(call);
    var after := Held(s.hasClient, s.cache.maxSize, s.cache.store, s.lastCallTimes, s.rateLimitUntil);
    r := Record(call, before, after, dispatched, reply);
  }

  /** Any sequence of calls, whatever the service and its cache hold at first. */
  method RunCalls<V>(s: SpotifyService<V>, calls: seq<Call<V>>) returns (log: seq<Record<V>>)
    requires s.Valid()
    modifies s, s.cache
    ensures s.Valid() && s.View() == HeldAfter(old(s.View()), log) && Calls(log) == calls
    ensures IsRun(old(s.View()), log) && AllJustified(old(s.View()), log)
  {
    ghost var base := s.View();
    log := [];
    for i := 0 to |calls|
      invariant s.Valid() && s.View() == HeldAfter(base, log)
      invariant Calls(log) == calls[..i] && IsRun(base, log)
    {
      var r := CallOne(s, calls[i]);
      AppendRecord(base, log, r);
      TakeOneMore(calls, i);
      log := log + [r];
    }
    assert calls[..|calls|] == calls;
    RunsAreJustified(base, log);
  }

  // ----- What justified runs guarantee

  lemma {:induction false} JustifiedAt<V>(base: Held<V>, log: seq<Record<V>>, i: nat)
    requires AllJustified(base, log) && i < |log|
    ensures Justified(base, log[..i], log[i])
    decreases |log|
  {
    if i == |log| - 1 {
    } else {
      JustifiedAt(base, log[..|log| - 1], i);
      assert log[..|log| - 1][..i] == log[..i];
    }
  }

  lemma {:induction false} LastReadingIsLatest<V>(base: Held<V>, log: seq<Record<V>>, i: nat, n: nat)
    requires AllJustified(base, log) && i < n <= |log|
    requires forall k :: 0 <= k < |log| && log[k].call.minInterval.Some? ==> log[k].call.minInterval.value >= 0.0
    requires ThrottledDispatch(log[i], log[i].call.endpoint)
    ensures log[i].call.clock.now <= LastReading(base, log[..n], log[i].call.endpoint)
    decreases n
  {
    var e := log[i].call.endpoint;
    assert log[..n][..n - 1] == log[..n - 1];
    if i == n - 1 {
    } else {
      LastReadingIsLatest(base, log, i, n - 1);
      JustifiedAt(base, log, n - 1);
      assert ThrottledDispatch(log[n - 1], e) ==>
        log[n - 1].call.clock.now - LastReading(base, log[..n - 1], e) >= log[n - 1].call.minInterval.value >= 0.0;
    }
  }

  /** Throttled dispatches of one endpoint are at least the later call's interval apart. */
  lemma DispatchesAreSpaced<V>(base: Held<V>, log: seq<Record<V>>, i: nat, j: nat)
    requires AllJustified(base, log) && i < j < |log|
    requires forall k :: 0 <= k < |log| && log[k].call.minInterval.Some? ==> log[k].call.minInterval.value >= 0.0
    requires ThrottledDispatch(log[i], log[i].call.endpoint) && ThrottledDispatch(log[j], log[i].call.endpoint)
    ensures log[j].call.clock.now - log[i].call.clock.now >= log[j].call.minInterval.value
  {
    LastReadingIsLatest(base, log, i, j);
    JustifiedAt(base, log, j);
  }

  ghost predicate ClockRuns<V>(log: seq<Record<V>>) {
    forall k :: 0 <= k < |log| ==> log[k].call.clock.now <= log[k].call.clock.after
  }

  /** No `Retry-After` is so negative that the margin does not make up for it. */
  ghost predicate RetriesLater<V>(log: seq<Record<V>>) {
    forall k :: 0 <= k < |log| && log[k].call.outcome.RateLimited? && log[k].call.outcome.retryAfter.Some? ==>
      log[k].call.outcome.retryAfter.value + RETRY_MARGIN >= 0
  }

  /** The end of the pause never moves back. */
  lemma {:induction false} PauseMovesForward<V>(base: Held<V>, log: seq<Record<V>>, m: nat, n: nat)
    requires AllJustified(base, log) && ClockRuns(log) && RetriesLater(log) && m <= n <= |log|
    ensures PauseUntil(base, log[..m]) <= PauseUntil(base, log[..n])
    decreases n
  {
    if m == n {
    } else {
      PauseMovesForward(base, log, m, n - 1);
      JustifiedAt(base, log, n - 1);
      assert log[..n][..n - 1] == log[..n - 1] && log[..n][n - 1] == log[n - 1];
      assert log[n - 1].call.clock.now <= log[n - 1].call.clock.after;
    }
  }

  /** No dispatch starts before the end of a pause that an earlier dispatch was answered with. */
  lemma NoDispatchInsidePause<V>(base: Held<V>, log: seq<Record<V>>, i: nat, j: nat)
    requires AllJustified(base, log) && ClockRuns(log) && RetriesLater(log) && i < j < |log|
    requires log[i].dispatched && log[i].call.PauseEnd().Some? && log[j].dispatched
    ensures log[j].call.clock.now >= log[i].call.PauseEnd().value
  {
    assert log[..i + 1][i] == log[i];
    PauseMovesForward(base, log, i + 1, j);
    JustifiedAt(base, log, j);
  }

  /** Call `i` stored a value under `key`, and no later call did. */
  ghost predicate IsLatestStore<V>(log: seq<Record<V>>, i: nat, key: string) {
    i < |log| && StoresUnder(log[i], key) && forall k :: i < k < |log| ==> !StoresUnder(log[k], key)
  }

  ghost predicate NeverStored<V>(log: seq<Record<V>>, key: string) {
    forall k :: 0 <= k < |log| ==> !StoresUnder(log[k], key)
  }

  /** Where the last stored value of a key comes from: a call, or the cache before all calls. */
  lemma {:induction false} LastStoredMeans<V>(base: Held<V>, log: seq<Record<V>>, key: string)
    returns (origin: Option<nat>)
    requires LastStored(base, log, key).Some?
    ensures origin.Some? ==>
      IsLatestStore(log, origin.value, key) && LastStored(base, log, key) == Some(log[origin.value].call.outcome.value)
    ensures origin.None? ==>
      NeverStored(log, key) && key in base.store && LastStored(base, log, key) == Some(base.store[key].value)
  {
    if log == [] {
      origin := None;
    } else if StoresUnder(log[|log| - 1], key) {
      origin := Some(|log| - 1);
    } else {
      origin := LastStoredMeans(base, log[..|log| - 1], key);
    }
  }

  /** A refused call answers by default, with the value of the latest successful call with its key, or,
      when there was none, with the value that was in the cache before all calls. */
  lemma CachedAnswersAreLatest<V>(base: Held<V>, log: seq<Record<V>>, j: nat)
    requires AllJustified(base, log) && j < |log| && !log[j].dispatched
    ensures var key, reply := log[j].call.cacheKey, log[j].reply;
      || reply == Value(log[j].call.default)
      || (exists i: nat :: IsLatestStore(log[..j], i, key) && reply == Value(log[i].call.outcome.value))
      || (NeverStored(log[..j], key) && key in base.store && reply == Value(base.store[key].value))
  {
    JustifiedAt(base, log, j);
    if log[j].reply != Value(log[j].call.default) {
      var origin := LastStoredMeans(base, log[..j], log[j].call.cacheKey);
      if origin.Some? {
        assert IsLatestStore(log[..j], origin.value, log[j].call.cacheKey);
      }
    }
  }
}
