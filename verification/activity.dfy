/** The history of recently played contexts (src/core/activity_service.py). */
module Activity {
  import opened Wrappers
  import opened CacheStores

  const MAX_HISTORY: nat := 50
  const HISTORY_KEY := "recent_contexts"
  const TTL: real := 86400.0

  type Metadata = map<string, string>

  datatype Item = Item(uri: string, name: string, kind: string, timestamp: real, metadata: Metadata)

  /** A play; `None` and empty metadata are the same to the service. */
  datatype Play = Play(uri: string, name: string, kind: string, metadata: Metadata, at: real)

  type History = seq<Item>

  // ----- Names

  /** `str.lower` as far as a result in the letters a to z goes: besides the capital letters only
      the Kelvin sign is mapped to one. */
  function Lower(s: string): string {
    if s == [] then [] else
      [if 'A' <= s[0] <= 'Z' then s[0] - 'A' + 'a' else if s[0] == '\U{212A}' then 'k' else s[0]] + Lower(s[1..])
  }

  predicate IsPlaceholder(name: string) {
    ':' in name || Lower(name) in ["album", "playlist", "unknown context"]
  }

  // ----- What recording a play does to the history

  function Without(h: History, uri: string): (r: History)
    ensures |r| <= |h|
  {
    if h == [] then []
    else if h[0].uri == uri then Without(h[1..], uri)
    else [h[0]] + Without(h[1..], uri)
  }

  function Find(h: History, uri: string): Option<Item> {
    if h == [] then None else if h[0].uri == uri then Some(h[0]) else Find(h[1..], uri)
  }

  function Top(h: History, existing: Option<Item>, p: Play): Item {
    match existing
    case None => Item(p.uri, p.name, p.kind, p.at, p.metadata)
    case Some(prior) =>
      Item(p.uri,
           if IsPlaceholder(p.name) && !IsPlaceholder(prior.name) then prior.name else p.name,
           p.kind, p.at,
           if p.metadata != map[] then p.metadata else prior.metadata)
  }

  function Take<T>(s: seq<T>, n: nat): seq<T> {
    if |s| <= n then s else s[..n]
  }

  /** Move to front: the play goes on top, an older entry for the same context disappears. */
  function Moved(h: History, p: Play): History {
    [Top(h, Find(h, p.uri), p)] + Without(h, p.uri)
  }

  /** The stored history after a play; a play without a uri is ignored. */
  function Recorded(h: History, p: Play): History {
    if p.uri == "" then h else Take(Moved(h, p), MAX_HISTORY)
  }

  class ActivityService {
    const cache: CacheStore<History>

    constructor (cache: CacheStore<History>)
      ensures this.cache == cache
    {
      this.cache := cache;
    }

    /** The history in the cache, if it is still there at `now`. */
    function Retained(now: real): Option<History>
      reads cache
    {
      if HISTORY_KEY in cache.store && now <= cache.store[HISTORY_KEY].expiresAt
      then cache.store[HISTORY_KEY].value else None
    }

    method GetRecentContexts(now: real) returns (h: History)
      requires cache.Valid()
      modifies cache
      ensures cache.Valid()
      ensures h == if old(Retained(now)).Some? then old(Retained(now)).value else []
      ensures cache.store == AfterLookup(old(cache.store), HISTORY_KEY, now)
    {
      var cached := cache.Get(HISTORY_KEY, false, now);
      return if cached.Some? then cached.value else [];
    }

    /** `record_context_play`: the stored history is the recorded one, starting over when the old one
        is no longer in the cache. Other entries are only lost to expiry and to the size limit. */
    method RecordContextPlay(p: Play, now: real, evictAt: real, storeAt: real)
      requires cache.Valid()
      modifies cache
      ensures cache.Valid()
      ensures p.uri == "" ==> cache.store == old(cache.store)
      ensures p.uri != "" ==>
        var before := if old(Retained(now)).Some? then old(Retained(now)).value else [];
        && AfterSet(AfterLookup(old(cache.store), HISTORY_KEY, now), cache.store, cache.maxSize,
                    HISTORY_KEY, Entry(Some(Recorded(before, p)), storeAt + TTL), evictAt)
        && HISTORY_KEY in cache.store
        && cache.store[HISTORY_KEY] == Entry(Some(Recorded(before, p)), storeAt + TTL)
    {
      if p.uri == "" {
        return;
      }
      var history := GetRecentContexts(now);
      var existing := Find(history, p.uri);
      NotFound(history, p.uri);
      var name := p.name;
      var metadata := p.metadata;
      if existing.Some? {
        var isNewNamePlaceholder := IsPlaceholder(name);
        var isOldNameBetter := !IsPlaceholder(existing.value.name);
        if isNewNamePlaceholder && isOldNameBetter {
          name := existing.value.name;
        }
        if metadata == map[] {
          metadata := existing.value.metadata;
        }
        history := Without(history, p.uri);
      }
      history := [Item(p.uri, name, p.kind, p.at, metadata)] + history;
      history := Take(history, MAX_HISTORY);
      ghost var looked := cache.store;
      cache.Set(HISTORY_KEY, Some(history), TTL, evictAt, storeAt);
      AfterSetEntries(looked, cache.store, cache.maxSize, HISTORY_KEY, Entry(Some(history), storeAt + TTL), evictAt);
    }
  }

  lemma {:induction false} NotFound(h: History, uri: string)
    ensures Find(h, uri).None? ==> Without(h, uri) == h
  {
    if h == [] {
    } else {
      NotFound(h[1..], uri);
    }
  }

  // ----- The order of the history

  function Uris(h: History): (us: seq<string>)
    ensures |us| == |h|
  {
    if h == [] then [] else [h[0].uri] + Uris(h[1..])
  }

  function Less(us: seq<string>, u: string): seq<string> {
    if us == [] then [] else if us[0] == u then Less(us[1..], u) else [us[0]] + Less(us[1..], u)
  }

  /** The distinct uris of a play log, the most recently played first. */
  function RecentUris(plays: seq<Play>): seq<string> {
    if plays == [] then [] else
      var front, last := plays[..|plays| - 1], plays[|plays| - 1];
      if last.uri == "" then RecentUris(front) else [last.uri] + Less(RecentUris(front), last.uri)
  }

  /** The history after a log of plays during which the cache never lost it. */
  function Replay(h: History, plays: seq<Play>): History {
    if plays == [] then h else Recorded(Replay(h, plays[..|plays| - 1]), plays[|plays| - 1])
  }

  ghost predicate NoDuplicates(us: seq<string>) {
    forall i, j :: 0 <= i < j < |us| ==> us[i] != us[j]
  }

  lemma {:induction false} LessMembers(us: seq<string>, u: string)
    ensures forall v :: v in Less(us, u) <==> v in us && v != u
    ensures NoDuplicates(us) ==> NoDuplicates(Less(us, u))
    ensures u !in us ==> Less(us, u) == us
  {
    if us == [] {
    } else {
      LessMembers(us[1..], u);
      assert us == [us[0]] + us[1..];
      if NoDuplicates(us) {
        assert us[0] !in us[1..];
      }
    }
  }

  lemma {:induction false} UrisWithout(h: History, u: string)
    ensures Uris(Without(h, u)) == Less(Uris(h), u)
  {
    if h == [] {
    } else {
      UrisWithout(h[1..], u);
    }
  }

  lemma {:induction false} UrisTake(h: History, n: nat)
    ensures Uris(Take(h, n)) == Take(Uris(h), n)
  {
    if h == [] || n == 0 {
    } else {
      UrisTake(h[1..], n - 1);
      assert h == [h[0]] + h[1..];
      TakeCons(h[0], h[1..], n);
    }
  }

  /** Dropping entries beyond the limit before moving one to the front makes no difference. */
  lemma {:induction false} TruncateEarly(us: seq<string>, u: string, n: nat)
    requires NoDuplicates(us) && 0 < n
    ensures Take(Less(Take(us, n), u), n - 1) == Take(Less(us, u), n - 1)
  {
    if us == [] {
    } else {
      var t := us[1..];
      assert us == [us[0]] + t && NoDuplicates(t);
      TakeCons(us[0], t, n);
      if us[0] == u {
        NotIn(us);
        LessMembers(t, u);
        LessMembers(Take(t, n - 1), u);
      } else if n > 1 {
        TruncateEarly(t, u, n - 1);
        TakeCons(us[0], Less(t, u), n - 1);
        TakeCons(us[0], Less(Take(t, n - 1), u), n - 1);
      }
    }
  }

  lemma NotIn(us: seq<string>)
    requires us != [] && NoDuplicates(us)
    ensures us[0] !in us[1..]
  {
  }

  lemma RecordedUris(h: History, p: Play, us: seq<string>)
    requires p.uri != "" && NoDuplicates(us) && Uris(h) == Take(us, MAX_HISTORY)
    ensures Uris(Recorded(h, p)) == Take([p.uri] + Less(us, p.uri), MAX_HISTORY)
  {
    UrisTake(Moved(h, p), MAX_HISTORY);
    UrisWithout(h, p.uri);
    assert Moved(h, p)[1..] == Without(h, p.uri);
    TruncateEarly(us, p.uri, MAX_HISTORY);
    TakeCons(p.uri, Less(Take(us, MAX_HISTORY), p.uri), MAX_HISTORY);
    TakeCons(p.uri, Less(us, p.uri), MAX_HISTORY);
  }

  lemma TakeCons<T>(u: T, us: seq<T>, n: nat)
    requires 0 < n
    ensures Take([u] + us, n) == [u] + Take(us, n - 1)
  {
  }

  /** The stored history lists the first 50 distinct uris by most recent play, without duplicates,
      although older entries were cut off along the way. */
  lemma {:induction false} HistoryIsMostRecent(plays: seq<Play>)
    ensures Uris(Replay([], plays)) == Take(RecentUris(plays), MAX_HISTORY)
    ensures NoDuplicates(RecentUris(plays))
  {
    if plays == [] {
    } else {
      var front, last := plays[..|plays| - 1], plays[|plays| - 1];
      HistoryIsMostRecent(front);
      LessMembers(RecentUris(front), last.uri);
      if last.uri != "" {
        RecordedUris(Replay([], front), last, RecentUris(front));
      }
    }
  }

  /** The index of the last play of `u`, or -1. */
  function LastPlay(plays: seq<Play>, u: string): int {
    if plays == [] then -1
    else if plays[|plays| - 1].uri == u then |plays| - 1
    else LastPlay(plays[..|plays| - 1], u)
  }

  lemma {:induction false} LastPlayBelow(plays: seq<Play>, u: string)
    ensures LastPlay(plays, u) < |plays|
  {
    if plays == [] {
    } else {
      LastPlayBelow(plays[..|plays| - 1], u);
    }
  }

  ghost predicate ByRecency(us: seq<string>, plays: seq<Play>) {
    forall i, j :: 0 <= i < j < |us| ==> LastPlay(plays, us[i]) > LastPlay(plays, us[j])
  }

  lemma {:induction false} LessInOrder(us: seq<string>, u: string, plays: seq<Play>)
    requires ByRecency(us, plays)
    ensures ByRecency(Less(us, u), plays)
  {
    if us == [] {
    } else {
      assert ByRecency(us[1..], plays);
      LessInOrder(us[1..], u, plays);
      LessMembers(us[1..], u);
      forall v | v in us[1..] ensures LastPlay(plays, us[0]) > LastPlay(plays, v) {
        var i :| 0 <= i < |us[1..]| && us[1..][i] == v;
        assert us[i + 1] == v;
      }
    }
  }

  lemma {:induction false} RecentUrisMembers(plays: seq<Play>, u: string)
    ensures u in RecentUris(plays) <==> u != "" && LastPlay(plays, u) >= 0
  {
    if plays == [] {
    } else {
      var front := plays[..|plays| - 1];
      RecentUrisMembers(front, u);
      LessMembers(RecentUris(front), plays[|plays| - 1].uri);
    }
  }

  /** One more play: it was last, and the order of the others does not change. */
  lemma MoreRecent(us: seq<string>, plays: seq<Play>)
    requires plays != [] && ByRecency(us, plays[..|plays| - 1]) && plays[|plays| - 1].uri !in us
    ensures ByRecency(us, plays) && ByRecency([plays[|plays| - 1].uri] + us, plays)
  {
    forall i | 0 <= i < |us| ensures LastPlay(plays, us[i]) < |plays| - 1 {
      LastPlayBelow(plays[..|plays| - 1], us[i]);
    }
  }

  /** What `RecentUris` lists: every uri that was played, ordered by its last play. */
  lemma {:induction false} RecentUrisMeans(plays: seq<Play>)
    ensures forall u :: u in RecentUris(plays) <==> u != "" && LastPlay(plays, u) >= 0
    ensures ByRecency(RecentUris(plays), plays)
  {
    forall u ensures u in RecentUris(plays) <==> u != "" && LastPlay(plays, u) >= 0 {
      RecentUrisMembers(plays, u);
    }
    if plays == [] {
    } else {
      var front, last := plays[..|plays| - 1], plays[|plays| - 1];
      RecentUrisMeans(front);
      LessMembers(RecentUris(front), last.uri);
      if last.uri == "" {
        MoreRecent(RecentUris(front), plays);
      } else {
        LessInOrder(RecentUris(front), last.uri, front);
        MoreRecent(Less(RecentUris(front), last.uri), plays);
      }
    }
  }

  // ----- Names and metadata survive

  lemma {:induction false} FindWithout(h: History, u: string, v: string)
    requires u != v
    ensures Find(Without(h, u), v) == Find(h, v)
  {
    if h == [] {
    } else {
      FindWithout(h[1..], u, v);
    }
  }

  lemma {:induction false} FindTake(h: History, n: nat, v: string)
    requires Find(Take(h, n), v).Some?
    ensures Find(Take(h, n), v) == Find(h, v)
  {
    assert h != [] && n > 0;
    assert h == [h[0]] + h[1..];
    TakeCons(h[0], h[1..], n);
    if h[0].uri == v {
    } else {
      FindTake(h[1..], n - 1, v);
    }
  }

  /** The play is on top with its own type and time; entries for other contexts that stay are untouched. */
  lemma PlayIsOnTop(h: History, p: Play, v: string)
    requires p.uri != ""
    ensures var r := Recorded(h, p);
      && r != [] && r[0].uri == p.uri && r[0].kind == p.kind && r[0].timestamp == p.at
      && (r[0].name == p.name || (IsPlaceholder(p.name) && !IsPlaceholder(r[0].name)))
      && (p.metadata != map[] ==> r[0].metadata == p.metadata)
      && (v != p.uri && Find(r, v).Some? ==> Find(r, v) == Find(h, v))
  {
    if v != p.uri && Find(Recorded(h, p), v).Some? {
      FindTake(Moved(h, p), MAX_HISTORY, v);
      assert Moved(h, p)[1..] == Without(h, p.uri);
      FindWithout(h, p.uri, v);
    }
  }

  ghost predicate NoWorse(prior: Item, later: Item) {
    && (!IsPlaceholder(prior.name) ==> !IsPlaceholder(later.name))
    && (prior.metadata != map[] ==> later.metadata != map[])
  }

  lemma RecordedIsNoWorse(h: History, p: Play, u: string)
    requires Find(h, u).Some? && Find(Recorded(h, p), u).Some?
    ensures NoWorse(Find(h, u).value, Find(Recorded(h, p), u).value)
  {
    if p.uri != "" {
      FindTake(Moved(h, p), MAX_HISTORY, u);
      assert Moved(h, p)[1..] == Without(h, p.uri);
      if u != p.uri {
        FindWithout(h, p.uri, u);
      }
    }
  }

  /** The context is in the history before and after each of the plays. */
  ghost predicate Stays(h: History, plays: seq<Play>, u: string) {
    && Find(Replay(h, plays), u).Some?
    && (plays != [] ==> Stays(h, plays[..|plays| - 1], u))
  }

  /** As long as a context stays in the history, it keeps a real name once it has one, and
      metadata once it has any. */
  lemma {:induction false} StayingIsNoWorse(h: History, plays: seq<Play>, u: string)
    requires Stays(h, plays, u)
    ensures Find(h, u).Some? && NoWorse(Find(h, u).value, Find(Replay(h, plays), u).value)
  {
    if plays == [] {
    } else {
      var front := plays[..|plays| - 1];
      StayingIsNoWorse(h, front, u);
      RecordedIsNoWorse(Replay(h, front), plays[|plays| - 1], u);
    }
  }

  // ----- A log of plays against the real cache

  datatype TimedPlay = TimedPlay(play: Play, now: real, evictAt: real, storeAt: real)

  function Plays(log: seq<TimedPlay>): (plays: seq<Play>)
    ensures |plays| == |log|
  {
    seq(|log|, i requires 0 <= i < |log| => log[i].play)
  }

  /** When the history was last stored. */
  function LastStoreAt(log: seq<TimedPlay>): Option<real> {
    if log == [] then None
    else if log[|log| - 1].play.uri != "" then Some(log[|log| - 1].storeAt)
    else LastStoreAt(log[..|log| - 1])
  }

  /** No play comes later than the time to live after the last one that was stored. */
  ghost predicate KeptAlive(log: seq<TimedPlay>) {
    forall i :: 0 <= i < |log| && LastStoreAt(log[..i]).Some? ==> log[i].now <= LastStoreAt(log[..i]).value + TTL
  }

  /** What the cache holds after a log that it never lost. */
  ghost predicate Holds(store: Store<History>, log: seq<TimedPlay>) {
    if LastStoreAt(log).None? then HISTORY_KEY !in store && Replay([], Plays(log)) == []
    else
      && HISTORY_KEY in store
      && store[HISTORY_KEY] == Entry(Some(Replay([], Plays(log))), LastStoreAt(log).value + TTL)
  }

  method RecordAll(service: ActivityService, log: seq<TimedPlay>)
    requires service.cache.Valid() && HISTORY_KEY !in service.cache.store && KeptAlive(log)
    modifies service.cache
    ensures service.cache.Valid() && Holds(service.cache.store, log)
    ensures LastStoreAt(log).Some? ==>
      && service.cache.store[HISTORY_KEY].value.Some?
      && Uris(service.cache.store[HISTORY_KEY].value.value) == Take(RecentUris(Plays(log)), MAX_HISTORY)
  {
    for i := 0 to |log|
      invariant service.cache.Valid() && Holds(service.cache.store, log[..i])
    {
      assert log[..i + 1][..i] == log[..i];
      assert Plays(log[..i + 1])[..i] == Plays(log[..i]);
      var t := log[i];
      service.RecordContextPlay(t.play, t.now, t.evictAt, t.storeAt);
    }
    assert log[..|log|] == log;
    HistoryIsMostRecent(Plays(log));
  }
}
