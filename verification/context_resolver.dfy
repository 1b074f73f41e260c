/** The queue of contexts to resolve (connect/src/context_resolver.rs) and the handler that serves
    it (connect/src/spirc.rs). Instants are milliseconds of a monotonic clock. */
module ContextResolvers {
  import opened Wrappers

  const RETRY_UNAVAILABLE: nat := 3600 * 1000
  const SEARCH_IDENTIFIER := "spotify:search"

  datatype ContextType = Default | Autoplay

  datatype ContextAction = Append | Replace

  /** The parts of a context that resolving looks at: its uri and the track uris of its pages. */
  datatype Context = Context(uri: Option<string>, pages: seq<seq<Option<string>>>)

  datatype Resolve = Uri(uri: string) | Full(context: Context)

  datatype ResolveContext = ResolveContext(
    resolve: Resolve,
    fallback: Option<string>,
    update: ContextType,
    action: ContextAction)
  {
    static function AppendContext(uri: string): ResolveContext {
      ResolveContext(Uri(uri), None, Default, Append)
    }

    static function FromUri(uri: string, fallback: string, update: ContextType, action: ContextAction): ResolveContext {
      ResolveContext(Uri(uri), if fallback == "" then None else Some(fallback), update, action)
    }

    /** The uri to resolve the context with, if there is a usable one. */
    function ResolveUri(): Option<string> {
      var own := match resolve
        case Uri(uri) => ValidResolveUri(uri)
        case Full(ctx) => FindValidUri(ctx.uri, ctx.pages);
      if own.Some? then own else fallback
    }
  }

  function ValidResolveUri(uri: string): Option<string> {
    if uri == "" || SEARCH_IDENTIFIER <= uri then None else Some(uri)
  }

  function FindValidUri(uri: Option<string>, pages: seq<seq<Option<string>>>): Option<string> {
    var own := if uri.Some? then ValidResolveUri(uri.value) else None;
    if own.Some? then own
    else if pages != [] && pages[0] != [] then pages[0][0]
    else None
  }

  type Queue = seq<ResolveContext>

  /** The index of the first entry with a usable uri, or the length of the queue. */
  function FirstValid(queue: Queue, from: nat): (i: nat)
    requires from <= |queue|
    ensures from <= i <= |queue|
    ensures i < |queue| ==> queue[i].ResolveUri().Some?
    ensures forall k :: from <= k < i ==> queue[k].ResolveUri().None?
    decreases |queue| - from
  {
    if from == |queue| || queue[from].ResolveUri().Some? then from else FirstValid(queue, from + 1)
  }

  datatype State = State(queue: Queue, unavailable: map<ResolveContext, int>)

  /** What came back for the next context: a failure, or a context together with what applying it
      left to append, the active context then, and the autoplay request made on finishing. */
  datatype Outcome =
    | Failed
    | Fetched(remaining: Option<seq<string>>, active: ContextType, topUp: Option<ResolveContext>)

  function Elapsed(since: int, now: int): nat {
    if now < since then 0 else now - since
  }

  /** Marked unavailable, and not longer ago than the retry time. */
  predicate Blocked(st: State, r: ResolveContext, now: int) {
    r in st.unavailable && Elapsed(st.unavailable[r], now) <= RETRY_UNAVAILABLE
  }

  function Added(st: State, r: ResolveContext, now: int): State {
    if Blocked(st, r, now) then st
    else State(if r in st.queue then st.queue else st.queue + [r], st.unavailable - {r})
  }

  function AddedAll(st: State, rs: seq<ResolveContext>, now: int): State {
    if rs == [] then st else Added(AddedAll(st, rs[..|rs| - 1], now), rs[|rs| - 1], now)
  }

  /** Drops the invalid entries up to the next valid one and that one; the first entry if none is valid. */
  function Dropped(queue: Queue): nat {
    var next := FirstValid(queue, 0);
    if next < |queue| then next + 1 else if queue == [] then 0 else 1
  }

  function Removed(st: State): State {
    st.(queue := st.queue[Dropped(st.queue)..])
  }

  function Marked(st: State, now: int): State {
    var next := FirstValid(st.queue, 0);
    if next < |st.queue| then st.(unavailable := st.unavailable[st.queue[next] := now]) else st
  }

  function CountOf(queue: Queue, update: ContextType): nat {
    if queue == [] then 0
    else CountOf(queue[..|queue| - 1], update) + if queue[|queue| - 1].update == update then 1 else 0
  }

  predicate Finishes(queue: Queue, active: ContextType) {
    var next := FirstValid(queue, 0);
    && next < |queue|
    && CountOf(queue, queue[next].update) == 1
    && (queue[next].update == Autoplay || active == Default)
  }

  class ContextResolver {
    var queue: Queue
    var unavailableContexts: map<ResolveContext, int>

    ghost function View(): State
      reads this
    {
      State(queue, unavailableContexts)
    }

    constructor ()
      ensures View() == State([], map[])
    {
      queue, unavailableContexts := [], map[];
    }

    method Add(r: ResolveContext, now: int)
      modifies this
      ensures View() == Added(old(View()), r, now)
    {
      var lastTry := None;
      if r in unavailableContexts {
        lastTry := Some(Elapsed(unavailableContexts[r], now));
      }
      if lastTry.Some? && lastTry.value > RETRY_UNAVAILABLE {
        unavailableContexts := unavailableContexts - {r};
        lastTry := None;
      }
      if lastTry.Some? {
        return;
      }
      assert unavailableContexts == old(unavailableContexts) - {r};
      if r in queue {
        return;
      }
      queue := queue + [r];
    }

    method AddList(rs: seq<ResolveContext>, now: int)
      modifies this
      ensures View() == AddedAll(old(View()), rs, now)
    {
      for i := 0 to |rs|
        invariant View() == AddedAll(old(View()), rs[..i], now)
      {
        assert rs[..i + 1][..i] == rs[..i];
        Add(rs[i], now);
      }
      assert rs[..|rs|] == rs;
    }

    method FindNext() returns (next: Option<nat>)
      ensures next == if FirstValid(queue, 0) < |queue| then Some(FirstValid(queue, 0)) else None
    {
      for idx := 0 to |queue|
        invariant FirstValid(queue, 0) == FirstValid(queue, idx)
      {
        if queue[idx].ResolveUri().Some? {
          return Some(idx);
        }
      }
      return None;
    }

    method RemoveUsedAndInvalid()
      modifies this
      ensures View() == Removed(old(View()))
    {
      var next := FindNext();
      if next.Some? {
        queue := queue[next.value..];
      }
      if queue != [] {
        queue := queue[1..];
      }
    }

    method Clear()
      modifies this
      ensures View() == old(View()).(queue := [])
    {
      queue := [];
    }

    method MarkNextUnavailable(now: int)
      modifies this
      ensures View() == Marked(old(View()), now)
    {
      var next := FindNext();
      if next.Some? {
        unavailableContexts := unavailableContexts[queue[next.value] := now];
      }
    }

    /** The tests of `try_finish` that decide whether the state is set up. */
    method TryFinish(active: ContextType) returns (finished: bool)
      ensures finished == Finishes(queue, active)
    {
      var next := FindNext();
      if next.None? {
        return false;
      }
      var update := queue[next.value].update;
      var count := 0;
      for i := 0 to |queue|
        invariant count == CountOf(queue[..i], update)
      {
        assert queue[..i + 1][..i] == queue[..i];
        if queue[i].update == update {
          count := count + 1;
        }
      }
      assert queue[..|queue|] == queue;
      if count != 1 {
        return false;
      }
      match (update, active)
      case (Default, Default) => return true;
      case (Autoplay, _) => return true;
      case (Default, _) => return false;
    }

    /** `SpircTask::handle_next_context`. */
    method HandleNextContext(outcome: Outcome, now: int) returns (finished: bool)
      requires outcome.Fetched? ==> FirstValid(queue, 0) < |queue|
      modifies this
      ensures View() == Handled(old(View()), outcome, now)
      ensures finished == HandledFinishes(old(View()), outcome, now)
    {
      if outcome.Failed? {
        MarkNextUnavailable(now);
        RemoveUsedAndInvalid();
        return false;
      }
      if outcome.remaining.Some? {
        AddList(AppendContexts(outcome.remaining.value), now);
      }
      finished := TryFinish(outcome.active);
      if finished && outcome.topUp.Some? {
        Add(outcome.topUp.value, now);
      }
      RemoveUsedAndInvalid();
    }
  }

  function AppendContexts(uris: seq<string>): (rs: seq<ResolveContext>)
    ensures |rs| == |uris|
  {
    seq(|uris|, i requires 0 <= i < |uris| => ResolveContext.AppendContext(uris[i]))
  }

  function WithRemaining(st: State, outcome: Outcome, now: int): State
    requires outcome.Fetched?
  {
    if outcome.remaining.Some? then AddedAll(st, AppendContexts(outcome.remaining.value), now) else st
  }

  predicate HandledFinishes(st: State, outcome: Outcome, now: int) {
    outcome.Fetched? && Finishes(WithRemaining(st, outcome, now).queue, outcome.active)
  }

  /** The state just before the handler drops what it used. */
  function BeforeDrop(st: State, outcome: Outcome, now: int): State {
    if outcome.Failed? then Marked(st, now) else
      var more := WithRemaining(st, outcome, now);
      if Finishes(more.queue, outcome.active) && outcome.topUp.Some?
      then Added(more, outcome.topUp.value, now)
      else more
  }

  function Handled(st: State, outcome: Outcome, now: int): State {
    Removed(BeforeDrop(st, outcome, now))
  }
}
