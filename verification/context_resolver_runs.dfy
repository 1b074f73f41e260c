/** What every run of the context resolver keeps (connect/src/context_resolver.rs,
    connect/src/spirc.rs). */
module ContextResolverRuns {
  import opened Wrappers
  import opened ContextResolvers

  ghost predicate NoDuplicates(queue: Queue) {
    forall i, j :: 0 <= i < j < |queue| ==> queue[i] != queue[j]
  }

  /** No entry is queued twice, and none that is marked unavailable is queued. */
  ghost predicate Valid(st: State) {
    && NoDuplicates(st.queue)
    && (forall r :: r in st.queue ==> r !in st.unavailable)
  }

  lemma AddedKeepsValid(st: State, r: ResolveContext, now: int)
    requires Valid(st)
    ensures Valid(Added(st, r, now)) && st.queue <= Added(st, r, now).queue
  {
  }

  /** A context is admitted unless it failed within the retry time; being admitted twice changes nothing. */
  lemma AddedExactly(st: State, r: ResolveContext, now: int)
    requires Valid(st)
    ensures r in Added(st, r, now).queue <==> r in st.queue || !Blocked(st, r, now)
    ensures Added(Added(st, r, now), r, now) == Added(st, r, now)
    ensures r !in st.queue && !Blocked(st, r, now) ==> Added(st, r, now).queue == st.queue + [r]
  {
  }

  lemma {:induction false} AddedAllKeepsValid(st: State, rs: seq<ResolveContext>, now: int)
    requires Valid(st)
    ensures Valid(AddedAll(st, rs, now)) && st.queue <= AddedAll(st, rs, now).queue
    decreases |rs|
  {
    if rs == [] {
    } else {
      AddedAllKeepsValid(st, rs[..|rs| - 1], now);
      AddedKeepsValid(AddedAll(st, rs[..|rs| - 1], now), rs[|rs| - 1], now);
    }
  }

  lemma WithRemainingKeepsValid(st: State, outcome: Outcome, now: int)
    requires Valid(st) && outcome.Fetched?
    ensures Valid(WithRemaining(st, outcome, now)) && st.queue <= WithRemaining(st, outcome, now).queue
  {
    if outcome.remaining.Some? {
      AddedAllKeepsValid(st, AppendContexts(outcome.remaining.value), now);
    }
  }

  lemma {:induction false} FirstValidOfPrefix(a: Queue, b: Queue, from: nat)
    requires a <= b && from <= |a| && FirstValid(a, from) < |a|
    ensures FirstValid(b, from) == FirstValid(a, from)
    decreases |a| - from
  {
    if from == |a| || a[from].ResolveUri().Some? {
    } else {
      FirstValidOfPrefix(a, b, from + 1);
    }
  }

  lemma RemovedKeepsValid(st: State)
    requires Valid(st)
    ensures Valid(Removed(st))
  {
  }

  lemma RestWithout(queue: Queue, n: nat)
    requires NoDuplicates(queue) && n < |queue|
    ensures NoDuplicates(queue[n + 1..]) && queue[n] !in queue[n + 1..]
    ensures forall r :: r in queue[n + 1..] ==> r in queue
  {
    forall r | r in queue[n + 1..] ensures r in queue && r != queue[n] {
      var i :| 0 <= i < |queue[n + 1..]| && queue[n + 1..][i] == r;
      assert queue[n + 1 + i] == r;
    }
  }

  /** The entry that failed leaves the queue in the same step that marks it. */
  lemma FailureKeepsValid(st: State, now: int)
    requires Valid(st)
    ensures Valid(Removed(Marked(st, now)))
  {
    var next := FirstValid(st.queue, 0);
    if next < |st.queue| {
      RestWithout(st.queue, next);
    }
  }

  lemma HandledKeepsValid(st: State, outcome: Outcome, now: int)
    requires Valid(st)
    ensures Valid(Handled(st, outcome, now))
    ensures st.queue <= BeforeDrop(st, outcome, now).queue
  {
    if outcome.Failed? {
      FailureKeepsValid(st, now);
    } else {
      var more := WithRemaining(st, outcome, now);
      WithRemainingKeepsValid(st, outcome, now);
      if outcome.topUp.Some? {
        AddedKeepsValid(more, outcome.topUp.value, now);
      }
      RemovedKeepsValid(BeforeDrop(st, outcome, now));
    }
  }

  // ----- Runs

  datatype Op =
    | Add(r: ResolveContext)
    | AddList(rs: seq<ResolveContext>)
    | Handle(outcome: Outcome)
    | Clear

  datatype Timed = Timed(op: Op, now: int)

  function Step(st: State, op: Op, now: int): State {
    match op
    case Add(r) => Added(st, r, now)
    case AddList(rs) => AddedAll(st, rs, now)
    case Handle(outcome) => Handled(st, outcome, now)
    case Clear => st.(queue := [])
  }

  /** A context can only come back for an entry that was there to be resolved. */
  predicate Allowed(st: State, op: Op) {
    op.Handle? && op.outcome.Fetched? ==> FirstValid(st.queue, 0) < |st.queue|
  }

  lemma StepKeepsValid(st: State, op: Op, now: int)
    requires Valid(st)
    ensures Valid(Step(st, op, now))
  {
    match op
    case Add(r) => AddedKeepsValid(st, r, now);
    case AddList(rs) => AddedAllKeepsValid(st, rs, now);
    case Handle(outcome) => HandledKeepsValid(st, outcome, now);
    case Clear =>
  }

  /** The entry that is resolved next, if there is one. */
  function Served(queue: Queue): Queue {
    var next := FirstValid(queue, 0);
    if next < |queue| then [queue[next]] else []
  }

  /** The resolver with what happened since the queue was last cleared: the entries accepted, those
      that have left, and those that were served. */
  datatype Log = Log(st: State, accepted: Queue, gone: Queue, served: Queue)

  function Logged(log: Log, op: Op, now: int): Log {
    var st := log.st;
    match op
    case Handle(outcome) =>
      var before := BeforeDrop(st, outcome, now).queue;
      Log(Step(st, op, now),
          if st.queue <= before then log.accepted + before[|st.queue|..] else [],
          log.gone + before[..Dropped(before)],
          log.served + Served(st.queue))
    case Clear => Log(Step(st, op, now), [], [], [])
    case _ =>
      var after := Step(st, op, now);
      log.(st := after, accepted := if st.queue <= after.queue then log.accepted + after.queue[|st.queue|..] else [])
  }

  function Run(log: Log, ops: seq<Timed>): Log {
    if ops == [] then log else
      var last := ops[|ops| - 1];
      Logged(Run(log, ops[..|ops| - 1]), last.op, last.now)
  }

  ghost predicate RunAllowed(log: Log, ops: seq<Timed>) {
    ops != [] ==>
      var front := ops[..|ops| - 1];
      RunAllowed(log, front) && Allowed(Run(log, front).st, ops[|ops| - 1].op)
  }

  function Usable(queue: Queue): Queue {
    if queue == [] then [] else
      Usable(queue[..|queue| - 1]) + if queue[|queue| - 1].ResolveUri().Some? then [queue[|queue| - 1]] else []
  }

  lemma {:induction false} UsableConcat(a: Queue, b: Queue)
    ensures Usable(a + b) == Usable(a) + Usable(b)
    decreases |b|
  {
    if b == [] {
      assert a + b == a;
    } else {
      UsableConcat(a, b[..|b| - 1]);
      assert (a + b)[..|a + b| - 1] == a + b[..|b| - 1];
    }
  }

  lemma {:induction false} NoneUsable(queue: Queue, n: nat)
    requires n <= FirstValid(queue, 0)
    ensures Usable(queue[..n]) == []
    decreases n
  {
    if n == 0 {
    } else {
      NoneUsable(queue, n - 1);
      TakeOne(queue, n - 1);
      assert Usable(queue[..n]) == Usable(queue[..n - 1]);
    }
  }

  lemma TakeOne(queue: Queue, n: nat)
    requires n < |queue|
    ensures queue[..n + 1][..n] == queue[..n] && queue[..n + 1][n] == queue[n]
  {
  }

  lemma UsableDropped(queue: Queue)
    ensures Usable(queue[..Dropped(queue)]) == Served(queue)
  {
    var next := FirstValid(queue, 0);
    if next < |queue| {
      NoneUsable(queue, next);
      TakeOne(queue, next);
    } else {
      NoneUsable(queue, Dropped(queue));
    }
  }

  /** Entries leave in the order in which they were accepted, and the ones that were served are
      exactly the usable ones among those that have left. */
  ghost predicate InOrder(log: Log) {
    && log.accepted == log.gone + log.st.queue
    && log.served == Usable(log.gone)
  }

  lemma GrownInOrder(log: Log, after: State)
    requires InOrder(log) && log.st.queue <= after.queue
    ensures InOrder(log.(st := after, accepted := log.accepted + after.queue[|log.st.queue|..]))
  {
  }

  lemma LeavesInOrder(accepted: Queue, gone: Queue, queue: Queue, before: Queue, n: nat)
    requires accepted == gone + queue && queue <= before && n <= |before|
    ensures accepted + before[|queue|..] == gone + before[..n] + before[n..]
  {
  }

  /** Growing the queue does not change which entry is next, if there was one. */
  lemma ServedStays(st: State, outcome: Outcome, now: int)
    requires Valid(st) && Allowed(st, Handle(outcome))
    ensures Served(BeforeDrop(st, outcome, now).queue) == Served(st.queue)
  {
    HandledKeepsValid(st, outcome, now);
    if outcome.Fetched? {
      FirstValidOfPrefix(st.queue, BeforeDrop(st, outcome, now).queue, 0);
    }
  }

  lemma HandledInOrder(log: Log, outcome: Outcome, now: int)
    requires Valid(log.st) && InOrder(log) && Allowed(log.st, Handle(outcome))
    ensures InOrder(Logged(log, Handle(outcome), now))
  {
    var before := BeforeDrop(log.st, outcome, now).queue;
    var n := Dropped(before);
    HandledKeepsValid(log.st, outcome, now);
    ServedStays(log.st, outcome, now);
    LeavesInOrder(log.accepted, log.gone, log.st.queue, before, n);
    UsableConcat(log.gone, before[..n]);
    UsableDropped(before);
  }

  lemma LoggedKeepsOrder(log: Log, op: Op, now: int)
    requires Valid(log.st) && InOrder(log) && Allowed(log.st, op)
    ensures InOrder(Logged(log, op, now))
  {
    match op
    case Add(r) =>
      AddedKeepsValid(log.st, r, now);
      GrownInOrder(log, Added(log.st, r, now));
    case AddList(rs) =>
      AddedAllKeepsValid(log.st, rs, now);
      GrownInOrder(log, AddedAll(log.st, rs, now));
    case Handle(outcome) => HandledInOrder(log, outcome, now);
    case Clear =>
  }

  /** In every run the queue has no duplicates, holds nothing marked unavailable, and is served
      first in, first out past invalid entries. */
  lemma {:induction false} RunsServeInOrder(log: Log, ops: seq<Timed>)
    requires Valid(log.st) && InOrder(log) && RunAllowed(log, ops)
    ensures Valid(Run(log, ops).st) && InOrder(Run(log, ops))
  {
    if ops == [] {
    } else {
      var front, last := ops[..|ops| - 1], ops[|ops| - 1];
      RunsServeInOrder(log, front);
      StepKeepsValid(Run(log, front).st, last.op, last.now);
      LoggedKeepsOrder(Run(log, front), last.op, last.now);
    }
  }

  // ----- An unavailable context stays out for the retry time

  ghost predicate MarkedAt(st: State, r: ResolveContext, since: int) {
    r in st.unavailable && st.unavailable[r] == since && r !in st.queue
  }

  lemma AddedKeepsMark(st: State, x: ResolveContext, now: int, r: ResolveContext, since: int)
    requires MarkedAt(st, r, since) && now <= since + RETRY_UNAVAILABLE
    ensures MarkedAt(Added(st, x, now), r, since)
  {
  }

  lemma {:induction false} AddedAllKeepsMark(st: State, rs: seq<ResolveContext>, now: int,
                                             r: ResolveContext, since: int)
    requires MarkedAt(st, r, since) && now <= since + RETRY_UNAVAILABLE
    ensures MarkedAt(AddedAll(st, rs, now), r, since)
    decreases |rs|
  {
    if rs == [] {
    } else {
      AddedAllKeepsMark(st, rs[..|rs| - 1], now, r, since);
      AddedKeepsMark(AddedAll(st, rs[..|rs| - 1], now), rs[|rs| - 1], now, r, since);
    }
  }

  lemma BeforeDropKeepsMark(st: State, outcome: Outcome, now: int, r: ResolveContext, since: int)
    requires MarkedAt(st, r, since) && now <= since + RETRY_UNAVAILABLE
    ensures MarkedAt(BeforeDrop(st, outcome, now), r, since)
  {
    if outcome.Fetched? {
      var more := WithRemaining(st, outcome, now);
      if outcome.remaining.Some? {
        AddedAllKeepsMark(st, AppendContexts(outcome.remaining.value), now, r, since);
      }
      if outcome.topUp.Some? {
        AddedKeepsMark(more, outcome.topUp.value, now, r, since);
      }
    }
  }

  lemma StepKeepsMark(st: State, op: Op, now: int, r: ResolveContext, since: int)
    requires MarkedAt(st, r, since) && now <= since + RETRY_UNAVAILABLE
    ensures MarkedAt(Step(st, op, now), r, since)
  {
    match op
    case Add(x) => AddedKeepsMark(st, x, now, r, since);
    case AddList(rs) => AddedAllKeepsMark(st, rs, now, r, since);
    case Handle(outcome) => BeforeDropKeepsMark(st, outcome, now, r, since);
    case Clear =>
  }

  /** A context that could not be resolved is queued again by no run within the retry time. */
  lemma {:induction false} UnavailableStaysOut(log: Log, ops: seq<Timed>, r: ResolveContext, since: int)
    requires MarkedAt(log.st, r, since)
    requires forall i :: 0 <= i < |ops| ==> ops[i].now <= since + RETRY_UNAVAILABLE
    ensures MarkedAt(Run(log, ops).st, r, since)
  {
    if ops == [] {
    } else {
      var front, last := ops[..|ops| - 1], ops[|ops| - 1];
      UnavailableStaysOut(log, front, r, since);
      StepKeepsMark(Run(log, front).st, last.op, last.now, r, since);
    }
  }

  lemma FailureMarks(st: State, now: int)
    requires Valid(st) && FirstValid(st.queue, 0) < |st.queue|
    ensures MarkedAt(Handled(st, Failed, now), st.queue[FirstValid(st.queue, 0)], now)
  {
  }

  // ----- The last entry of its type

  lemma {:induction false} CountConcat(a: Queue, b: Queue, update: ContextType)
    ensures CountOf(a + b, update) == CountOf(a, update) + CountOf(b, update)
    decreases |b|
  {
    if b == [] {
      assert a + b == a;
    } else {
      CountConcat(a, b[..|b| - 1], update);
      assert (a + b)[..|a + b| - 1] == a + b[..|b| - 1];
    }
  }

  lemma {:induction false} CountZero(queue: Queue, update: ContextType)
    ensures CountOf(queue, update) == 0 <==> forall r :: r in queue ==> r.update != update
  {
    if queue == [] {
    } else {
      CountZero(queue[..|queue| - 1], update);
      assert queue == queue[..|queue| - 1] + [queue[|queue| - 1]];
    }
  }

  lemma RestHasNone(queue: Queue, k: nat)
    requires k < |queue| && CountOf(queue, queue[k].update) == 1
    ensures CountOf(queue[k + 1..], queue[k].update) == 0
  {
    assert queue == queue[..k + 1] + queue[k + 1..] && queue[..k + 1][..k] == queue[..k];
    CountConcat(queue[..k + 1], queue[k + 1..], queue[k].update);
  }

  /** When the handler finishes a type, nothing of that type is left, unless it was the autoplay
      type and the autoplay request made on finishing was itself admitted to the queue. */
  lemma FinishedTypeIsGone(st: State, outcome: Outcome, now: int)
    requires Valid(st) && HandledFinishes(st, outcome, now)
    requires outcome.topUp.Some? ==> outcome.topUp.value.update == Autoplay
    ensures var more := WithRemaining(st, outcome, now);
      var update := more.queue[FirstValid(more.queue, 0)].update;
      (forall r :: r in Handled(st, outcome, now).queue ==> r.update != update) <==>
      !(update == Autoplay && outcome.topUp.Some? &&
        !Blocked(more, outcome.topUp.value, now) && outcome.topUp.value !in more.queue)
  {
    var more := WithRemaining(st, outcome, now);
    var k := FirstValid(more.queue, 0);
    var update := more.queue[k].update;
    var before := BeforeDrop(st, outcome, now).queue;
    RestHasNone(more.queue, k);
    FirstValidOfPrefix(more.queue, before, 0);
    CountZero(more.queue[k + 1..], update);
    if before == more.queue {
    } else {
      assert before == more.queue + [outcome.topUp.value];
      assert before[k + 1..] == more.queue[k + 1..] + [outcome.topUp.value];
    }
  }

  /** The exception is real: finishing the first autoplay context while few tracks are left queues
      the request for more of it. */
  lemma AutoplayMayQueueItself(uri: string, track: string, now: int)
    requires ValidResolveUri(uri).Some?
    ensures var first := ResolveContext.FromUri(uri, track, Autoplay, Replace);
      var topUp := ResolveContext.FromUri(uri, track, Autoplay, Append);
      var st, outcome := State([first], map[]), Fetched(None, Autoplay, Some(topUp));
      && Valid(st) && HandledFinishes(st, outcome, now)
      && Handled(st, outcome, now).queue == [topUp]
  {
  }
}
