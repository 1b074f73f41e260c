/** The throttle and the pause under every interleaving of threads (src/network/base.py).

    A call reads the clock, compares the reading with the end of the pause, and passes the throttle
    under the lock. When it is answered with a 429 it computes the new end of the pause and then stores
    it. Each of these is a step of its own; only the throttle's check and record are done together. */
module ApiInterleavings {
  import opened Wrappers

  /** The safety margin added to every `Retry-After`. */
  const RETRY_MARGIN: real := 30.0

  /** How far a thread is with its call. An interval of zero stands for no throttle. */
  datatype Phase =
    | Idle
    | HasRead(endpoint: string, minInterval: real, reading: real)
    | Ready(endpoint: string, minInterval: real, reading: real) // outside the pause, not yet in the lock
    | InFlight(reading: real)
    | Answered(reading: real, end: real) // the new end of the pause is not stored yet

  /** A throttled dispatch: the reading it recorded, its interval, and the time it took the lock. */
  datatype Dispatch = Dispatch(endpoint: string, reading: real, minInterval: real, lockedAt: real) {
    /** The time between reading the clock and taking the lock. */
    function Wait(): real {
      lockedAt - reading
    }
  }

  datatype State = State(
    clock: real,
    lastCallTimes: map<string, real>,
    rateLimitUntil: real,
    threads: map<nat, Phase>,
    log: seq<Dispatch>)

  datatype Action =
    | Tick(time: real)
    | Read(thread: nat, endpoint: string, minInterval: real)
    | Check(thread: nat)
    | Lock(thread: nat)
    | Answer(thread: nat, retryAfter: Option<nat>) // `None` for any other answer than a 429
    | Store(thread: nat)

  function PhaseOf(s: State, t: nat): Phase {
    if t in s.threads then s.threads[t] else Idle
  }

  function LastCall(s: State, endpoint: string): real {
    if endpoint in s.lastCallTimes then s.lastCallTimes[endpoint] else 0.0
  }

  predicate Enabled(s: State, a: Action) {
    match a
    case Tick(time) => s.clock <= time
    case Read(t, _, min) => PhaseOf(s, t).Idle? && min >= 0.0
    case Check(t) => PhaseOf(s, t).HasRead?
    case Lock(t) => PhaseOf(s, t).Ready?
    case Answer(t, _) => PhaseOf(s, t).InFlight?
    case Store(t) => PhaseOf(s, t).Answered?
  }

  function Moved(s: State, t: nat, p: Phase): State {
    s.(threads := s.threads[t := p])
  }

  function Checked(s: State, p: Phase): Phase
    requires p.HasRead?
  {
    if p.reading < s.rateLimitUntil then Idle
    else if p.minInterval == 0.0 then InFlight(p.reading)
    else Ready(p.endpoint, p.minInterval, p.reading)
  }

  function Locked(s: State, t: nat, p: Phase): State
    requires p.Ready?
  {
    if p.reading - LastCall(s, p.endpoint) < p.minInterval then Moved(s, t, Idle)
    else Moved(s, t, InFlight(p.reading)).(
           lastCallTimes := s.lastCallTimes[p.endpoint := p.reading],
           log := s.log + [Dispatch(p.endpoint, p.reading, p.minInterval, s.clock)])
  }

  function Step(s: State, a: Action): State
    requires Enabled(s, a)
  {
    match a
    case Tick(time) => s.(clock := time)
    case Read(t, endpoint, min) => Moved(s, t, HasRead(endpoint, min, s.clock))
    case Check(t) => Moved(s, t, Checked(s, PhaseOf(s, t)))
    case Lock(t) => Locked(s, t, PhaseOf(s, t))
    case Answer(t, None) => Moved(s, t, Idle)
    case Answer(t, Some(retryAfter)) =>
      Moved(s, t, Answered(PhaseOf(s, t).reading, s.clock + retryAfter as real + RETRY_MARGIN))
    case Store(t) => Moved(s, t, Idle).(rateLimitUntil := PhaseOf(s, t).end)
  }

  const INITIAL: State := State(0.0, map[], 0.0, map[], [])

  /** The state after the actions; one that is not enabled changes nothing. */
  function Run(actions: seq<Action>): State {
    if actions == [] then INITIAL else
      var before, last := Run(actions[..|actions| - 1]), actions[|actions| - 1];
      if Enabled(before, last) then Step(before, last) else before
  }

  ghost predicate RunEnabled(actions: seq<Action>) {
    actions != [] ==>
      var front := actions[..|actions| - 1];
      RunEnabled(front) && Enabled(Run(front), actions[|actions| - 1])
  }

  lemma Then(actions: seq<Action>, s: State, a: Action)
    requires RunEnabled(actions) && Run(actions) == s && Enabled(s, a)
    ensures RunEnabled(actions + [a]) && Run(actions + [a]) == Step(s, a)
  {
    assert (actions + [a])[..|actions|] == actions;
  }

  lemma TakeTake(actions: seq<Action>, m: nat, n: nat)
    requires m <= n <= |actions|
    ensures actions[..n][..m] == actions[..m]
  {
  }

  lemma {:induction false} Prefixes(actions: seq<Action>, n: nat)
    requires RunEnabled(actions) && n < |actions|
    ensures RunEnabled(actions[..n]) && Enabled(Run(actions[..n]), actions[n])
    ensures Run(actions[..n + 1]) == Step(Run(actions[..n]), actions[n])
    decreases |actions|
  {
    if n == |actions| - 1 {
      assert actions[..n + 1] == actions;
    } else {
      Prefixes(actions[..|actions| - 1], n);
      TakeTake(actions, n, |actions| - 1);
      TakeTake(actions, n + 1, |actions| - 1);
    }
  }

  // ----- Recorded readings are spaced

  /** Recorded readings of one endpoint never go back, and each is at least its own interval after
      every earlier one. */
  ghost predicate Spaced(log: seq<Dispatch>) {
    forall i, j :: 0 <= i < j < |log| && log[i].endpoint == log[j].endpoint ==>
      log[j].reading - log[i].reading >= log[j].minInterval
  }

  /** Nothing was recorded after the endpoint's last call, or before its clock was read. */
  ghost predicate Recorded(s: State) {
    forall i :: 0 <= i < |s.log| ==>
      s.log[i].reading <= LastCall(s, s.log[i].endpoint) && s.log[i].reading <= s.log[i].lockedAt <= s.clock
  }

  /** A call that is under way read the clock in the past, and asks for a pause beyond its reading. */
  predicate InPast(p: Phase, clock: real) {
    && (!p.Idle? ==> p.reading <= clock)
    && (p.Ready? ==> p.minInterval > 0.0)
    && (p.HasRead? ==> p.minInterval >= 0.0)
    && (p.Answered? ==> p.reading < p.end)
  }

  ghost predicate ReadingsPast(threads: map<nat, Phase>, clock: real) {
    forall t :: t in threads ==> InPast(threads[t], clock)
  }

  ghost predicate Invariant(s: State) {
    Spaced(s.log) && Recorded(s) && ReadingsPast(s.threads, s.clock) && 0.0 <= s.clock
  }

  lemma AppendKeepsSpaced(log: seq<Dispatch>, d: Dispatch)
    requires Spaced(log)
    requires forall i :: 0 <= i < |log| && log[i].endpoint == d.endpoint ==> d.reading - log[i].reading >= d.minInterval
    ensures Spaced(log + [d])
  {
  }

  lemma StepKeepsReadingsPast(s: State, a: Action)
    requires ReadingsPast(s.threads, s.clock) && Enabled(s, a)
    ensures ReadingsPast(Step(s, a).threads, Step(s, a).clock)
  {
  }

  lemma LockKeepsRecorded(s: State, t: nat)
    requires Invariant(s) && PhaseOf(s, t).Ready?
    ensures Spaced(Step(s, Lock(t)).log) && Recorded(Step(s, Lock(t)))
  {
    var p := PhaseOf(s, t);
    if p.reading - LastCall(s, p.endpoint) >= p.minInterval {
      AppendKeepsSpaced(s.log, Dispatch(p.endpoint, p.reading, p.minInterval, s.clock));
    }
  }

  lemma StepKeepsInvariant(s: State, a: Action)
    requires Invariant(s) && Enabled(s, a)
    ensures Invariant(Step(s, a))
  {
    StepKeepsReadingsPast(s, a);
    if a.Lock? {
      LockKeepsRecorded(s, a.thread);
    }
  }

  /** In every interleaving, throttled dispatches of one endpoint have recorded readings at least the
      later call's interval apart, although the clock is read before the lock is taken. */
  lemma {:induction false} EveryInterleavingIsSpaced(actions: seq<Action>)
    requires RunEnabled(actions)
    ensures Invariant(Run(actions)) && Spaced(Run(actions).log)
  {
    if actions == [] {
    } else {
      var front := actions[..|actions| - 1];
      EveryInterleavingIsSpaced(front);
      StepKeepsInvariant(Run(front), actions[|actions| - 1]);
    }
  }

  /** The reading of the last dispatch of an endpoint; zero before the first. */
  function LastLogged(log: seq<Dispatch>, endpoint: string): real {
    if log == [] then 0.0
    else if log[|log| - 1].endpoint == endpoint then log[|log| - 1].reading
    else LastLogged(log[..|log| - 1], endpoint)
  }

  lemma LoggedNext(log: seq<Dispatch>, d: Dispatch, endpoint: string)
    ensures LastLogged(log + [d], endpoint) == if d.endpoint == endpoint then d.reading else LastLogged(log, endpoint)
  {
    assert (log + [d])[..|log|] == log;
  }

  lemma StepKeepsLogged(s: State, a: Action, endpoint: string)
    requires Enabled(s, a) && LastCall(s, endpoint) == LastLogged(s.log, endpoint)
    ensures LastCall(Step(s, a), endpoint) == LastLogged(Step(s, a).log, endpoint)
  {
    if a.Lock? {
      var p := PhaseOf(s, a.thread);
      LoggedNext(s.log, Dispatch(p.endpoint, p.reading, p.minInterval, s.clock), endpoint);
    }
  }

  /** Only dispatches count for the throttle: refused calls leave no trace. */
  lemma {:induction false} OnlyDispatchesCount(actions: seq<Action>, endpoint: string)
    requires RunEnabled(actions)
    ensures LastCall(Run(actions), endpoint) == LastLogged(Run(actions).log, endpoint)
  {
    if actions == [] {
    } else {
      var front := actions[..|actions| - 1];
      OnlyDispatchesCount(front, endpoint);
      StepKeepsLogged(Run(front), actions[|actions| - 1], endpoint);
    }
  }

  /** Under the lock a call is dispatched exactly when its reading is the interval after that of the last
      dispatch of the endpoint. */
  lemma LockDispatchesExactly(actions: seq<Action>, t: nat)
    requires RunEnabled(actions) && PhaseOf(Run(actions), t).Ready?
    ensures var p, log, after := PhaseOf(Run(actions), t), Run(actions).log, Run(actions + [Lock(t)]);
      if p.reading - LastLogged(log, p.endpoint) >= p.minInterval
      then PhaseOf(after, t) == InFlight(p.reading) &&
           after.log == log + [Dispatch(p.endpoint, p.reading, p.minInterval, Run(actions).clock)]
      else PhaseOf(after, t) == Idle && after.log == log
  {
    OnlyDispatchesCount(actions, PhaseOf(Run(actions), t).endpoint);
    Then(actions, Run(actions), Lock(t));
  }

  // ----- When the dispatches themselves are spaced

  /** The moments of two dispatches can only be closer than the interval by what the earlier call
      waited longer for the lock than the later one. */
  lemma ShortfallIsExtraWait(actions: seq<Action>, i: nat, j: nat)
    requires RunEnabled(actions) && i < j < |Run(actions).log|
    requires Run(actions).log[i].endpoint == Run(actions).log[j].endpoint
    ensures var a, b := Run(actions).log[i], Run(actions).log[j];
      && 0.0 <= a.Wait() && 0.0 <= b.Wait()
      && b.lockedAt - a.lockedAt >= b.minInterval - (a.Wait() - b.Wait()) >= b.minInterval - a.Wait()
  {
    EveryInterleavingIsSpaced(actions);
  }

  /** Calls `i` and `j` of a run, of one endpoint, with the given waits and interval. */
  ghost predicate IsPair(actions: seq<Action>, i: nat, j: nat, min: real, waitI: real, waitJ: real) {
    && RunEnabled(actions) && i < j < |Run(actions).log|
    && var a, b := Run(actions).log[i], Run(actions).log[j];
    && a.endpoint == b.endpoint && b.minInterval == min && a.Wait() == waitI && b.Wait() == waitJ
  }

  ghost predicate Apart(actions: seq<Action>, i: nat, j: nat, min: real)
    requires i < |Run(actions).log| && j < |Run(actions).log|
  {
    Run(actions).log[j].lockedAt - Run(actions).log[i].lockedAt >= min
  }

  /** The readings of a pair of calls that brings the dispatches as close as the waits allow. */
  function Distance(min: real, waitI: real, waitJ: real): real {
    if waitI - waitJ <= min then min else waitI - waitJ
  }

  function ClosestPair(endpoint: string, min: real, waitI: real, waitJ: real): seq<Dispatch> {
    var later := min + Distance(min, waitI, waitJ);
    [Dispatch(endpoint, min, min, min + waitI), Dispatch(endpoint, later, min, later + waitJ)]
  }

  /** An idle thread reads the clock outside the pause and checks the pause at once. */
  lemma ReadAndCheck(actions: seq<Action>, s: State, t: nat, endpoint: string, min: real)
    returns (more: seq<Action>)
    requires RunEnabled(actions) && Run(actions) == s && PhaseOf(s, t).Idle?
    requires min > 0.0 && s.rateLimitUntil <= s.clock
    ensures RunEnabled(more) && Run(more) == Moved(s, t, Ready(endpoint, min, s.clock))
  {
    Then(actions, s, Read(t, endpoint, min));
    var read := actions + [Read(t, endpoint, min)];
    var r := Moved(s, t, HasRead(endpoint, min, s.clock));
    Then(read, r, Check(t));
    more := read + [Check(t)];
    assert s.threads[t := HasRead(endpoint, min, s.clock)][t := Ready(endpoint, min, s.clock)]
        == s.threads[t := Ready(endpoint, min, s.clock)];
  }

  lemma OneReady(endpoint: string, min: real) returns (actions: seq<Action>)
    requires min > 0.0
    ensures RunEnabled(actions)
    ensures Run(actions) == State(min, map[], 0.0, map[0 := Ready(endpoint, min, min)], [])
  {
    Then([], INITIAL, Tick(min));
    actions := ReadAndCheck([] + [Tick(min)], INITIAL.(clock := min), 0, endpoint, min);
  }

  /** Thread 1 reads the clock `gap` after thread 0. */
  lemma TwoReady(endpoint: string, min: real, gap: real) returns (actions: seq<Action>)
    requires min > 0.0 && 0.0 <= gap
    ensures RunEnabled(actions)
    ensures Run(actions) == State(
      min + gap, map[], 0.0, map[0 := Ready(endpoint, min, min), 1 := Ready(endpoint, min, min + gap)], [])
  {
    var one := OneReady(endpoint, min);
    var s := Run(one);
    Then(one, s, Tick(min + gap));
    actions := ReadAndCheck(one + [Tick(min + gap)], s.(clock := min + gap), 1, endpoint, min);
    assert s.threads[1 := Ready(endpoint, min, min + gap)]
        == map[0 := Ready(endpoint, min, min), 1 := Ready(endpoint, min, min + gap)];
  }

  /** Thread 0 takes the lock after thread 1 read the clock. */
  lemma ReadBeforeLock(endpoint: string, min: real, waitI: real, gap: real) returns (actions: seq<Action>)
    requires min > 0.0 && 0.0 <= gap <= waitI
    ensures RunEnabled(actions)
    ensures Run(actions) == State(
      min + waitI, map[endpoint := min], 0.0,
      map[0 := InFlight(min), 1 := Ready(endpoint, min, min + gap)],
      [Dispatch(endpoint, min, min, min + waitI)])
  {
    var two := TwoReady(endpoint, min, gap);
    var t := Run(two);
    Then(two, t, Tick(min + waitI));
    var later := two + [Tick(min + waitI)];
    Then(later, t.(clock := min + waitI), Lock(0));
    actions := later + [Lock(0)];
    assert t.threads[0 := InFlight(min)] == map[0 := InFlight(min), 1 := Ready(endpoint, min, min + gap)];
  }

  lemma OneLocked(endpoint: string, min: real, waitI: real) returns (actions: seq<Action>)
    requires min > 0.0 && 0.0 <= waitI
    ensures RunEnabled(actions)
    ensures Run(actions) == State(
      min + waitI, map[endpoint := min], 0.0,
      map[0 := InFlight(min)], [Dispatch(endpoint, min, min, min + waitI)])
  {
    var one := OneReady(endpoint, min);
    var s := Run(one);
    Then(one, s, Tick(min + waitI));
    var ticked := one + [Tick(min + waitI)];
    Then(ticked, s.(clock := min + waitI), Lock(0));
    actions := ticked + [Lock(0)];
    assert s.threads[0 := InFlight(min)] == map[0 := InFlight(min)];
  }

  /** Thread 0 takes the lock before thread 1 reads the clock. */
  lemma LockBeforeRead(endpoint: string, min: real, waitI: real, gap: real) returns (actions: seq<Action>)
    requires min > 0.0 && 0.0 <= waitI <= gap
    ensures RunEnabled(actions)
    ensures Run(actions) == State(
      min + gap, map[endpoint := min], 0.0,
      map[0 := InFlight(min), 1 := Ready(endpoint, min, min + gap)],
      [Dispatch(endpoint, min, min, min + waitI)])
  {
    var locked := OneLocked(endpoint, min, waitI);
    var t := Run(locked);
    Then(locked, t, Tick(min + gap));
    actions := ReadAndCheck(locked + [Tick(min + gap)], t.(clock := min + gap), 1, endpoint, min);
    assert t.threads[1 := Ready(endpoint, min, min + gap)]
        == map[0 := InFlight(min), 1 := Ready(endpoint, min, min + gap)];
  }

  /** The second call takes the lock after its own wait. */
  lemma SecondLocks(ready: seq<Action>, endpoint: string, min: real, waitI: real, gap: real, waitJ: real)
    returns (actions: seq<Action>)
    requires min > 0.0 && min <= gap && RunEnabled(ready)
    requires Run(ready).clock <= min + gap + waitJ
    requires var s := Run(ready);
      && s.lastCallTimes == map[endpoint := min] && s.rateLimitUntil == 0.0
      && s.threads == map[0 := InFlight(min), 1 := Ready(endpoint, min, min + gap)]
      && s.log == [Dispatch(endpoint, min, min, min + waitI)]
    ensures RunEnabled(actions)
    ensures Run(actions).log ==
      [Dispatch(endpoint, min, min, min + waitI), Dispatch(endpoint, min + gap, min, min + gap + waitJ)]
    ensures Run(actions).threads == map[0 := InFlight(min), 1 := InFlight(min + gap)]
    ensures Run(actions).clock == min + gap + waitJ && Run(actions).rateLimitUntil == 0.0
  {
    var s := Run(ready);
    Then(ready, s, Tick(min + gap + waitJ));
    var ticked := ready + [Tick(min + gap + waitJ)];
    var t := s.(clock := min + gap + waitJ);
    assert PhaseOf(t, 1) == Ready(endpoint, min, min + gap) && LastCall(t, endpoint) == min;
    Then(ticked, t, Lock(1));
    actions := ticked + [Lock(1)];
    assert t.threads[1 := InFlight(min + gap)] == map[0 := InFlight(min), 1 := InFlight(min + gap)];
  }

  /** For any interval and any waits there is a run with two calls that waited so long. */
  lemma ClosestRun(endpoint: string, min: real, waitI: real, waitJ: real) returns (actions: seq<Action>)
    requires min > 0.0 && 0.0 <= waitI && 0.0 <= waitJ
    ensures RunEnabled(actions) && Run(actions).log == ClosestPair(endpoint, min, waitI, waitJ)
    ensures Run(actions).threads == map[0 := InFlight(min), 1 := InFlight(min + Distance(min, waitI, waitJ))]
    ensures Run(actions).clock == min + Distance(min, waitI, waitJ) + waitJ && Run(actions).rateLimitUntil == 0.0
  {
    var gap := Distance(min, waitI, waitJ);
    var ready;
    if gap <= waitI {
      ready := ReadBeforeLock(endpoint, min, waitI, gap);
    } else {
      ready := LockBeforeRead(endpoint, min, waitI, gap);
    }
    actions := SecondLocks(ready, endpoint, min, waitI, gap, waitJ);
  }

  /** The dispatches of an endpoint are the interval apart in every interleaving exactly when the
      earlier call does not wait longer for the lock than the later one. */
  lemma DispatchesApartExactly(min: real, waitI: real, waitJ: real)
    requires min > 0.0 && 0.0 <= waitI && 0.0 <= waitJ
    ensures (forall actions, i: nat, j: nat :: IsPair(actions, i, j, min, waitI, waitJ) ==> Apart(actions, i, j, min))
      <==> waitI <= waitJ
  {
    if waitI <= waitJ {
      forall actions, i: nat, j: nat | IsPair(actions, i, j, min, waitI, waitJ)
        ensures Apart(actions, i, j, min)
      {
        ShortfallIsExtraWait(actions, i, j);
      }
    } else {
      var actions := ClosestRun("", min, waitI, waitJ);
      assert IsPair(actions, 0, 1, min, waitI, waitJ) && !Apart(actions, 0, 1, min);
    }
  }

  ghost predicate Coincide(log: seq<Dispatch>, endpoint: string) {
    && |log| == 2 && log[0].endpoint == log[1].endpoint == endpoint
    && log[0].lockedAt == log[1].lockedAt && log[1].minInterval == 2.0
  }

  /** An instance: two calls take the lock, and go out, at the same time. */
  lemma DispatchesMayCoincide(endpoint: string)
    ensures exists actions :: RunEnabled(actions) && Coincide(Run(actions).log, endpoint)
  {
    var actions := ClosestRun(endpoint, 2.0, 2.0, 0.0);
    assert Coincide(Run(actions).log, endpoint);
  }

  // ----- Where a phase comes from

  predicate Acts(a: Action, t: nat) {
    !a.Tick? && a.thread == t
  }

  /** Action `n` is the last one of thread `t`. */
  ghost predicate LastActed(actions: seq<Action>, t: nat, n: nat) {
    n < |actions| && Acts(actions[n], t) && forall k :: n < k < |actions| ==> !Acts(actions[k], t)
  }

  lemma {:induction false} PhaseSince(actions: seq<Action>, t: nat, n: nat)
    requires LastActed(actions, t, n)
    ensures PhaseOf(Run(actions), t) == PhaseOf(Run(actions[..n + 1]), t)
    decreases |actions|
  {
    if n == |actions| - 1 {
      assert actions[..n + 1] == actions;
    } else {
      var front := actions[..|actions| - 1];
      PhaseSince(front, t, n);
      TakeTake(actions, n + 1, |actions| - 1);
      assert !Acts(actions[|actions| - 1], t);
    }
  }

  /** A thread that is not idle has acted; its phase is what its last action left. */
  lemma {:induction false} HasActed(actions: seq<Action>, t: nat) returns (n: nat)
    requires RunEnabled(actions) && !PhaseOf(Run(actions), t).Idle?
    ensures LastActed(actions, t, n)
    ensures RunEnabled(actions[..n]) && Enabled(Run(actions[..n]), actions[n])
    ensures PhaseOf(Run(actions), t) == PhaseOf(Step(Run(actions[..n]), actions[n]), t)
  {
    n := ActedLast(actions, t);
    PhaseSince(actions, t, n);
    Prefixes(actions, n);
  }

  lemma {:induction false} ActedLast(actions: seq<Action>, t: nat) returns (n: nat)
    requires RunEnabled(actions) && !PhaseOf(Run(actions), t).Idle?
    ensures LastActed(actions, t, n)
  {
    if actions == [] {
      assert false;
    } else if Acts(actions[|actions| - 1], t) {
      n := |actions| - 1;
    } else {
      n := ActedLast(actions[..|actions| - 1], t);
    }
  }

  /** A call that is ready passed the check of the pause with its reading, which it took before. */
  lemma ReadyComesFrom(actions: seq<Action>, t: nat) returns (read: nat, check: nat)
    requires RunEnabled(actions) && PhaseOf(Run(actions), t).Ready?
    ensures LastActed(actions, t, check) && actions[check] == Check(t)
    ensures LastActed(actions[..check], t, read)
    ensures var p := PhaseOf(Run(actions), t);
      && actions[read] == Read(t, p.endpoint, p.minInterval) && Run(actions[..read]).clock == p.reading
      && Run(actions[..check]).rateLimitUntil <= p.reading
  {
    check := HasActed(actions, t);
    read := HasActed(actions[..check], t);
    TakeTake(actions, read, check);
  }

  /** The steps in which dispatch `i` read the clock, passed the check of the pause, and took the lock. */
  ghost predicate IsOrigin(actions: seq<Action>, i: nat, d: Dispatch, read: nat, check: nat, lock: nat) {
    && lock < |actions| && actions[lock].Lock?
    && |Run(actions[..lock]).log| == i && Run(actions[..lock]).clock == d.lockedAt
    && var t := actions[lock].thread;
    && LastActed(actions[..lock], t, check) && actions[check] == Check(t)
    && Run(actions[..check]).rateLimitUntil <= d.reading
    && LastActed(actions[..check], t, read) && actions[read] == Read(t, d.endpoint, d.minInterval)
    && Run(actions[..read]).clock == d.reading
  }

  lemma OriginStays(actions: seq<Action>, i: nat, d: Dispatch, read: nat, check: nat, lock: nat)
    requires actions != [] && IsOrigin(actions[..|actions| - 1], i, d, read, check, lock)
    ensures IsOrigin(actions, i, d, read, check, lock)
  {
    TakeTake(actions, lock, |actions| - 1);
    TakeTake(actions, check, |actions| - 1);
    TakeTake(actions, read, |actions| - 1);
  }

  /** Every throttled dispatch read the clock, then found the end of the pause at or before its
      reading, and then took the lock. */
  lemma {:induction false} ChecksAreOutsidePauses(actions: seq<Action>, i: nat)
    returns (read: nat, check: nat, lock: nat)
    requires RunEnabled(actions) && i < |Run(actions).log|
    ensures IsOrigin(actions, i, Run(actions).log[i], read, check, lock)
  {
    if actions == [] {
      assert false;
    } else {
      var n := |actions| - 1;
      var front := actions[..n];
      if i < |Run(front).log| {
        read, check, lock := ChecksAreOutsidePauses(front, i);
        assert Run(actions).log[i] == Run(front).log[i];
        OriginStays(actions, i, Run(actions).log[i], read, check, lock);
      } else {
        lock := n;
        read, check := ReadyComesFrom(front, actions[n].thread);
        TakeTake(actions, check, n);
        TakeTake(actions, read, n);
      }
    }
  }
}
