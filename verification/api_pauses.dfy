/** When the end of the pause moves and when calls go out inside it, under every interleaving of threads
    (src/network/base.py). */
module ApiPauses {
  import opened Wrappers
  import opened ApiInterleavings

  // ----- The end of the pause is the one that the last answer asked for

  /** Call `actions[answer].thread` computed a new end of the pause in step `answer`, and stored it in
      step `store`. */
  ghost predicate Asked(actions: seq<Action>, answer: nat, store: nat) {
    && answer < store < |actions| && actions[store].Store?
    && actions[answer].Answer? && actions[answer].retryAfter.Some?
    && LastActed(actions[..store], actions[store].thread, answer)
  }

  ghost function EndAsked(actions: seq<Action>, answer: nat): real
    requires answer < |actions| && actions[answer].Answer? && actions[answer].retryAfter.Some?
  {
    Run(actions[..answer]).clock + actions[answer].retryAfter.value as real + RETRY_MARGIN
  }

  ghost predicate NoStoreFrom(actions: seq<Action>, n: nat) {
    forall k :: n <= k < |actions| ==> !actions[k].Store?
  }

  /** The last end that was stored is the one asked for in step `answer`. */
  ghost predicate LastAsked(actions: seq<Action>, answer: nat, store: nat) {
    Asked(actions, answer, store) && NoStoreFrom(actions, store + 1)
  }

  lemma {:induction false} NoStoreKeepsPause(actions: seq<Action>, n: nat)
    requires n <= |actions| && NoStoreFrom(actions, n)
    ensures Run(actions).rateLimitUntil == Run(actions[..n]).rateLimitUntil
    decreases |actions|
  {
    if n == |actions| {
      assert actions[..n] == actions;
    } else {
      NoStoreKeepsPause(actions[..|actions| - 1], n);
      TakeTake(actions, n, |actions| - 1);
    }
  }

  /** A thread about to store has an answer; the end it stores is the one it computed then. */
  lemma AnsweredComesFrom(actions: seq<Action>, t: nat) returns (answer: nat)
    requires RunEnabled(actions) && PhaseOf(Run(actions), t).Answered?
    ensures LastActed(actions, t, answer) && actions[answer].Answer? && actions[answer].retryAfter.Some?
    ensures PhaseOf(Run(actions), t).end == EndAsked(actions, answer)
  {
    answer := HasActed(actions, t);
  }

  lemma AnsweredSince(actions: seq<Action>, t: nat, answer: nat)
    requires RunEnabled(actions) && LastActed(actions, t, answer)
    requires actions[answer].Answer? && actions[answer].retryAfter.Some?
    ensures PhaseOf(Run(actions), t).Answered? && PhaseOf(Run(actions), t).end == EndAsked(actions, answer)
  {
    PhaseSince(actions, t, answer);
    Prefixes(actions, answer);
  }

  lemma AskedMeans(actions: seq<Action>, answer: nat, store: nat)
    requires RunEnabled(actions) && Asked(actions, answer, store)
    ensures Run(actions[..store + 1]).rateLimitUntil == EndAsked(actions, answer)
  {
    Prefixes(actions, store);
    AnsweredSince(actions[..store], actions[store].thread, answer);
    TakeTake(actions, answer, store);
  }

  lemma LastAskedMeans(actions: seq<Action>, answer: nat, store: nat)
    requires RunEnabled(actions) && LastAsked(actions, answer, store)
    ensures Run(actions).rateLimitUntil == EndAsked(actions, answer)
    ensures EndAsked(actions, answer) == Run(actions[..answer]).clock + actions[answer].retryAfter.value as real + 30.0
  {
    AskedMeans(actions, answer, store);
    NoStoreKeepsPause(actions, store + 1);
  }

  /** There is such an answer unless no end was ever stored. */
  lemma {:induction false} LastStored(actions: seq<Action>, n: nat) returns (answer: nat, store: nat)
    requires RunEnabled(actions) && n <= |actions| && !NoStoreFrom(actions, n)
    ensures n <= store && LastAsked(actions, answer, store)
    decreases |actions|
  {
    if actions == [] {
      assert false;
    } else {
      var last := |actions| - 1;
      var front := actions[..last];
      if actions[last].Store? {
        store := last;
        answer := AnsweredComesFrom(front, actions[last].thread);
      } else {
        answer, store := LastStored(front, n);
        TakeTake(actions, store, last);
      }
    }
  }

  lemma {:induction false} ClockForward(actions: seq<Action>, n: nat)
    requires RunEnabled(actions) && n <= |actions|
    ensures Run(actions[..n]).clock <= Run(actions).clock
    decreases |actions|
  {
    if n == |actions| {
      assert actions[..n] == actions;
    } else {
      ClockForward(actions[..|actions| - 1], n);
      TakeTake(actions, n, |actions| - 1);
    }
  }

  // ----- When the lock is taken inside a pause

  predicate PastCheck(p: Phase) {
    p.Ready? || p.InFlight? || p.Answered?
  }

  /** Call `t` passed the check of the pause in step `k`, and has been under way since. */
  ghost predicate CheckedAt(actions: seq<Action>, k: nat, t: nat, reading: real) {
    && k < |actions| && actions[k] == Check(t)
    && Run(actions[..k]).rateLimitUntil <= reading
    && forall n :: k < n <= |actions| ==>
         var p := PhaseOf(Run(actions[..n]), t); PastCheck(p) && p.reading == reading
  }

  lemma CheckedAtLater(actions: seq<Action>, k: nat, t: nat, reading: real)
    requires actions != [] && CheckedAt(actions[..|actions| - 1], k, t, reading)
    requires PastCheck(PhaseOf(Run(actions), t)) && PhaseOf(Run(actions), t).reading == reading
    ensures CheckedAt(actions, k, t, reading)
  {
    TakeTake(actions, k, |actions| - 1);
    forall n | k < n <= |actions|
      ensures var p := PhaseOf(Run(actions[..n]), t); PastCheck(p) && p.reading == reading
    {
      if n == |actions| {
        assert actions[..n] == actions;
      } else {
        TakeTake(actions, n, |actions| - 1);
      }
    }
  }

  lemma WasPastCheck(s: State, a: Action, t: nat)
    requires Enabled(s, a) && a != Check(t) && PastCheck(PhaseOf(Step(s, a), t))
    ensures PastCheck(PhaseOf(s, t)) && PhaseOf(s, t).reading == PhaseOf(Step(s, a), t).reading
  {
  }

  /** Every call past its check passed it at some step. */
  lemma {:induction false} CheckStep(actions: seq<Action>, t: nat) returns (k: nat)
    requires RunEnabled(actions) && PastCheck(PhaseOf(Run(actions), t))
    ensures CheckedAt(actions, k, t, PhaseOf(Run(actions), t).reading)
  {
    if actions == [] {
      assert false;
    } else {
      var n := |actions| - 1;
      if actions[n] == Check(t) {
        k := n;
        assert actions[..|actions|] == actions;
      } else {
        WasPastCheck(Run(actions[..n]), actions[n], t);
        k := CheckStep(actions[..n], t);
        CheckedAtLater(actions, k, t, PhaseOf(Run(actions), t).reading);
      }
    }
  }

  /** Another call, answered with a pause that is not over, stored its end after step `k`. */
  ghost predicate PausedSince(actions: seq<Action>, k: nat, t: nat, answer: nat, store: nat) {
    && k < store && LastAsked(actions, answer, store) && actions[store].thread != t
    && Run(actions).clock < EndAsked(actions, answer)
  }

  lemma StoredByAnother(actions: seq<Action>, k: nat, t: nat, reading: real, store: nat)
    requires RunEnabled(actions) && CheckedAt(actions, k, t, reading)
    requires k < store < |actions| && actions[store].Store?
    ensures actions[store].thread != t
  {
    Prefixes(actions, store);
    assert PastCheck(PhaseOf(Run(actions[..store + 1]), t));
  }

  lemma StoredAfterCheck(actions: seq<Action>, k: nat, t: nat) returns (answer: nat, store: nat)
    requires RunEnabled(actions) && PastCheck(PhaseOf(Run(actions), t))
    requires CheckedAt(actions, k, t, PhaseOf(Run(actions), t).reading)
    requires Run(actions).clock < Run(actions).rateLimitUntil
    ensures PausedSince(actions, k, t, answer, store)
  {
    var reading := PhaseOf(Run(actions), t).reading;
    EveryInterleavingIsSpaced(actions);
    if NoStoreFrom(actions, k) {
      NoStoreKeepsPause(actions, k);
    }
    answer, store := LastStored(actions, k);
    LastAskedMeans(actions, answer, store);
    StoredByAnother(actions, k, t, reading, store);
  }

  /** A call that has passed its check in step `k` and takes the lock now goes out inside a pause exactly
      when, after its check, another call was the last to store the end of a pause that is not over. */
  lemma LocksInsidePauseExactly(before: seq<Action>, t: nat, k: nat)
    requires RunEnabled(before) && PhaseOf(Run(before), t).Ready?
    requires CheckedAt(before, k, t, PhaseOf(Run(before), t).reading)
    ensures Run(before).clock < Run(before).rateLimitUntil <==>
      exists answer: nat, store: nat :: PausedSince(before, k, t, answer, store)
  {
    if Run(before).clock < Run(before).rateLimitUntil {
      var answer, store := StoredAfterCheck(before, k, t);
    } else if answer: nat, store: nat :| PausedSince(before, k, t, answer, store) {
      LastAskedMeans(before, answer, store);
    }
  }

  /** A call without a throttle goes out at its check, and never inside a pause. */
  lemma UnthrottledIsOutsidePauses(actions: seq<Action>, t: nat)
    requires RunEnabled(actions) && Enabled(Run(actions), Check(t))
    requires PhaseOf(Step(Run(actions), Check(t)), t).InFlight?
    ensures Run(actions).rateLimitUntil <= Run(actions).clock
  {
    EveryInterleavingIsSpaced(actions);
  }

  // ----- When the pause moves back

  /** One step moves the end of the pause back exactly when it stores an earlier end. */
  lemma StepMovesBackExactly(s: State, a: Action)
    requires Enabled(s, a)
    ensures Step(s, a).rateLimitUntil < s.rateLimitUntil <==> a.Store? && PhaseOf(s, a.thread).end < s.rateLimitUntil
  {
  }

  ghost predicate MovesBack(before: seq<Action>, last: Action) {
    && RunEnabled(before + [last])
    && Run(before + [last]).rateLimitUntil < Run(before).rateLimitUntil
  }

  lemma MovesBackMeans(before: seq<Action>, last: Action)
    requires RunEnabled(before + [last])
    ensures RunEnabled(before) && Enabled(Run(before), last)
    ensures MovesBack(before, last) <==>
      last.Store? && PhaseOf(Run(before), last.thread).end < Run(before).rateLimitUntil
  {
    assert (before + [last])[..|before|] == before;
    StepMovesBackExactly(Run(before), last);
  }

  /** The end asked for in step `later` is before the one asked for in step `answer`: its `Retry-After`
      and the time between the answers add up to less than the other `Retry-After`. */
  ghost predicate AsksForEarlier(actions: seq<Action>, answer: nat, later: nat)
    requires answer < |actions| && actions[answer].Answer? && actions[answer].retryAfter.Some?
    requires later < |actions| && actions[later].Answer? && actions[later].retryAfter.Some?
  {
    actions[later].retryAfter.value as real + (Run(actions[..later]).clock - Run(actions[..answer]).clock) <
    actions[answer].retryAfter.value as real
  }

  lemma AnsweredLast(before: seq<Action>, last: Action, later: nat)
    requires Asked(before + [last], later, |before|)
    ensures later < |before| && before[later].Answer? && before[later].retryAfter.Some?
    ensures last.Store? && LastActed(before, last.thread, later)
  {
    assert (before + [last])[..|before|] == before;
  }

  lemma EndIsPositive(actions: seq<Action>, answer: nat)
    requires RunEnabled(actions) && answer < |actions|
    requires actions[answer].Answer? && actions[answer].retryAfter.Some?
    ensures 0.0 < EndAsked(actions, answer)
  {
    Prefixes(actions, answer);
    EveryInterleavingIsSpaced(actions[..answer]);
  }

  /** Of two answers stored one after the other in any run, the second moves the end of the pause back
      exactly when it asks for an earlier end, whichever came first. */
  lemma LaterAnswerWins(before: seq<Action>, last: Action, answer: nat, store: nat, later: nat)
    requires RunEnabled(before + [last]) && LastAsked(before, answer, store)
    requires Asked(before + [last], later, |before|)
    ensures later < |before| && before[later].Answer? && before[later].retryAfter.Some?
    ensures MovesBack(before, last) <==> AsksForEarlier(before, answer, later)
  {
    MovesBackMeans(before, last);
    AnsweredLast(before, last, later);
    AnsweredSince(before, last.thread, later);
    LastAskedMeans(before, answer, store);
  }

  ghost predicate OverwritesLater(before: seq<Action>, last: Action, answer: nat, store: nat, later: nat) {
    && LastAsked(before, answer, store) && Asked(before + [last], later, |before|) && later < |before|
    && before[later] == (before + [last])[later] && AsksForEarlier(before, answer, later)
  }

  /** Every step of every run: the end of the pause moves back exactly when an answer is stored that
      asks for an earlier end than the one stored last. */
  lemma MovesBackExactly(before: seq<Action>, last: Action)
    requires RunEnabled(before + [last])
    ensures MovesBack(before, last) <==>
      exists answer: nat, store: nat, later: nat :: OverwritesLater(before, last, answer, store, later)
  {
    MovesBackMeans(before, last);
    if MovesBack(before, last) {
      var later := AnsweredComesFrom(before, last.thread);
      EndIsPositive(before, later);
      if NoStoreFrom(before, 0) {
        NoStoreKeepsPause(before, 0);
      }
      var answer, store := LastStored(before, 0);
      assert (before + [last])[..|before|] == before;
      LaterAnswerWins(before, last, answer, store, later);
      assert OverwritesLater(before, last, answer, store, later);
    } else if answer: nat, store: nat, later: nat :| OverwritesLater(before, last, answer, store, later) {
      LaterAnswerWins(before, last, answer, store, later);
    }
  }

  predicate UnderWay(s: State, t: nat) {
    !PhaseOf(s, t).Idle?
  }

  /** In step `n`, after its check and while call `t` was under way, another call moved the end of the
      pause from before its reading to after it. */
  ghost predicate RaisedByAnother(actions: seq<Action>, k: nat, n: nat, t: nat, reading: real) {
    && k < n < |actions| && actions[n].Store? && actions[n].thread != t
    && Run(actions[..n]).rateLimitUntil <= reading < Run(actions[..n + 1]).rateLimitUntil
    && UnderWay(Run(actions[..n]), t) && UnderWay(Run(actions[..n]), actions[n].thread)
  }

  lemma {:induction false} Crossing(actions: seq<Action>, start: nat, n: nat, reading: real) returns (k: nat)
    requires start <= n <= |actions|
    requires Run(actions[..start]).rateLimitUntil <= reading < Run(actions[..n]).rateLimitUntil
    ensures start <= k < n
    ensures Run(actions[..k]).rateLimitUntil <= reading < Run(actions[..k + 1]).rateLimitUntil
    decreases n
  {
    if Run(actions[..n - 1]).rateLimitUntil <= reading {
      k := n - 1;
    } else {
      k := Crossing(actions, start, n - 1, reading);
    }
  }

  /** A call past its check can have its reading inside a pause only if another call stored the end of
      that pause after the check. */
  lemma InsidePauseMeansRaised(actions: seq<Action>, t: nat) returns (k: nat, n: nat)
    requires RunEnabled(actions) && PastCheck(PhaseOf(Run(actions), t))
    requires PhaseOf(Run(actions), t).reading < Run(actions).rateLimitUntil
    ensures CheckedAt(actions, k, t, PhaseOf(Run(actions), t).reading)
    ensures RaisedByAnother(actions, k, n, t, PhaseOf(Run(actions), t).reading)
  {
    var reading := PhaseOf(Run(actions), t).reading;
    k := CheckStep(actions, t);
    assert actions[..|actions|] == actions;
    n := Crossing(actions, k, |actions|, reading);
    Prefixes(actions, k);
    Prefixes(actions, n);
    StoredByAnother(actions, k, t, reading, n);
  }

  /** A stored answer moves the end of the pause back only if, after the check of its call, another
      call had moved it forward. */
  lemma MovesBackOnlyAfterAnother(before: seq<Action>, last: Action) returns (k: nat, n: nat)
    requires MovesBack(before, last)
    ensures last.Store? && PastCheck(PhaseOf(Run(before), last.thread))
    ensures CheckedAt(before, k, last.thread, PhaseOf(Run(before), last.thread).reading)
    ensures RaisedByAnother(before, k, n, last.thread, PhaseOf(Run(before), last.thread).reading)
  {
    MovesBackMeans(before, last);
    EveryInterleavingIsSpaced(before);
    k, n := InsidePauseMeansRaised(before, last.thread);
  }

  /** At no step are two calls under way. */
  ghost predicate OneAtATime(actions: seq<Action>) {
    forall n, t, u :: 0 <= n <= |actions| && UnderWay(Run(actions[..n]), t) && UnderWay(Run(actions[..n]), u) ==> t == u
  }

  /** Two calls were under way at once before the end of the pause moved back. */
  lemma MovesBackOnlyWithTwo(before: seq<Action>, last: Action) returns (n: nat, t: nat, u: nat)
    requires MovesBack(before, last)
    ensures n <= |before| && t != u && UnderWay(Run(before[..n]), t) && UnderWay(Run(before[..n]), u)
  {
    var k;
    k, n := MovesBackOnlyAfterAnother(before, last);
    t, u := last.thread, before[n].thread;
  }

  /** As long as calls do not overlap, the end of the pause never moves back. */
  lemma OneAtATimeNeverMovesBack(before: seq<Action>, last: Action)
    requires RunEnabled(before + [last]) && OneAtATime(before)
    ensures Run(before).rateLimitUntil <= Run(before + [last]).rateLimitUntil
  {
    if MovesBack(before, last) {
      var n, t, u := MovesBackOnlyWithTwo(before, last);
    }
  }

  // ----- When a reading inside a pause passes the check

  /** After step `r` another end was stored last, and it is not after the reading. */
  ghost predicate LoweredSince(actions: seq<Action>, r: nat, reading: real, answer: nat, store: nat) {
    r < store && LastAsked(actions, answer, store) && EndAsked(actions, answer) <= reading
  }

  /** A reading taken inside a pause in step `r` passes the check exactly when the last end stored since
      is not after it. */
  lemma ReadInsidePausePassesExactly(before: seq<Action>, t: nat, r: nat)
    requires RunEnabled(before) && PhaseOf(Run(before), t).HasRead? && LastActed(before, t, r)
    requires PhaseOf(Run(before), t).reading < Run(before[..r]).rateLimitUntil
    ensures !PhaseOf(Step(Run(before), Check(t)), t).Idle? <==>
      exists answer: nat, store: nat ::
        LoweredSince(before, r, PhaseOf(Run(before), t).reading, answer, store)
  {
    var reading := PhaseOf(Run(before), t).reading;
    if Run(before).rateLimitUntil <= reading {
      if NoStoreFrom(before, r) {
        NoStoreKeepsPause(before, r);
      }
      var answer, store := LastStored(before, r);
      LastAskedMeans(before, answer, store);
      ReadStep(before, t, r);
      assert LoweredSince(before, r, reading, answer, store);
    } else if answer: nat, store: nat :| LoweredSince(before, r, reading, answer, store) {
      LastAskedMeans(before, answer, store);
    }
  }

  lemma ReadStep(actions: seq<Action>, t: nat, r: nat)
    requires RunEnabled(actions) && PhaseOf(Run(actions), t).HasRead? && LastActed(actions, t, r)
    ensures actions[r].Read? && Run(actions[..r]).clock == PhaseOf(Run(actions), t).reading
  {
    PhaseSince(actions, t, r);
    Prefixes(actions, r);
  }

  // ----- Instances

  lemma StaysLast(actions: seq<Action>, a: Action, answer: nat, store: nat)
    requires LastAsked(actions, answer, store) && !a.Store?
    ensures LastAsked(actions + [a], answer, store)
  {
    assert (actions + [a])[..store] == actions[..store];
  }

  /** A call in flight is answered with a `Retry-After` and stores the new end at once. */
  lemma AnswerAndStore(actions: seq<Action>, s: State, t: nat, retryAfter: nat) returns (more: seq<Action>)
    requires RunEnabled(actions) && Run(actions) == s && PhaseOf(s, t).InFlight?
    ensures RunEnabled(more) && |more| == |actions| + 2 && more[..|actions|] == actions
    ensures more[|actions|] == Answer(t, Some(retryAfter)) && LastAsked(more, |actions|, |actions| + 1)
    ensures more[|actions| + 1] == Store(t)
    ensures Run(more) == Moved(s, t, Idle).(rateLimitUntil := s.clock + retryAfter as real + RETRY_MARGIN)
  {
    var answer := Answer(t, Some(retryAfter));
    Then(actions, s, answer);
    var answered := actions + [answer];
    Then(answered, Step(s, answer), Store(t));
    more := answered + [Store(t)];
    assert more[..|actions| + 1] == answered && more[..|actions|] == actions;
    assert Step(s, answer).threads[t := Idle] == s.threads[t := Idle];
  }

  /** Two calls of different threads that go out and are answered at the same time: the end of the pause
      moves back whenever the longer `Retry-After` is stored first. */
  lemma PauseMayMoveBack(long: nat, short: nat)
    returns (before: seq<Action>, answer: nat, store: nat, later: nat)
    requires short < long
    ensures MovesBack(before, Store(1)) && OverwritesLater(before, Store(1), answer, store, later)
    ensures before[answer] == Answer(0, Some(long)) && before[later] == Answer(1, Some(short))
  {
    var both := ClosestRun("search", 2.0, 0.0, 0.0);
    var first := AnswerAndStore(both, Run(both), 0, long);
    var s := Run(first);
    assert PhaseOf(s, 1) == InFlight(4.0);
    answer, store, later := |both|, |both| + 1, |first|;
    before := first + [Answer(1, Some(short))];
    Then(first, s, Answer(1, Some(short)));
    StaysLast(first, Answer(1, Some(short)), answer, store);
    Then(before, Step(s, Answer(1, Some(short))), Store(1));
    assert (before + [Store(1)])[..|before|] == before && before[..later] == first && before[..answer] == both;
    LaterAnswerWins(before, Store(1), answer, store, later);
  }

  /** An instance for every `Retry-After`: thread 1 has passed its check when thread 0 is answered and
      stores its end; then thread 1 takes the lock and is dispatched inside that pause. */
  lemma LockMayFallInsidePause(retryAfter: nat)
    returns (before: seq<Action>, k: nat, answer: nat, store: nat)
    ensures RunEnabled(before + [Lock(1)]) && PhaseOf(Run(before), 1).Ready?
    ensures CheckedAt(before, k, 1, PhaseOf(Run(before), 1).reading)
    ensures PausedSince(before, k, 1, answer, store) && before[answer] == Answer(0, Some(retryAfter))
    ensures var s := Run(before + [Lock(1)]);
      |s.log| == |Run(before).log| + 1 && s.log[|s.log| - 1].lockedAt < s.rateLimitUntil
  {
    var ready := LockBeforeRead("search", 2.0, 0.0, 2.0);
    before := AnswerAndStore(ready, Run(ready), 0, retryAfter);
    answer, store := |ready|, |ready| + 1;
    var s := Run(before);
    assert PhaseOf(s, 1) == Ready("search", 2.0, 4.0) && LastCall(s, "search") == 2.0;
    k := CheckStep(before, 1);
    LastAskedMeans(before, answer, store);
    Then(before, s, Lock(1));
  }

  /** Thread 0 was answered first and has not stored its end; thread 1 stored a later one. */
  lemma TwoAnswers() returns (actions: seq<Action>, answer: nat)
    ensures RunEnabled(actions) && LastActed(actions, 0, answer) && actions[answer] == Answer(0, Some(0))
    ensures Run(actions).clock == 4.0 && Run(actions).rateLimitUntil == 134.0
    ensures Run(actions).threads == map[0 := Answered(2.0, 34.0), 1 := Idle]
  {
    var both := ClosestRun("search", 2.0, 0.0, 0.0);
    var s := Run(both);
    answer := |both|;
    Then(both, s, Answer(0, Some(0)));
    var first := both + [Answer(0, Some(0))];
    actions := AnswerAndStore(first, Step(s, Answer(0, Some(0))), 1, 100);
    assert actions[answer] == actions[..|first|][answer] == first[answer];
    assert s.threads[0 := Answered(2.0, 34.0)][1 := Idle] == map[0 := Answered(2.0, 34.0), 1 := Idle];
  }

  /** Then thread 2 reads the clock. */
  lemma ReadAfterAnswers() returns (actions: seq<Action>, r: nat, answer: nat)
    ensures RunEnabled(actions) && LastActed(actions, 0, answer) && actions[answer] == Answer(0, Some(0))
    ensures LastActed(actions, 2, r) && Run(actions[..r]).rateLimitUntil == 134.0
    ensures Run(actions).clock == 50.0 && Run(actions).rateLimitUntil == 134.0
    ensures PhaseOf(Run(actions), 0) == Answered(2.0, 34.0)
    ensures PhaseOf(Run(actions), 2) == HasRead("search", 0.0, 50.0)
  {
    var first;
    first, answer := TwoAnswers();
    var s := Run(first);
    Then(first, s, Tick(50.0));
    var ticked := first + [Tick(50.0)];
    Then(ticked, s.(clock := 50.0), Read(2, "search", 0.0));
    actions, r := ticked + [Read(2, "search", 0.0)], |ticked|;
    assert actions[..r] == ticked;
  }

  /** An instance: a reading taken inside a pause passes the check, because the end of an earlier and
      shorter pause is stored in between. */
  lemma ReadingMayFallInsidePause() returns (before: seq<Action>, r: nat, answer: nat, store: nat)
    ensures RunEnabled(before) && LastActed(before, 2, r) && PhaseOf(Run(before), 2).HasRead?
    ensures PhaseOf(Run(before), 2).reading < Run(before[..r]).rateLimitUntil
    ensures LoweredSince(before, r, PhaseOf(Run(before), 2).reading, answer, store)
    ensures !PhaseOf(Step(Run(before), Check(2)), 2).Idle?
  {
    var read;
    read, r, answer := ReadAfterAnswers();
    store := |read|;
    Then(read, Run(read), Store(0));
    before := read + [Store(0)];
    assert before[..r] == read[..r] && before[..store] == read;
    LastAskedMeans(before, answer, store);
  }
}
