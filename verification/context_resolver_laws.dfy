/** What the queue of contexts to resolve does with each entry, spelled out
    (connect/src/context_resolver.rs, connect/src/spirc.rs). */
module ContextResolverLaws {
  import opened Wrappers
  import opened ContextResolvers
  import opened ContextResolverRuns

  // ----- Which uri an entry is resolved with

  predicate UsableUri(uri: string) {
    |uri| > 0 && !("spotify:search" <= uri)
  }

  /** The entry's own uri unless it is empty or a search, then the uri of the first track of the first
      page, then the fallback. */
  lemma ResolveUriExactly(r: ResolveContext)
    ensures r.resolve.Uri? ==>
      r.ResolveUri() == if UsableUri(r.resolve.uri) then Some(r.resolve.uri) else r.fallback
    ensures r.resolve.Full? ==>
      var ctx := r.resolve.context;
      r.ResolveUri() ==
        if ctx.uri.Some? && UsableUri(ctx.uri.value) then ctx.uri
        else if |ctx.pages| > 0 && |ctx.pages[0]| > 0 && ctx.pages[0][0].Some? then ctx.pages[0][0]
        else r.fallback
  {
  }

  // ----- Adding

  /** An entry is refused for an hour after it failed, and only then: in the end it is queued once, its
      mark is gone unless it was refused, and nothing else changes. */
  lemma AddedMeans(st: State, r: ResolveContext, now: int)
    ensures var refused := r in st.unavailable && now - st.unavailable[r] <= 3_600_000;
      var after := Added(st, r, now);
      && after.queue == (if refused || r in st.queue then st.queue else st.queue + [r])
      && (r in after.unavailable <==> refused)
      && forall x :: x != r || refused ==>
           (x in after.unavailable <==> x in st.unavailable) &&
           (x in after.unavailable ==> after.unavailable[x] == st.unavailable[x])
  {
  }

  ghost predicate AllFresh(st: State, rs: seq<ResolveContext>, now: int) {
    && NoDuplicates(rs)
    && forall r :: r in rs ==> r !in st.queue && !(r in st.unavailable && now - st.unavailable[r] <= 3_600_000)
  }

  /** New entries are queued in the order of the list. */
  lemma {:induction false} AddedAllInOrder(st: State, rs: seq<ResolveContext>, now: int)
    requires AllFresh(st, rs, now)
    ensures AddedAll(st, rs, now).queue == st.queue + rs
    ensures forall x :: x !in rs ==>
      (x in AddedAll(st, rs, now).unavailable <==> x in st.unavailable) &&
      (x in st.unavailable && x !in rs ==> AddedAll(st, rs, now).unavailable[x] == st.unavailable[x])
    decreases |rs|
  {
    if rs == [] {
    } else {
      var front, last := rs[..|rs| - 1], rs[|rs| - 1];
      AddedAllInOrder(st, front, now);
      LastIsNew(rs);
      AddedMeans(AddedAll(st, front, now), last, now);
      assert rs == front + [last];
    }
  }

  lemma LastIsNew(rs: seq<ResolveContext>)
    requires rs != [] && NoDuplicates(rs)
    ensures rs[|rs| - 1] !in rs[..|rs| - 1]
  {
  }

  /** The uris that a context leaves to append are queued as plain appended default contexts. */
  lemma AppendedExactly(uris: seq<string>, i: nat)
    requires i < |uris|
    ensures var r := AppendContexts(uris)[i];
      && r.resolve == Uri(uris[i]) && r.fallback == None && r.update == Default && r.action == Append
  {
  }

  // ----- Dropping

  /** Entry `k` is the next that can be resolved. */
  predicate IsNext(queue: Queue, k: nat) {
    && k < |queue| && queue[k].ResolveUri().Some?
    && forall i :: 0 <= i < k ==> queue[i].ResolveUri().None?
  }

  lemma NextIsFirstValid(queue: Queue, k: nat)
    requires IsNext(queue, k)
    ensures FirstValid(queue, 0) == k
  {
  }

  /** What is used is dropped with the unusable entries before it; if nothing is usable, just the first
      entry is dropped. */
  lemma RemovedExactly(st: State)
    ensures Removed(st).unavailable == st.unavailable
    ensures forall k: nat :: IsNext(st.queue, k) ==> Removed(st).queue == st.queue[k + 1..]
    ensures (forall r :: r in st.queue ==> r.ResolveUri().None?) ==>
      Removed(st).queue == if |st.queue| > 0 then st.queue[1..] else []
  {
    forall k: nat | IsNext(st.queue, k) ensures Removed(st).queue == st.queue[k + 1..] {
      NextIsFirstValid(st.queue, k);
    }
  }

  /** A failure marks the next entry with the time and drops it, and changes no other mark. */
  lemma FailedExactly(st: State, now: int, k: nat, x: ResolveContext)
    requires IsNext(st.queue, k)
    ensures var after := Handled(st, Failed, now);
      && after.queue == st.queue[k + 1..]
      && st.queue[k] in after.unavailable && after.unavailable[st.queue[k]] == now
      && (x != st.queue[k] ==> (x in after.unavailable <==> x in st.unavailable) &&
                               (x in st.unavailable ==> after.unavailable[x] == st.unavailable[x]))
  {
    NextIsFirstValid(st.queue, k);
    RemovedExactly(Marked(st, now));
  }

  // ----- Finishing

  lemma {:induction false} CountIsOne(queue: Queue, k: nat, update: ContextType)
    requires k < |queue| && queue[k].update == update
    ensures CountOf(queue, update) == 1 <==> forall i :: 0 <= i < |queue| && i != k ==> queue[i].update != update
    decreases |queue|
  {
    var n := |queue| - 1;
    var front := queue[..n];
    if k == n {
      CountZero(front, update);
      assert forall i :: 0 <= i < n ==> queue[i] == front[i];
    } else {
      CountIsOne(front, k, update);
      assert forall i :: 0 <= i < n ==> queue[i] == front[i];
      CountPositive(front, k, update);
    }
  }

  lemma CountPositive(queue: Queue, k: nat, update: ContextType)
    requires k < |queue| && queue[k].update == update
    ensures CountOf(queue, update) > 0
  {
    CountZero(queue, update);
    assert queue[k] in queue;
  }

  /** The state is set up exactly when the next entry is the only one of its type in the queue, and its
      type is autoplay or the default context is active. */
  lemma FinishesExactly(queue: Queue, active: ContextType)
    ensures Finishes(queue, active) <==>
      exists k: nat :: IsNext(queue, k) && (queue[k].update == Autoplay || active == Default) &&
        forall i :: 0 <= i < |queue| && i != k ==> queue[i].update != queue[k].update
  {
    var next := FirstValid(queue, 0);
    if next < |queue| {
      CountIsOne(queue, next, queue[next].update);
      assert IsNext(queue, next);
    }
    forall k: nat | IsNext(queue, k) ensures k == next {
      NextIsFirstValid(queue, k);
    }
  }

  /** A context that came back adds what it leaves to append and, only if it finishes, the autoplay
      request; then the entry is dropped. */
  lemma FetchedExactly(st: State, outcome: Outcome, now: int, k: nat)
    requires outcome.Fetched? && IsNext(st.queue, k)
    ensures var more := if outcome.remaining.Some?
                        then AddedAll(st, AppendContexts(outcome.remaining.value), now) else st;
      var all := if outcome.topUp.Some? && Finishes(more.queue, outcome.active)
                 then Added(more, outcome.topUp.value, now) else more;
      && st.queue <= all.queue
      && Handled(st, outcome, now).queue == all.queue[k + 1..]
      && Handled(st, outcome, now).unavailable == all.unavailable
  {
    var before := BeforeDrop(st, outcome, now);
    GrownFrom(st, outcome, now);
    assert IsNext(before.queue, k);
    RemovedExactly(before);
  }

  lemma {:induction false} AddedAllGrows(st: State, rs: seq<ResolveContext>, now: int)
    ensures st.queue <= AddedAll(st, rs, now).queue
    decreases |rs|
  {
    if rs == [] {
    } else {
      AddedAllGrows(st, rs[..|rs| - 1], now);
    }
  }

  lemma GrownFrom(st: State, outcome: Outcome, now: int)
    requires outcome.Fetched?
    ensures st.queue <= BeforeDrop(st, outcome, now).queue
  {
    if outcome.remaining.Some? {
      AddedAllGrows(st, AppendContexts(outcome.remaining.value), now);
    }
  }
}
