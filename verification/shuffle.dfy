/** What shuffling and unshuffling do to a vector (connect/src/shuffle_vec.rs).

    The random generator is an arbitrary sequence of draws: the draw for index `i` is at most `i`,
    which is all that `random_range(0..i + 1)` promises. */
module Shuffles {
  function Swap<T>(s: seq<T>, i: nat, j: nat): (r: seq<T>)
    requires i < |s| && j < |s|
    ensures |r| == |s|
  {
    s[i := s[j]][j := s[i]]
  }

  /** The draws for the indices `n - 1`, `n - 2`, ..., 1, in that order. */
  ghost predicate ValidDraws(draws: seq<nat>, n: nat) {
    |draws| + 1 == n && forall t :: 0 <= t < |draws| ==> draws[t] <= n - 1 - t
  }

  /** The swaps from the `t`-th on, as `shuffle_with_rng` makes them. */
  ghost function Shuffled<T>(s: seq<T>, draws: seq<nat>, t: nat): (r: seq<T>)
    requires ValidDraws(draws, |s|) && t <= |draws|
    ensures |r| == |s|
    decreases |draws| - t
  {
    if t == |draws| then s else Shuffled(Swap(s, |s| - 1 - t, draws[t]), draws, t + 1)
  }

  /** The first `t` swaps undone, the last of them first, as `unshuffle` does. */
  ghost function Unshuffled<T>(s: seq<T>, draws: seq<nat>, t: nat): (r: seq<T>)
    requires ValidDraws(draws, |s|) && t <= |draws|
    ensures |r| == |s|
    decreases t
  {
    if t == 0 then s else Unshuffled(Swap(s, draws[t - 1], |s| - t), draws, t - 1)
  }

  lemma ShuffleOne<T>(s: seq<T>, draws: seq<nat>, t: nat)
    requires ValidDraws(draws, |s|) && t < |draws|
    ensures Shuffled(s, draws, t) == Shuffled(Swap(s, |s| - 1 - t, draws[t]), draws, t + 1)
  {
  }

  lemma UndoOne<T>(s: seq<T>, draws: seq<nat>, t: nat)
    requires ValidDraws(draws, |s|) && 0 < t <= |draws|
    ensures Unshuffled(s, draws, t) == Unshuffled(Swap(s, draws[t - 1], |s| - t), draws, t - 1)
  {
  }

  lemma SwapTwice<T>(s: seq<T>, i: nat, j: nat)
    requires i < |s| && j < |s|
    ensures Swap(Swap(s, i, j), j, i) == s && Swap(Swap(s, i, j), i, j) == s
  {
  }

  lemma {:induction false} UnshuffleUndoes<T>(s: seq<T>, draws: seq<nat>, t: nat)
    requires ValidDraws(draws, |s|) && t <= |draws|
    ensures Unshuffled(Shuffled(s, draws, t), draws, |draws|) == Unshuffled(s, draws, t)
    decreases |draws| - t
  {
    if t == |draws| {
    } else {
      var i := |s| - 1 - t;
      UnshuffleUndoes(Swap(s, i, draws[t]), draws, t + 1);
      SwapTwice(s, i, draws[t]);
    }
  }

  lemma {:induction false} ShuffleRedoes<T>(s: seq<T>, draws: seq<nat>, t: nat)
    requires ValidDraws(draws, |s|) && t <= |draws|
    ensures Shuffled(Unshuffled(s, draws, t), draws, 0) == Shuffled(s, draws, t)
    decreases t
  {
    if t == 0 {
    } else {
      var i := |s| - t;
      ShuffleRedoes(Swap(s, draws[t - 1], i), draws, t - 1);
      SwapTwice(s, draws[t - 1], i);
    }
  }

  /** Unshuffling and shuffling with the same draws are inverse to each other. */
  lemma ShuffleRoundTrip<T>(s: seq<T>, draws: seq<nat>)
    requires ValidDraws(draws, |s|)
    ensures Unshuffled(Shuffled(s, draws, 0), draws, |draws|) == s
    ensures Shuffled(Unshuffled(s, draws, |draws|), draws, 0) == s
  {
    UnshuffleUndoes(s, draws, 0);
    ShuffleRedoes(s, draws, |draws|);
  }

  // ----- Draw sequences and orders correspond one to one

  lemma SwapMultiset<T>(s: seq<T>, i: nat, j: nat)
    requires i < |s| && j < |s|
    ensures multiset(Swap(s, i, j)) == multiset(s)
  {
  }

  lemma {:induction false} ShuffleKeepsElements<T>(s: seq<T>, draws: seq<nat>, t: nat)
    requires ValidDraws(draws, |s|) && t <= |draws|
    ensures multiset(Shuffled(s, draws, t)) == multiset(s)
    decreases |draws| - t
  {
    if t == |draws| {
    } else {
      var i := |s| - 1 - t;
      ShuffleKeepsElements(Swap(s, i, draws[t]), draws, t + 1);
      SwapMultiset(s, i, draws[t]);
    }
  }

  /** Positions above `|s| - 1 - t` are final once the first `t` swaps are done. */
  lemma {:induction false} FinalAbove<T>(s: seq<T>, draws: seq<nat>, t: nat, k: nat)
    requires ValidDraws(draws, |s|) && t <= |draws| && |s| - 1 - t < k < |s|
    ensures Shuffled(s, draws, t)[k] == s[k]
    decreases |draws| - t
  {
    if t == |draws| {
    } else {
      FinalAbove(Swap(s, |s| - 1 - t, draws[t]), draws, t + 1, k);
    }
  }

  ghost predicate Distinct<T(!new)>(s: seq<T>) {
    forall i, j :: 0 <= i < j < |s| ==> s[i] != s[j]
  }

  /** A draw says which element goes to its final place. */
  lemma DrawnElement<T>(s: seq<T>, draws: seq<nat>, t: nat)
    requires ValidDraws(draws, |s|) && t < |draws|
    ensures draws[t] < |s| && Shuffled(s, draws, t)[|s| - 1 - t] == s[draws[t]]
  {
    var i := |s| - 1 - t;
    FinalAbove(Swap(s, i, draws[t]), draws, t + 1, i);
  }

  lemma DistinctAt<T(!new)>(s: seq<T>, i: nat, j: nat)
    requires Distinct(s) && i < |s| && j < |s| && s[i] == s[j]
    ensures i == j
  {
  }

  lemma SwapKeepsDistinct<T(!new)>(s: seq<T>, i: nat, j: nat)
    requires Distinct(s) && i < |s| && j < |s|
    ensures Distinct(Swap(s, i, j))
  {
  }

  lemma SameFrom(d: seq<nat>, e: seq<nat>, t: nat)
    requires t < |d| == |e| && d[t] == e[t] && d[t + 1..] == e[t + 1..]
    ensures d[t..] == e[t..]
  {
    assert d[t..] == [d[t]] + d[t + 1..] && e[t..] == [e[t]] + e[t + 1..];
  }

  /** Different draws give different orders. */
  lemma {:induction false} DifferentDrawsDiffer<T(!new)>(s: seq<T>, d: seq<nat>, e: seq<nat>, t: nat)
    requires Distinct(s) && ValidDraws(d, |s|) && ValidDraws(e, |s|) && t <= |d|
    requires Shuffled(s, d, t) == Shuffled(s, e, t)
    ensures d[t..] == e[t..]
    decreases |d| - t
  {
    if t == |d| {
    } else {
      DrawnElement(s, d, t);
      DrawnElement(s, e, t);
      DistinctAt(s, d[t], e[t]);
      SwapKeepsDistinct(s, |s| - 1 - t, d[t]);
      DifferentDrawsDiffer(Swap(s, |s| - 1 - t, d[t]), d, e, t + 1);
      SameFrom(d, e, t);
    }
  }

  lemma MultisetCancel<T>(a: multiset<T>, b: multiset<T>, c: multiset<T>)
    requires a + c == b + c
    ensures a == b
  {
    forall x: T ensures a[x] == b[x] {
      assert (a + c)[x] == a[x] + c[x] && (b + c)[x] == b[x] + c[x];
    }
  }

  ghost predicate AgreeFrom<T>(s: seq<T>, p: seq<T>, k: nat)
    requires |s| == |p|
  {
    forall j :: k <= j < |s| ==> s[j] == p[j]
  }

  /** Two vectors with the same elements that agree above `i` hold the same elements up to `i`. */
  lemma FindBelow<T>(s: seq<T>, p: seq<T>, i: nat) returns (j: nat)
    requires multiset(s) == multiset(p) && i < |s| == |p|
    requires AgreeFrom(s, p, i + 1)
    ensures j <= i && s[j] == p[i]
  {
    var sLow, pLow, high := s[..i + 1], p[..i + 1], s[i + 1..];
    assert s == sLow + high && p == pLow + high;
    MultisetCancel(multiset(sLow), multiset(pLow), multiset(high));
    assert p[i] == pLow[i];
    assert p[i] in multiset(sLow);
    j :| 0 <= j < |sLow| && sLow[j] == p[i];
  }

  /** The swaps from the `t`-th on do not depend on earlier draws. */
  lemma {:induction false} EarlierDraw<T>(s: seq<T>, draws: seq<nat>, t: nat, k: nat, j: nat)
    requires ValidDraws(draws, |s|) && k < t <= |draws| && j <= |s| - 1 - k
    ensures Shuffled(s, draws[k := j], t) == Shuffled(s, draws, t)
    decreases |draws| - t
  {
    if t == |draws| {
    } else {
      EarlierDraw(Swap(s, |s| - 1 - t, draws[t]), draws, t + 1, k, j);
    }
  }

  lemma AllAgree<T>(s: seq<T>, p: seq<T>)
    requires 0 < |s| == |p| && AgreeFrom(s, p, 1) && s[0] == p[0]
    ensures s == p
  {
  }

  lemma AgreesAfterSwap<T>(s: seq<T>, p: seq<T>, i: nat, j: nat)
    requires j <= i < |s| == |p| && s[j] == p[i] && AgreeFrom(s, p, i + 1)
    ensures AgreeFrom(Swap(s, i, j), p, i)
  {
  }

  /** Draws whose swaps from the `t`-th on lead from `s` to `p`. */
  lemma {:induction false} DrawsFor<T>(s: seq<T>, p: seq<T>, t: nat) returns (draws: seq<nat>)
    requires multiset(s) == multiset(p) && t < |s| == |p|
    requires AgreeFrom(s, p, |s| - t)
    ensures ValidDraws(draws, |s|)
    ensures Shuffled(s, draws, t) == p
    decreases |s| - t
  {
    var i := |s| - 1 - t;
    var j := FindBelow(s, p, i);
    if i == 0 {
      draws := seq(t, _ => 0);
      AllAgree(s, p);
    } else {
      SwapMultiset(s, i, j);
      AgreesAfterSwap(s, p, i, j);
      var rest := DrawsFor(Swap(s, i, j), p, t + 1);
      draws := rest[t := j];
      EarlierDraw(Swap(s, i, j), rest, t + 1, t, j);
      ShuffleOne(s, draws, t);
    }
  }

  /** Every order of the elements is reached by some draws. */
  lemma EveryOrderIsReached<T>(s: seq<T>, p: seq<T>)
    requires multiset(s) == multiset(p) && 0 < |s|
    ensures exists draws :: ValidDraws(draws, |s|) && Shuffled(s, draws, 0) == p
  {
    assert |multiset(s)| == |s| && |multiset(p)| == |p|;
    var draws := DrawsFor(s, p, 0);
  }

  /** For distinct elements, draws and orders correspond one to one: every rearrangement comes
      from exactly one draw sequence, and every draw sequence yields a rearrangement. */
  lemma DrawsAreOrders<T(!new)>(s: seq<T>, p: seq<T>)
    requires Distinct(s) && 0 < |s|
    ensures multiset(p) == multiset(s) <==>
      exists draws :: ValidDraws(draws, |s|) && Shuffled(s, draws, 0) == p
    ensures forall d, e ::
      (ValidDraws(d, |s|) && ValidDraws(e, |s|) && Shuffled(s, d, 0) == p == Shuffled(s, e, 0)) ==> d == e
  {
    if multiset(p) == multiset(s) {
      EveryOrderIsReached(s, p);
    }
    if exists draws :: ValidDraws(draws, |s|) && Shuffled(s, draws, 0) == p {
      var draws :| ValidDraws(draws, |s|) && Shuffled(s, draws, 0) == p;
      ShuffleKeepsElements(s, draws, 0);
    }
    forall d, e | ValidDraws(d, |s|) && ValidDraws(e, |s|) && Shuffled(s, d, 0) == p == Shuffled(s, e, 0)
      ensures d == e
    {
      DifferentDrawsDiffer(s, d, e, 0);
      assert d[0..] == d && e[0..] == e;
    }
  }
}
