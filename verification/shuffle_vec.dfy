/** The reversible in-place shuffle of a track list (connect/src/shuffle_vec.rs). */
module ShuffleVecs {
  import opened Wrappers
  import opened Shuffles

  /** The value of a `ShuffleVec`: its elements, the stored draws, and where the pinned first
      element stood after the draws were applied. */
  datatype State<T> = State(vec: seq<T>, indices: Option<seq<nat>>, first: Option<nat>) {
    ghost predicate Valid() {
      && (indices.Some? ==> 1 < |vec| && ValidDraws(indices.value, |vec|))
      && (first.Some? ==> indices.Some? && first.value < |vec|)
    }

    /** The vector as it stood before the last shuffle. */
    ghost function Original(): (s: seq<T>)
      requires Valid()
      ensures |s| == |vec|
    {
      if indices.None? then vec
      else Unshuffled(Pinned(vec, first), indices.value, |indices.value|)
    }

    /** The position in `Original()` of the element now at `k`. */
    ghost function Place(k: nat): (j: nat)
      requires Valid() && k < |vec|
      ensures j < |vec|
    {
      if indices.None? then k
      else PlaceUndone(if first.Some? then PlaceSwapped(k, 0, first.value) else k,
                       indices.value, |vec|, |indices.value|)
    }
  }

  ghost function Pinned<T>(s: seq<T>, first: Option<nat>): (r: seq<T>)
    requires first.Some? ==> first.value < |s|
    ensures |r| == |s|
  {
    if first.Some? then Swap(s, 0, first.value) else s
  }

  ghost function PlaceSwapped(k: nat, i: nat, j: nat): nat {
    if k == i then j else if k == j then i else k
  }

  /** Where `Unshuffled` moves the element at position `k`. */
  ghost function PlaceUndone(k: nat, draws: seq<nat>, n: nat, t: nat): (j: nat)
    requires ValidDraws(draws, n) && t <= |draws| && k < n
    ensures j < n
    decreases t
  {
    if t == 0 then k else PlaceUndone(PlaceSwapped(k, draws[t - 1], n - t), draws, n, t - 1)
  }

  ghost predicate IsFirstPosition<T>(s: seq<T>, isFirst: T -> bool, p: Option<nat>) {
    match p
    case None => forall i :: 0 <= i < |s| ==> !isFirst(s[i])
    case Some(k) => k < |s| && isFirst(s[k]) && forall i :: 0 <= i < k ==> !isFirst(s[i])
  }

  ghost function FirstPosition<T>(s: seq<T>, isFirst: T -> bool, from: nat): (p: Option<nat>)
    requires from <= |s| && forall i :: 0 <= i < from ==> !isFirst(s[i])
    ensures IsFirstPosition(s, isFirst, p)
    decreases |s| - from
  {
    if from == |s| then None
    else if isFirst(s[from]) then Some(from)
    else FirstPosition(s, isFirst, from + 1)
  }

  lemma FirstPositionIsUnique<T>(s: seq<T>, isFirst: T -> bool, p: Option<nat>)
    requires IsFirstPosition(s, isFirst, p)
    ensures p == FirstPosition(s, isFirst, 0)
  {
  }

  datatype Op<!T> =
    | Shuffle(draws: seq<nat>, isFirst: T -> bool)
    | Unshuffle
    | Edit(k: nat, x: T)
  {
    /** Draws come from the generator's range; edits address an existing element. */
    ghost predicate Allowed(n: nat) {
      match this
      case Shuffle(draws, _) => n <= 1 || ValidDraws(draws, n)
      case Unshuffle => true
      case Edit(k, _) => k < n
    }
  }

  ghost function Step<T>(st: State<T>, op: Op<T>): State<T>
    requires st.Valid() && op.Allowed(|st.vec|)
  {
    match op
    case Shuffle(draws, isFirst) =>
      if |st.vec| <= 1 then st else
        var shuffled := Shuffled(st.Original(), draws, 0);
        var first := FirstPosition(shuffled, isFirst, 0);
        State(Pinned(shuffled, first), Some(draws), first)
    case Unshuffle => State(st.Original(), None, None)
    case Edit(k, x) => st.(vec := st.vec[k := x])
  }

  lemma StepKeepsValid<T>(st: State<T>, op: Op<T>)
    requires st.Valid() && op.Allowed(|st.vec|)
    ensures Step(st, op).Valid() && |Step(st, op).vec| == |st.vec|
  {
  }

  // ----- Edits made while shuffled land on the element's original position

  lemma SwapEdit<T>(s: seq<T>, i: nat, j: nat, k: nat, x: T)
    requires i < |s| && j < |s| && k < |s|
    ensures Swap(s[k := x], i, j) == Swap(s, i, j)[PlaceSwapped(k, i, j) := x]
    ensures Swap(s, i, j)[PlaceSwapped(k, i, j)] == s[k]
  {
  }

  lemma {:induction false} UndoneEdit<T>(s: seq<T>, draws: seq<nat>, t: nat, k: nat, x: T)
    requires ValidDraws(draws, |s|) && t <= |draws| && k < |s|
    ensures var j := PlaceUndone(k, draws, |s|, t);
      && Unshuffled(s[k := x], draws, t) == Unshuffled(s, draws, t)[j := x]
      && Unshuffled(s, draws, t)[j] == s[k]
    decreases t
  {
    if t == 0 {
    } else {
      var i, d := |s| - t, draws[t - 1];
      SwapEdit(s, d, i, k, x);
      UndoneEdit(Swap(s, d, i), draws, t - 1, PlaceSwapped(k, d, i), x);
    }
  }

  /** An edit of the element at `k` is an edit of the original at `Place(k)`, where it came from. */
  lemma EditLands<T>(st: State<T>, k: nat, x: T)
    requires st.Valid() && k < |st.vec|
    ensures Step(st, Edit(k, x)).Valid()
    ensures Step(st, Edit(k, x)).Original() == st.Original()[st.Place(k) := x]
    ensures st.Original()[st.Place(k)] == st.vec[k]
  {
    if st.indices.Some? {
      var s := Pinned(st.vec, st.first);
      var j := if st.first.Some? then PlaceSwapped(k, 0, st.first.value) else k;
      assert Pinned(st.vec[k := x], st.first) == s[j := x];
      UndoneEdit(s, st.indices.value, |st.indices.value|, j, x);
    }
  }

  // ----- Whole histories

  ghost predicate AllAllowed<T>(ops: seq<Op<T>>, n: nat) {
    forall i :: 0 <= i < |ops| ==> ops[i].Allowed(n)
  }

  ghost function Run<T>(st: State<T>, ops: seq<Op<T>>): (r: State<T>)
    requires st.Valid() && AllAllowed(ops, |st.vec|)
    ensures r.Valid() && |r.vec| == |st.vec|
    decreases |ops|
  {
    if ops == [] then st else
      var before := Run(st, ops[..|ops| - 1]);
      StepKeepsValid(before, ops[|ops| - 1]);
      Step(before, ops[|ops| - 1])
  }

  /** The original vector with only the edits of a history applied, each at its original place. */
  ghost function Edited<T>(st: State<T>, ops: seq<Op<T>>): (r: seq<T>)
    requires st.Valid() && AllAllowed(ops, |st.vec|)
    ensures |r| == |st.vec|
    decreases |ops|
  {
    if ops == [] then st.Original() else
      var front := ops[..|ops| - 1];
      match ops[|ops| - 1]
      case Edit(k, x) => Edited(st, front)[Run(st, front).Place(k) := x]
      case _ => Edited(st, front)
  }

  lemma ShuffleKeepsOriginal<T>(st: State<T>, draws: seq<nat>, isFirst: T -> bool)
    requires st.Valid() && Op.Shuffle(draws, isFirst).Allowed(|st.vec|)
    ensures Step(st, Shuffle(draws, isFirst)).Original() == st.Original()
  {
    if 1 < |st.vec| {
      var shuffled := Shuffled(st.Original(), draws, 0);
      var first := FirstPosition(shuffled, isFirst, 0);
      assert Pinned(Pinned(shuffled, first), first) == shuffled;
      ShuffleRoundTrip(st.Original(), draws);
    }
  }

  /** Shuffling and unshuffling never move the original; edits reach it at the right places. */
  lemma {:induction false} OriginalFollowsEdits<T>(st: State<T>, ops: seq<Op<T>>)
    requires st.Valid() && AllAllowed(ops, |st.vec|)
    ensures Run(st, ops).Original() == Edited(st, ops)
    decreases |ops|
  {
    if ops == [] {
    } else {
      var front, op := ops[..|ops| - 1], ops[|ops| - 1];
      OriginalFollowsEdits(st, front);
      assert op.Allowed(|st.vec|);
      match op
      case Shuffle(draws, isFirst) => ShuffleKeepsOriginal(Run(st, front), draws, isFirst);
      case Unshuffle =>
      case Edit(k, x) => EditLands(Run(st, front), k, x);
    }
  }

  lemma {:induction false} NoEdits<T>(st: State<T>, ops: seq<Op<T>>)
    requires st.Valid() && AllAllowed(ops, |st.vec|)
    requires forall i :: 0 <= i < |ops| ==> !ops[i].Edit?
    ensures Edited(st, ops) == st.Original()
    decreases |ops|
  {
    if ops == [] {
    } else {
      NoEdits(st, ops[..|ops| - 1]);
    }
  }

  /** After any history a final unshuffle gives back the source with just the edits made to it. */
  lemma UnshuffleRestores<T>(source: seq<T>, ops: seq<Op<T>>)
    requires AllAllowed(ops, |source|)
    ensures Step(Run(State(source, None, None), ops), Unshuffle).vec == Edited(State(source, None, None), ops)
    ensures (forall i :: 0 <= i < |ops| ==> !ops[i].Edit?) ==>
      Step(Run(State(source, None, None), ops), Unshuffle).vec == source
  {
    var st := State(source, None, None);
    OriginalFollowsEdits(st, ops);
    if forall i :: 0 <= i < |ops| ==> !ops[i].Edit? {
      NoEdits(st, ops);
    }
  }

  /** A reshuffle forgets earlier shuffles: after any two histories that made the same edits, wherever
      the elements stood when they were edited, it gives the same vector. */
  lemma ReshuffleForgets<T>(a: seq<T>, opsA: seq<Op<T>>, b: seq<T>, opsB: seq<Op<T>>,
                            draws: seq<nat>, isFirst: T -> bool)
    requires AllAllowed(opsA, |a|) && AllAllowed(opsB, |b|) && Op.Shuffle(draws, isFirst).Allowed(|a|)
    requires Edited(State(a, None, None), opsA) == Edited(State(b, None, None), opsB)
    ensures |a| == |b|
    ensures Step(Run(State(a, None, None), opsA), Shuffle(draws, isFirst)) ==
            Step(Run(State(b, None, None), opsB), Shuffle(draws, isFirst))
  {
    OriginalFollowsEdits(State(a, None, None), opsA);
    OriginalFollowsEdits(State(b, None, None), opsB);
  }

  lemma SameElements<T>(s: seq<T>, r: seq<T>, x: T)
    requires multiset(s) == multiset(r)
    ensures x in s <==> x in r
  {
    assert x in s <==> x in multiset(s);
    assert x in r <==> x in multiset(r);
  }

  /** The vector is the plain order with its first match swapped to the front. */
  ghost predicate PinsFirstMatch<T>(plain: seq<T>, isFirst: T -> bool, vec: seq<T>, k: nat) {
    && k < |plain| && isFirst(plain[k]) && (forall i :: 0 <= i < k ==> !isFirst(plain[i]))
    && |vec| == |plain| && vec[0] == plain[k] && vec[k] == plain[0]
    && forall i :: 0 < i < |plain| && i != k ==> vec[i] == plain[i]
  }

  /** If any element matches, the first match in the order that the draws give is pinned: it changes
      places with the first element. Apart from that swap the order is the one the draws alone give. */
  lemma FirstIsPinned<T>(st: State<T>, draws: seq<nat>, isFirst: T -> bool)
    requires st.Valid() && 1 < |st.vec| && ValidDraws(draws, |st.vec|)
    ensures var r, plain := Step(st, Shuffle(draws, isFirst)), Shuffled(st.Original(), draws, 0);
      && multiset(plain) == multiset(st.Original())
      && (if exists x :: x in st.Original() && isFirst(x)
          then exists k: nat :: PinsFirstMatch(plain, isFirst, r.vec, k)
          else r.vec == plain)
  {
    var s := st.Original();
    var plain := Shuffled(s, draws, 0);
    var first := FirstPosition(plain, isFirst, 0);
    ShuffleKeepsElements(s, draws, 0);
    if first.Some? {
      SameElements(s, plain, plain[first.value]);
      assert PinsFirstMatch(plain, isFirst, Pinned(plain, first), first.value);
    } else {
      forall x | x in s ensures !isFirst(x) {
        SameElements(s, plain, x);
      }
    }
  }

  class ShuffleVec<T> {
    var vec: array<T>
    var indices: Option<seq<nat>>
    var originalFirstPosition: Option<nat>

    ghost function View(): State<T>
      reads this, vec
    {
      State(vec[..], indices, originalFirstPosition)
    }

    constructor From(source: seq<T>)
      ensures fresh(vec) && View() == State(source, None, None)
    {
      vec := new T[|source|](i requires 0 <= i < |source| => source[i]);
      indices, originalFirstPosition := None, None;
      new;
      assert vec[..] == source;
    }

    method SwapElements(i: nat, j: nat)
      requires i < vec.Length && j < vec.Length
      modifies vec
      ensures vec[..] == Swap(old(vec[..]), i, j)
    {
      vec[i], vec[j] := vec[j], vec[i];
    }

    /** The swaps of `shuffle_with_rng`. */
    method SwapByDraws(draws: seq<nat>)
      requires ValidDraws(draws, vec.Length)
      modifies vec
      ensures vec[..] == Shuffled(old(vec[..]), draws, 0)
    {
      ghost var original := vec[..];
      var i := vec.Length - 1;
      while i > 0
        invariant 0 <= i < vec.Length
        invariant Shuffled(vec[..], draws, vec.Length - 1 - i) == Shuffled(original, draws, 0)
      {
        ShuffleOne(vec[..], draws, vec.Length - 1 - i);
        SwapElements(i, draws[vec.Length - 1 - i]);
        i := i - 1;
      }
    }

    method ShuffleWithRng(draws: seq<nat>, isFirst: T -> bool)
      requires View().Valid() && Op<T>.Shuffle(draws, isFirst).Allowed(vec.Length)
      modifies this, vec
      ensures vec == old(vec) && View().Valid()
      ensures View() == Step(old(View()), Shuffle(draws, isFirst))
    {
      if vec.Length <= 1 {
        return;
      }
      if indices.Some? {
        Unshuffle();
      }
      SwapByDraws(draws);
      indices := Some(draws);
      originalFirstPosition := Position(isFirst);
      if originalFirstPosition.Some? {
        SwapElements(0, originalFirstPosition.value);
      }
    }

    /** An assignment to one element through `DerefMut`. */
    method Set(k: nat, x: T)
      requires View().Valid() && k < vec.Length
      modifies vec
      ensures View().Valid() && View() == Step(old(View()), Edit(k, x))
      ensures View().Original() == old(View().Original())[old(View().Place(k)) := x]
    {
      EditLands(View(), k, x);
      vec[k] := x;
    }

    /** `Iterator::position`. */
    method Position(isFirst: T -> bool) returns (p: Option<nat>)
      ensures IsFirstPosition(vec[..], isFirst, p)
      ensures p == FirstPosition(vec[..], isFirst, 0)
    {
      for i := 0 to vec.Length
        invariant forall k :: 0 <= k < i ==> !isFirst(vec[k])
      {
        if isFirst(vec[i]) {
          FirstPositionIsUnique(vec[..], isFirst, Some(i));
          return Some(i);
        }
      }
      FirstPositionIsUnique(vec[..], isFirst, None);
      return None;
    }

    /** The swaps of `unshuffle`. */
    method UndoDraws(draws: seq<nat>)
      requires ValidDraws(draws, vec.Length)
      modifies vec
      ensures vec[..] == Unshuffled(old(vec[..]), draws, |draws|)
    {
      ghost var original := Unshuffled(vec[..], draws, |draws|);
      for i := 1 to vec.Length
        invariant Unshuffled(vec[..], draws, vec.Length - i) == original
      {
        var at := vec.Length - i - 1;
        if |draws| <= at {
          assert false;
        } else {
          UndoOne(vec[..], draws, at + 1);
          SwapElements(draws[at], i);
        }
      }
    }

    method Unshuffle()
      requires View().Valid()
      modifies this, vec
      ensures vec == old(vec) && View().Valid()
      ensures View() == Step(old(View()), Op.Unshuffle)
    {
      if indices.None? {
        return;
      }
      var draws := indices.value;
      indices := None;
      if originalFirstPosition.Some? {
        SwapElements(0, originalFirstPosition.value);
        originalFirstPosition := None;
      }
      UndoDraws(draws);
    }
  }
}
