/** Vectors of ranges and the sets of byte offsets they denote (audio/src/range_set.rs).

    The vector inside a `RangeSet` denotes a finite set of offsets and is kept in a canonical
    form: no range is empty, ranges are sorted, and consecutive ranges never touch. */
module RangeVectors {

  /** The largest value of the source's `usize` on a 64-bit target. */
  const USIZE_MAX: nat := 0xFFFF_FFFF_FFFF_FFFF

  datatype Range = Range(start: nat, length: nat) {
    function End(): nat {
      start + length
    }

    predicate Has(x: nat) {
      start <= x < End()
    }

    ghost function Offsets(): set<nat> {
      set x: nat | x < End() && Has(x)
    }
  }

  /** Canonical form of the first `n` ranges. */
  ghost predicate CanonicalTo(rs: seq<Range>, n: nat)
    requires n <= |rs|
  {
    n > 0 ==>
      && 0 < rs[n - 1].length && rs[n - 1].End() <= USIZE_MAX
      && (n > 1 ==> rs[n - 2].End() < rs[n - 1].start)
      && CanonicalTo(rs, n - 1)
  }

  /** Canonical form; `CanonicalMeans` says the same with quantifiers. */
  ghost predicate Canonical(rs: seq<Range>) {
    CanonicalTo(rs, |rs|)
  }

  ghost function MembersTo(rs: seq<Range>, n: nat): set<nat>
    requires n <= |rs|
  {
    if n == 0 then {} else MembersTo(rs, n - 1) + rs[n - 1].Offsets()
  }

  /** The set of offsets a vector of ranges denotes. */
  ghost function Members(rs: seq<Range>): set<nat> {
    MembersTo(rs, |rs|)
  }

  lemma {:induction false} MembersCover(rs: seq<Range>, n: nat, x: nat)
    requires n <= |rs|
    ensures x in MembersTo(rs, n) <==> exists i :: 0 <= i < n && rs[i].Has(x)
  {
    if n == 0 {
    } else {
      MembersCover(rs, n - 1, x);
    }
  }

  ghost predicate Separated(rs: seq<Range>, n: nat)
    requires n <= |rs|
  {
    && (forall i :: 0 <= i < n ==> 0 < rs[i].length && rs[i].End() <= USIZE_MAX)
    && (forall i, j :: 0 <= i < j < n ==> rs[i].End() < rs[j].start)
  }

  /** Canonical form: non-empty ranges, each ending strictly before every later one starts. */
  lemma {:induction false} CanonicalMeans(rs: seq<Range>, n: nat)
    requires n <= |rs|
    ensures CanonicalTo(rs, n) <==> Separated(rs, n)
  {
    if n == 0 {
    } else {
      CanonicalMeans(rs, n - 1);
      if CanonicalTo(rs, n) {
        forall i | 0 <= i < n - 1 ensures rs[i].End() < rs[n - 1].start {
          assert i < n - 2 ==> rs[i].End() < rs[n - 2].start;
        }
      }
    }
  }

  lemma At(rs: seq<Range>, i: nat)
    requires Canonical(rs) && i < |rs|
    ensures 0 < rs[i].length && rs[i].End() <= USIZE_MAX
  {
    CanonicalMeans(rs, |rs|);
  }

  lemma Before(rs: seq<Range>, i: nat, j: nat)
    requires Canonical(rs) && i < j < |rs|
    ensures rs[i].End() < rs[j].start
  {
    CanonicalMeans(rs, |rs|);
  }

  lemma {:induction false} SamePrefix(a: seq<Range>, b: seq<Range>, n: nat)
    requires n <= |a| && n <= |b|
    requires forall i :: 0 <= i < n ==> a[i] == b[i]
    ensures CanonicalTo(a, n) == CanonicalTo(b, n)
    ensures MembersTo(a, n) == MembersTo(b, n)
  {
    if n == 0 {
    } else {
      SamePrefix(a, b, n - 1);
    }
  }

  lemma {:induction false} CanonicalDown(rs: seq<Range>, k: nat, n: nat)
    requires k <= n <= |rs| && CanonicalTo(rs, n)
    ensures CanonicalTo(rs, k)
  {
    if k == n {
    } else {
      CanonicalDown(rs, k, n - 1);
    }
  }

  lemma CanonicalPrefix(rs: seq<Range>, n: nat)
    requires Canonical(rs) && n <= |rs|
    ensures Canonical(rs[..n])
  {
    CanonicalDown(rs, n, |rs|);
    SamePrefix(rs, rs[..n], n);
  }

  lemma {:induction false} CanonicalSuffixTo(a: seq<Range>, b: seq<Range>, k: nat)
    requires k <= |b| && CanonicalTo(a + b, |a| + k)
    ensures CanonicalTo(b, k)
  {
    if k == 0 {
    } else {
      CanonicalSuffixTo(a, b, k - 1);
    }
  }

  lemma CanonicalSuffix(rs: seq<Range>, n: nat)
    requires Canonical(rs) && n <= |rs|
    ensures Canonical(rs[n..])
  {
    assert rs == rs[..n] + rs[n..];
    CanonicalSuffixTo(rs[..n], rs[n..], |rs| - n);
  }

  ghost predicate Gap(a: seq<Range>, b: seq<Range>) {
    a != [] && b != [] ==> a[|a| - 1].End() < b[0].start
  }

  lemma {:induction false} ConcatTo(a: seq<Range>, b: seq<Range>, k: nat)
    requires k <= |b|
    ensures Canonical(a) && CanonicalTo(b, k) && Gap(a, b) ==> CanonicalTo(a + b, |a| + k)
    ensures MembersTo(a + b, |a| + k) == Members(a) + MembersTo(b, k)
  {
    if k == 0 {
      SamePrefix(a, a + b, |a|);
    } else {
      ConcatTo(a, b, k - 1);
      assert (a + b)[|a| + k - 1] == b[k - 1];
      assert k > 1 ==> (a + b)[|a| + k - 2] == b[k - 2];
    }
  }

  lemma CanonicalConcat(a: seq<Range>, b: seq<Range>)
    requires Canonical(a) && Canonical(b) && Gap(a, b)
    ensures Canonical(a + b)
  {
    ConcatTo(a, b, |b|);
  }

  lemma MembersConcat(a: seq<Range>, b: seq<Range>)
    ensures Members(a + b) == Members(a) + Members(b)
  {
    ConcatTo(a, b, |b|);
  }

  lemma Single(r: Range)
    ensures Members([r]) == r.Offsets()
    ensures 0 < r.length && r.End() <= USIZE_MAX <==> Canonical([r])
  {
    assert MembersTo([r], 0) == {} && CanonicalTo([r], 0);
  }

  lemma MembersHeadTail(rs: seq<Range>)
    requires rs != []
    ensures Members(rs) == rs[0].Offsets() + Members(rs[1..])
  {
    assert rs == [rs[0]] + rs[1..];
    MembersConcat([rs[0]], rs[1..]);
    Single(rs[0]);
  }

  /** Every member lies at or after the start of the first range and before the end of the last. */
  lemma MembersBounds(rs: seq<Range>, x: nat)
    requires Canonical(rs) && x in Members(rs)
    ensures rs != [] && rs[0].start <= x < rs[|rs| - 1].End()
  {
    MembersCover(rs, |rs|, x);
    var i :| 0 <= i < |rs| && rs[i].Has(x);
    if 0 < i { Before(rs, 0, i); }
    if i < |rs| - 1 { Before(rs, i, |rs| - 1); }
  }

  // ----- Canonical form is unique and every set of offsets has one

  /** The offset just past the first range is missing, everything inside it is there. */
  lemma FirstEnd(rs: seq<Range>)
    requires Canonical(rs) && rs != []
    ensures rs[0].End() !in Members(rs)
    ensures rs[0].Offsets() <= Members(rs)
  {
    MembersHeadTail(rs);
    CanonicalSuffix(rs, 1);
    if rs[0].End() in Members(rs[1..]) {
      MembersBounds(rs[1..], rs[0].End());
      Before(rs, 0, 1);
    }
  }

  lemma SameFirst(a: seq<Range>, b: seq<Range>)
    requires Canonical(a) && Canonical(b) && a != [] && b != []
    requires Members(a) == Members(b)
    ensures a[0] == b[0]
  {
    At(a, 0);
    At(b, 0);
    FirstEnd(a);
    FirstEnd(b);
    assert a[0].start in a[0].Offsets() && b[0].start in b[0].Offsets();
    MembersBounds(a, b[0].start);
    MembersBounds(b, a[0].start);
    assert a[0].End() !in b[0].Offsets() && b[0].End() !in a[0].Offsets();
  }

  lemma MembersTail(rs: seq<Range>)
    requires Canonical(rs) && rs != []
    ensures Canonical(rs[1..])
    ensures Members(rs[1..]) == Members(rs) - rs[0].Offsets()
  {
    MembersHeadTail(rs);
    CanonicalSuffix(rs, 1);
    forall x: nat | x in Members(rs[1..]) ensures x !in rs[0].Offsets() {
      MembersBounds(rs[1..], x);
      Before(rs, 0, 1);
    }
  }

  lemma NoMembers(rs: seq<Range>)
    requires Canonical(rs)
    ensures rs == [] <==> Members(rs) == {}
  {
    if rs != [] {
      At(rs, 0);
      FirstEnd(rs);
      assert rs[0].start in rs[0].Offsets();
    }
  }

  /** Two canonical vectors with the same members are the same vector. */
  lemma {:induction false} CanonicalUnique(a: seq<Range>, b: seq<Range>)
    requires Canonical(a) && Canonical(b)
    requires Members(a) == Members(b)
    ensures a == b
  {
    NoMembers(a);
    NoMembers(b);
    if a == [] || b == [] {
    } else {
      SameFirst(a, b);
      MembersTail(a);
      MembersTail(b);
      CanonicalUnique(a[1..], b[1..]);
      assert a == [a[0]] + a[1..] && b == [b[0]] + b[1..];
    }
  }

  ghost predicate InRange(s: set<nat>) {
    forall x :: x in s ==> x < USIZE_MAX
  }

  lemma MembersInRange(rs: seq<Range>)
    requires Canonical(rs)
    ensures InRange(Members(rs))
  {
    forall x: nat | x in Members(rs) ensures x < USIZE_MAX {
      MembersBounds(rs, x);
      At(rs, |rs| - 1);
    }
  }

  lemma {:induction false} Greatest(s: set<nat>) returns (m: nat)
    requires s != {}
    ensures m in s && forall x :: x in s ==> x <= m
  {
    var k :| k in s;
    if s == {k} {
      m := k;
    } else {
      var n := Greatest(s - {k});
      m := if k < n then n else k;
      assert s == (s - {k}) + {k};
    }
  }

  /** Appending the offset `m`, which lies above all the others, keeps canonical form. */
  lemma AppendOffset(rs: seq<Range>, m: nat) returns (r: seq<Range>)
    requires Canonical(rs) && m < USIZE_MAX
    requires forall x :: x in Members(rs) ==> x < m
    ensures Canonical(r) && Members(r) == Members(rs) + {m}
  {
    var n := |rs| - 1;
    if rs != [] {
      At(rs, n);
      assert rs[n].End() - 1 in rs[n].Offsets();
    }
    if rs != [] && rs[n].End() == m {
      var wider := Range(rs[n].start, rs[n].length + 1);
      r := rs[n := wider];
      SamePrefix(rs, r, n);
      assert n > 0 ==> rs[n - 1].End() < rs[n].start;
      assert forall x: nat :: wider.Has(x) <==> rs[n].Has(x) || x == m;
    } else {
      var one := Range(m, 1);
      r := rs + [one];
      SamePrefix(rs, r, |rs|);
      assert one.Offsets() == {m} by { assert one.Has(m); }
    }
  }

  /** Every finite set of offsets below `USIZE_MAX` is denoted by some canonical vector. */
  lemma {:induction false} NormalVector(s: set<nat>) returns (rs: seq<Range>)
    requires InRange(s)
    ensures Canonical(rs) && Members(rs) == s
    decreases |s|
  {
    if s == {} {
      rs := [];
    } else {
      var m := Greatest(s);
      var front := NormalVector(s - {m});
      rs := AppendOffset(front, m);
    }
  }

  /** The one canonical vector that denotes `s`. */
  ghost function Normal(s: set<nat>): (rs: seq<Range>)
    requires InRange(s)
    ensures Canonical(rs) && Members(rs) == s
  {
    assert exists rs :: Canonical(rs) && Members(rs) == s by {
      var rs := NormalVector(s);
    }
    var rs :| Canonical(rs) && Members(rs) == s;
    rs
  }

  // ----- Total length is cardinality

  function TotalLengthTo(rs: seq<Range>, n: nat): nat
    requires n <= |rs|
  {
    if n == 0 then 0 else TotalLengthTo(rs, n - 1) + rs[n - 1].length
  }

  function TotalLength(rs: seq<Range>): nat {
    TotalLengthTo(rs, |rs|)
  }

  lemma {:induction false} IntervalCardinality(r: Range)
    ensures |r.Offsets()| == r.length
    decreases r.length
  {
    if r.length == 0 {
      assert r.Offsets() == {};
    } else {
      var shorter := Range(r.start, r.length - 1);
      IntervalCardinality(shorter);
      assert r.Offsets() == shorter.Offsets() + {r.End() - 1};
    }
  }

  lemma DisjointCardinality(a: set<nat>, b: set<nat>)
    requires a !! b
    ensures |a + b| == |a| + |b|
  {
  }

  lemma {:induction false} LengthsAddUp(rs: seq<Range>, n: nat)
    requires n <= |rs| && CanonicalTo(rs, n)
    ensures TotalLengthTo(rs, n) == |MembersTo(rs, n)|
  {
    if n == 0 {
    } else {
      LengthsAddUp(rs, n - 1);
      IntervalCardinality(rs[n - 1]);
      CanonicalMeans(rs, n);
      var before, last := MembersTo(rs, n - 1), rs[n - 1].Offsets();
      forall x: nat | x in before ensures x !in last {
        MembersCover(rs, n - 1, x);
      }
      DisjointCardinality(before, last);
    }
  }

  /** The total length of a canonical vector is the number of offsets it denotes. */
  lemma TotalLengthIsCardinality(rs: seq<Range>)
    requires Canonical(rs)
    ensures TotalLength(rs) == |Members(rs)|
  {
    LengthsAddUp(rs, |rs|);
  }

  lemma {:induction false} BelowCardinality(s: set<nat>, n: nat)
    requires forall x :: x in s ==> x < n
    ensures |s| <= n
  {
    if n == 0 {
      assert s == {};
    } else {
      BelowCardinality(s - {n - 1}, n - 1);
    }
  }

  /** The total length of a canonical vector fits in a `usize`. */
  lemma TotalLengthFits(rs: seq<Range>)
    requires Canonical(rs)
    ensures TotalLength(rs) <= USIZE_MAX
  {
    TotalLengthIsCardinality(rs);
    MembersInRange(rs);
    BelowCardinality(Members(rs), USIZE_MAX);
  }

  lemma SetInclusionExclusion(a: set<nat>, b: set<nat>)
    ensures |a + b| + |a * b| == |a| + |b|
  {
  }

  /** Inclusion-exclusion on the lengths of the vectors for a union and an intersection. */
  lemma InclusionExclusion(a: seq<Range>, b: seq<Range>, union: seq<Range>, both: seq<Range>)
    requires Canonical(a) && Canonical(b) && Canonical(union) && Canonical(both)
    requires Members(union) == Members(a) + Members(b)
    requires Members(both) == Members(a) * Members(b)
    ensures TotalLength(union) + TotalLength(both) == TotalLength(a) + TotalLength(b)
  {
    TotalLengthIsCardinality(a);
    TotalLengthIsCardinality(b);
    TotalLengthIsCardinality(union);
    TotalLengthIsCardinality(both);
    SetInclusionExclusion(Members(a), Members(b));
  }
}
