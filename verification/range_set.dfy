/** The interval set behind the audio fetcher, edited in place (audio/src/range_set.rs). */
module RangeSets {
  import opened RangeVectors

  function Max(a: nat, b: nat): nat {
    if a < b then b else a
  }

  function Min(a: nat, b: nat): nat {
    if a < b then a else b
  }

  /** `Vec::remove` and `Vec::insert`. */
  function RemoveAt(rs: seq<Range>, i: nat): seq<Range>
    requires i < |rs|
  {
    rs[..i] + rs[i + 1..]
  }

  function InsertAt(rs: seq<Range>, i: nat, r: Range): seq<Range>
    requires i <= |rs|
  {
    rs[..i] + [r] + rs[i..]
  }

  /** `rs` after its ranges from `lo` up to `hi` have been removed one by one. */
  ghost function Cut(rs: seq<Range>, lo: nat, hi: nat): (r: seq<Range>)
    requires lo <= hi <= |rs|
    ensures |r| == |rs| - (hi - lo)
  {
    if lo == hi then rs else RemoveAt(Cut(rs, lo, hi - 1), lo)
  }

  lemma {:induction false} CutMeans(rs: seq<Range>, lo: nat, hi: nat)
    requires lo <= hi <= |rs|
    ensures Cut(rs, lo, hi) == rs[..lo] + rs[hi..]
  {
    if lo == hi {
    } else {
      CutMeans(rs, lo, hi - 1);
    }
  }

  lemma CutNext(rs: seq<Range>, lo: nat, hi: nat)
    requires lo <= hi < |rs|
    ensures Cut(rs, lo, hi)[lo] == rs[hi]
  {
    CutMeans(rs, lo, hi);
  }

  class RangeSet {
    var ranges: seq<Range>

    ghost predicate Valid()
      reads this
    {
      Canonical(ranges)
    }

    ghost function Offsets(): set<nat>
      reads this
    {
      Members(ranges)
    }

    constructor ()
      ensures Valid() && Offsets() == {}
    {
      ranges := [];
    }

    constructor Clone(other: RangeSet)
      ensures ranges == other.ranges
    {
      ranges := other.ranges;
    }

    /** The total length, which is the number of offsets and fits in a `usize`. */
    method Len() returns (n: nat)
      requires Valid()
      ensures n == |Offsets()| == TotalLength(ranges) <= USIZE_MAX
    {
      n := 0;
      for i := 0 to |ranges|
        invariant n == TotalLengthTo(ranges, i)
      {
        n := n + ranges[i].length;
      }
      TotalLengthIsCardinality(ranges);
      TotalLengthFits(ranges);
    }

    method Contains(value: nat) returns (found: bool)
      requires Valid()
      ensures found <==> value in Offsets()
    {
      for i := 0 to |ranges|
        invariant i > 0 ==> ranges[i - 1].End() <= value
      {
        FoundAt(ranges, i, value);
        if value < ranges[i].start {
          return false;
        } else if ranges[i].start <= value && value < ranges[i].End() {
          return true;
        }
      }
      FoundAt(ranges, |ranges|, value);
      return false;
    }

    /** The length of the run of members that starts at `value`; the offset after it is missing. */
    method ContainedLengthFromValue(value: nat) returns (n: nat)
      requires Valid()
      ensures forall x: nat :: value <= x < value + n ==> x in Offsets()
      ensures value + n !in Offsets()
    {
      for i := 0 to |ranges|
        invariant i > 0 ==> ranges[i - 1].End() <= value
      {
        FoundAt(ranges, i, value);
        if value < ranges[i].start {
          return 0;
        } else if ranges[i].start <= value && value < ranges[i].End() {
          RunAt(ranges, i);
          return ranges[i].End() - value;
        }
      }
      FoundAt(ranges, |ranges|, value);
      return 0;
    }

    /** Subset test; `true` on every subset because touching ranges have been merged. */
    method ContainsRangeSet(other: RangeSet) returns (all: bool)
      requires Valid() && other.Valid()
      ensures all <==> other.Offsets() <= Offsets()
    {
      for i := 0 to |other.ranges|
        invariant MembersTo(other.ranges, i) <= Offsets()
      {
        var r := other.ranges[i];
        var n := ContainedLengthFromValue(r.start);
        RunAt(other.ranges, i);
        RunCompared(r, n, Offsets());
        if n < r.length {
          return false;
        }
      }
      return true;
    }

    /** Adds the interval, merging it with every range it overlaps or touches. */
    method AddRange(range: Range)
      requires Valid() && range.End() <= USIZE_MAX
      modifies this
      ensures Valid()
      ensures Offsets() == old(Offsets()) + range.Offsets()
    {
      if range.length == 0 {
        return;
      }
      ghost var rs := ranges;
      for index := 0 to |ranges|
        invariant ranges == rs
        invariant index > 0 ==> rs[index - 1].End() < range.start
      {
        ghost var a := rs[..index];
        if range.End() < ranges[index].start {
          assert rs == a + [] + rs[index..];
          Merged(a, [], rs[index..], range, range);
          ranges := InsertAt(ranges, index, range);
          return;
        } else if range.start <= ranges[index].End() && ranges[index].start <= range.End() {
          MergeFrom(index, range);
          return;
        }
      }
      assert rs == rs + [] + [];
      Merged(rs, [], [], range, range);
      ranges := ranges + [range];
      assert ranges == rs + [range] + [];
    }

    /** The inner loop of `AddRange`: merges every range from `index` on that touches the new one. */
    method MergeFrom(index: nat, range: Range)
      requires Valid() && 0 < range.length && range.End() <= USIZE_MAX
      requires index < |ranges| && (index > 0 ==> ranges[index - 1].End() < range.start)
      requires range.start <= ranges[index].End() && ranges[index].start <= range.End()
      modifies this
      ensures Valid()
      ensures Offsets() == old(Offsets()) + range.Offsets()
    {
      var newRange := range;
      ghost var rs, last := ranges, index;
      while index < |ranges| && ranges[index].start <= newRange.End()
        invariant index <= last <= |rs|
        invariant ranges == Cut(rs, index, last)
        invariant IsJoin(newRange, range, rs, index, last)
        decreases |ranges|
      {
        CutNext(rs, index, last);
        ghost var joined := JoinStep(newRange, range, rs, index, last);
        var newEnd := Max(newRange.End(), ranges[index].End());
        var newStart := Min(newRange.start, ranges[index].start);
        newRange := Range(newStart, newEnd - newStart);
        ranges := RemoveAt(ranges, index);
        last := last + 1;
      }
      if last < |rs| { CutNext(rs, index, last); }
      MergedAt(rs, index, last, range, newRange);
      ranges := InsertAt(ranges, index, newRange);
    }

    method AddRangeSet(other: RangeSet)
      requires Valid() && other.Valid() && other != this
      modifies this
      ensures Valid()
      ensures Offsets() == old(Offsets()) + other.Offsets()
    {
      for i := 0 to |other.ranges|
        invariant Valid()
        invariant Offsets() == old(Offsets()) + MembersTo(other.ranges, i)
      {
        At(other.ranges, i);
        AddRange(other.ranges[i]);
      }
    }

    method Union(other: RangeSet) returns (result: RangeSet)
      requires Valid() && other.Valid()
      ensures fresh(result) && result.Valid()
      ensures result.Offsets() == Offsets() + other.Offsets()
    {
      result := new RangeSet.Clone(this);
      result.AddRangeSet(other);
    }

    /** Removes the interval: drops, trims, splits or truncates the ranges it meets. */
    method SubtractRange(range: Range)
      requires Valid() && range.End() <= USIZE_MAX
      modifies this
      ensures Valid()
      ensures Offsets() == old(Offsets()) - range.Offsets()
    {
      if range.length == 0 {
        return;
      }
      for index := 0 to |ranges|
        invariant Valid() && |ranges| == |old(ranges)|
        invariant index > 0 ==> ranges[index - 1].End() <= range.start
        invariant Offsets() - range.Offsets() == old(Offsets()) - range.Offsets()
      {
        if range.End() <= ranges[index].start {
          DroppedAt(ranges, index, index, range);
          return;
        } else if range.start <= ranges[index].start && ranges[index].start < range.End() {
          RemoveFrom(index, range);
          return;
        } else if range.End() < ranges[index].End() {
          var firstRange := Range(ranges[index].start, range.start - ranges[index].start);
          var second := Range(range.End(), ranges[index].length - (range.End() - ranges[index].start));
          PunchedAt(ranges, index, range, firstRange, second);
          ranges := ranges[index := second];
          ranges := InsertAt(ranges, index, firstRange);
          return;
        } else if range.start < ranges[index].End() {
          var piece := Range(ranges[index].start, range.start - ranges[index].start);
          TruncatedAt(ranges, index, range, piece);
          ranges := ranges[index := piece];
        }
      }
      BeforeRange(ranges, range);
    }

    /** The inner loop of `SubtractRange`: removes covered ranges from `index` on, trims the next. */
    method RemoveFrom(index: nat, range: Range)
      requires Valid() && index < |ranges|
      requires index > 0 ==> ranges[index - 1].End() <= range.start
      requires range.start <= ranges[index].start < range.End()
      modifies this
      ensures Valid()
      ensures Offsets() == old(Offsets()) - range.Offsets()
    {
      ghost var rs, last := ranges, index;
      while index < |ranges| && ranges[index].End() <= range.End()
        invariant index <= last <= |rs|
        invariant ranges == Cut(rs, index, last)
        invariant last > index ==> rs[last - 1].End() <= range.End()
        decreases |ranges|
      {
        CutNext(rs, index, last);
        ranges := RemoveAt(ranges, index);
        last := last + 1;
      }
      if last < |rs| { CutNext(rs, index, last); }
      if index < |ranges| && ranges[index].start < range.End() {
        var trimmed := Range(range.End(), ranges[index].length - (range.End() - ranges[index].start));
        TrimmedAt(rs, index, last, range, trimmed);
        ranges := ranges[index := trimmed];
      } else {
        DroppedAt(rs, index, last, range);
      }
    }

    method SubtractRangeSet(other: RangeSet)
      requires Valid() && other.Valid() && other != this
      modifies this
      ensures Valid()
      ensures Offsets() == old(Offsets()) - other.Offsets()
    {
      for i := 0 to |other.ranges|
        invariant Valid()
        invariant Offsets() == old(Offsets()) - MembersTo(other.ranges, i)
      {
        At(other.ranges, i);
        SubtractRange(other.ranges[i]);
      }
    }

    method Minus(other: RangeSet) returns (result: RangeSet)
      requires Valid() && other.Valid()
      ensures fresh(result) && result.Valid()
      ensures result.Offsets() == Offsets() - other.Offsets()
    {
      result := new RangeSet.Clone(this);
      result.SubtractRangeSet(other);
    }

    /** Walks both vectors once, always leaving the range that ends first. */
    method Intersection(other: RangeSet) returns (result: RangeSet)
      requires Valid() && other.Valid()
      ensures fresh(result) && result.Valid()
      ensures result.Offsets() == Offsets() * other.Offsets()
    {
      result := new RangeSet();
      var selfIndex, otherIndex := 0, 0;
      assert ranges[0..] == ranges && other.ranges[0..] == other.ranges;
      while selfIndex < |ranges| && otherIndex < |other.ranges|
        invariant 0 <= selfIndex <= |ranges| && 0 <= otherIndex <= |other.ranges|
        invariant fresh(result) && result.Valid()
        invariant Offsets() * other.Offsets() ==
          result.Offsets() + Members(ranges[selfIndex..]) * Members(other.ranges[otherIndex..])
        decreases |ranges| - selfIndex + |other.ranges| - otherIndex
      {
        ghost var aTail, bTail := ranges[selfIndex..], other.ranges[otherIndex..];
        CanonicalSuffix(ranges, selfIndex);
        CanonicalSuffix(other.ranges, otherIndex);
        var a, b := ranges[selfIndex], other.ranges[otherIndex];
        if a.End() <= b.start {
          SkipFirst(aTail, bTail);
          assert aTail[1..] == ranges[selfIndex + 1..];
          selfIndex := selfIndex + 1;
        } else if b.End() <= a.start {
          SkipFirst(bTail, aTail);
          assert bTail[1..] == other.ranges[otherIndex + 1..];
          otherIndex := otherIndex + 1;
        } else {
          At(ranges, selfIndex);
          var newStart, newEnd := Max(a.start, b.start), Min(a.End(), b.End());
          var overlap := Range(newStart, newEnd - newStart);
          result.AddRange(overlap);
          if a.End() <= b.End() {
            TakeOverlap(aTail, bTail, overlap);
            assert aTail[1..] == ranges[selfIndex + 1..];
            selfIndex := selfIndex + 1;
          } else {
            TakeOverlap(bTail, aTail, overlap);
            assert bTail[1..] == other.ranges[otherIndex + 1..];
            otherIndex := otherIndex + 1;
          }
        }
      }
    }
  }

  // ----- What the edits do to the denoted set, for a vector cut into `a + m + b`

  lemma Parts(a: seq<Range>, m: seq<Range>, b: seq<Range>)
    requires Canonical(a + m + b)
    ensures Canonical(a) && Canonical(m) && Canonical(b)
    ensures Gap(a, m) && Gap(m, b) && Gap(a, b)
  {
    var rs, lo, hi := a + m + b, |a|, |a| + |m|;
    CanonicalPrefix(rs, lo);
    assert rs[..lo] == a;
    CanonicalSuffix(rs, hi);
    assert rs[hi..] == b;
    CanonicalPrefix(rs, hi);
    CanonicalSuffix(rs[..hi], lo);
    assert rs[..hi][lo..] == m;
    if a != [] && m != [] { Before(rs, lo - 1, lo); }
    if m != [] && b != [] { Before(rs, hi - 1, hi); }
    if a != [] && b != [] { Before(rs, lo - 1, hi); }
  }

  lemma WholeCanonical(a: seq<Range>, m: seq<Range>, b: seq<Range>)
    requires Canonical(a) && Canonical(m) && Canonical(b)
    requires Gap(a, m) && Gap(m, b) && Gap(a, b)
    ensures Canonical(a + m + b)
  {
    CanonicalConcat(a, m);
    CanonicalConcat(a + m, b);
  }

  lemma WholeMembers(a: seq<Range>, m: seq<Range>, b: seq<Range>)
    ensures Members(a + m + b) == Members(a) + Members(m) + Members(b)
  {
    MembersConcat(a, m);
    MembersConcat(a + m, b);
  }

  lemma FoundAt(rs: seq<Range>, i: nat, value: nat)
    requires Canonical(rs) && i <= |rs|
    requires i > 0 ==> rs[i - 1].End() <= value
    ensures i == |rs| || value < rs[i].start ==> value !in Members(rs)
    ensures i < |rs| && rs[i].Has(value) ==> value in Members(rs)
  {
    MembersCover(rs, |rs|, value);
    if value in Members(rs) {
      var k :| 0 <= k < |rs| && rs[k].Has(value);
      if k < i - 1 { Before(rs, k, i - 1); }
      if i < k { Before(rs, i, k); }
      if i < k { At(rs, i); }
    }
  }

  /** A range of the vector is a maximal run of members. */
  lemma RunAt(rs: seq<Range>, i: nat)
    requires Canonical(rs) && i < |rs|
    ensures rs[i].Offsets() <= Members(rs)
    ensures rs[i].End() !in Members(rs)
  {
    forall x: nat | rs[i].Has(x) ensures x in Members(rs) {
      MembersCover(rs, |rs|, x);
    }
    if i + 1 < |rs| { Before(rs, i, i + 1); }
    FoundAt(rs, i + 1, rs[i].End());
  }

  /** A run of length `n` from the start of `r` holds all of `r` exactly when it is long enough. */
  lemma RunCompared(r: Range, n: nat, members: set<nat>)
    requires forall x: nat :: r.start <= x < r.start + n ==> x in members
    requires r.start + n !in members
    ensures r.Offsets() <= members <==> r.length <= n
  {
    if n < r.length {
      assert r.Has(r.start + n);
    }
  }

  /** `merged` spans `range` and all of `rs[lo..hi]`, whose ranges overlap or touch `range`. */
  ghost predicate IsJoin(merged: Range, range: Range, rs: seq<Range>, lo: nat, hi: nat)
    requires lo <= hi <= |rs|
  {
    if lo == hi then merged == range else
      && merged.start == Min(range.start, rs[lo].start)
      && merged.End() == Max(range.End(), rs[hi - 1].End())
      && range.start <= rs[lo].End() && rs[hi - 1].start <= range.End()
  }

  lemma JoinStep(merged: Range, range: Range, rs: seq<Range>, lo: nat, hi: nat) returns (joined: Range)
    requires Canonical(rs) && lo <= hi < |rs|
    requires IsJoin(merged, range, rs, lo, hi) && rs[hi].start <= merged.End()
    requires lo == hi ==> range.start <= rs[hi].End()
    ensures joined.start == Min(merged.start, rs[hi].start)
    ensures joined.End() == Max(merged.End(), rs[hi].End())
    ensures IsJoin(joined, range, rs, lo, hi + 1)
  {
    if lo < hi {
      Before(rs, hi - 1, hi);
      Before(rs, lo, hi);
    }
    var start := Min(merged.start, rs[hi].start);
    joined := Range(start, Max(merged.End(), rs[hi].End()) - start);
  }

  lemma JoinMembers(merged: Range, range: Range, m: seq<Range>)
    requires Canonical(m) && IsJoin(merged, range, m, 0, |m|)
    ensures merged.Offsets() == range.Offsets() + Members(m)
  {
    forall x: nat ensures merged.Has(x) <==> range.Has(x) || x in Members(m) {
      if x in Members(m) {
        MembersBounds(m, x);
      }
      if m != [] && merged.Has(x) && !range.Has(x) {
        var k := if x < range.start then 0 else |m| - 1;
        assert m[k].Has(x);
        MembersCover(m, |m|, x);
      }
    }
  }

  /** Replacing `m` by the one range that joins it with `range`. */
  lemma Merged(a: seq<Range>, m: seq<Range>, b: seq<Range>, range: Range, merged: Range)
    requires Canonical(a + m + b)
    requires 0 < range.length && range.End() <= USIZE_MAX
    requires IsJoin(merged, range, m, 0, |m|)
    requires a != [] ==> a[|a| - 1].End() < range.start
    requires b != [] ==> merged.End() < b[0].start
    ensures Canonical(a + [merged] + b)
    ensures Members(a + [merged] + b) == Members(a + m + b) + range.Offsets()
  {
    Parts(a, m, b);
    if m != [] {
      At(m, |m| - 1);
    }
    WholeCanonical(a, [merged], b);
    WholeMembers(a, m, b);
    WholeMembers(a, [merged], b);
    Single(merged);
    JoinMembers(merged, range, m);
  }

  lemma MergedSlices(rs: seq<Range>, lo: nat, hi: nat, range: Range, merged: Range)
    requires Canonical(rs) && lo <= hi <= |rs|
    requires 0 < range.length && range.End() <= USIZE_MAX
    requires IsJoin(merged, range, rs, lo, hi)
    requires lo > 0 ==> rs[lo - 1].End() < range.start
    requires hi < |rs| ==> merged.End() < rs[hi].start
    ensures Canonical(rs[..lo] + [merged] + rs[hi..])
    ensures Members(rs[..lo] + [merged] + rs[hi..]) == Members(rs) + range.Offsets()
  {
    assert rs == rs[..lo] + rs[lo..hi] + rs[hi..];
    Merged(rs[..lo], rs[lo..hi], rs[hi..], range, merged);
  }

  lemma MergedAt(rs: seq<Range>, lo: nat, hi: nat, range: Range, merged: Range)
    requires Canonical(rs) && lo <= hi <= |rs|
    requires 0 < range.length && range.End() <= USIZE_MAX
    requires IsJoin(merged, range, rs, lo, hi)
    requires lo > 0 ==> rs[lo - 1].End() < range.start
    requires hi < |rs| ==> merged.End() < rs[hi].start
    ensures Canonical(InsertAt(Cut(rs, lo, hi), lo, merged))
    ensures Members(InsertAt(Cut(rs, lo, hi), lo, merged)) == Members(rs) + range.Offsets()
  {
    MergedSlices(rs, lo, hi, range, merged);
    CutMeans(rs, lo, hi);
    InsertedBetween(rs[..lo], rs[hi..], merged);
  }

  lemma InsertedBetween(a: seq<Range>, b: seq<Range>, r: Range)
    ensures InsertAt(a + b, |a|, r) == a + [r] + b
  {
  }

  lemma BeforeRange(a: seq<Range>, range: Range)
    requires Canonical(a)
    requires a != [] ==> a[|a| - 1].End() <= range.start
    ensures Members(a) !! range.Offsets()
  {
    forall x: nat | x in Members(a) ensures x !in range.Offsets() {
      MembersBounds(a, x);
    }
  }

  lemma AfterRange(b: seq<Range>, range: Range)
    requires Canonical(b)
    requires b != [] ==> range.End() <= b[0].start
    ensures Members(b) !! range.Offsets()
  {
    forall x: nat | x in Members(b) ensures x !in range.Offsets() {
      MembersBounds(b, x);
    }
  }

  lemma InsideRange(m: seq<Range>, range: Range)
    requires Canonical(m)
    requires m != [] ==> range.start <= m[0].start && m[|m| - 1].End() <= range.End()
    ensures Members(m) <= range.Offsets()
  {
    forall x: nat | x in Members(m) ensures x in range.Offsets() {
      MembersBounds(m, x);
    }
  }

  /** Replacing `m`, the ranges that meet `range`, by what `range` leaves of them. */
  lemma Carved(a: seq<Range>, m: seq<Range>, b: seq<Range>, range: Range, left: seq<Range>)
    requires Canonical(a + m + b) && Canonical(left)
    requires a != [] ==> a[|a| - 1].End() <= range.start
    requires b != [] ==> range.End() <= b[0].start
    requires Gap(a, left) && Gap(left, b)
    requires Members(left) == Members(m) - range.Offsets()
    ensures Canonical(a + left + b)
    ensures Members(a + left + b) == Members(a + m + b) - range.Offsets()
  {
    Parts(a, m, b);
    WholeCanonical(a, left, b);
    WholeMembers(a, m, b);
    WholeMembers(a, left, b);
    BeforeRange(a, range);
    AfterRange(b, range);
  }

  lemma Dropped(a: seq<Range>, m: seq<Range>, b: seq<Range>, range: Range)
    requires Canonical(a + m + b)
    requires a != [] ==> a[|a| - 1].End() <= range.start
    requires m != [] ==> range.start <= m[0].start && m[|m| - 1].End() <= range.End()
    requires b != [] ==> range.End() <= b[0].start
    ensures Canonical(a + b)
    ensures Members(a + b) == Members(a + m + b) - range.Offsets()
  {
    Parts(a, m, b);
    InsideRange(m, range);
    Carved(a, m, b, range, []);
    assert a + [] == a;
  }

  lemma Trimmed(a: seq<Range>, m: seq<Range>, next: Range, b: seq<Range>, range: Range, trimmed: Range)
    requires Canonical(a + (m + [next]) + b)
    requires a != [] ==> a[|a| - 1].End() <= range.start
    requires m != [] ==> range.start <= m[0].start && m[|m| - 1].End() <= range.End()
    requires range.start <= next.start < range.End() < next.End()
    requires trimmed.start == range.End() && trimmed.End() == next.End()
    ensures Canonical(a + [trimmed] + b)
    ensures Members(a + [trimmed] + b) == Members(a + (m + [next]) + b) - range.Offsets()
  {
    var mid := m + [next];
    Parts(a, mid, b);
    At(mid, |m|);
    CanonicalPrefix(mid, |m|);
    assert mid[..|m|] == m;
    MembersConcat(m, [next]);
    Single(next);
    InsideRange(m, range);
    assert trimmed.Offsets() == next.Offsets() - range.Offsets();
    Single(trimmed);
    Carved(a, mid, b, range, [trimmed]);
  }

  lemma TrimmedAt(rs: seq<Range>, lo: nat, hi: nat, range: Range, trimmed: Range)
    requires Canonical(rs) && lo <= hi < |rs|
    requires lo > 0 ==> rs[lo - 1].End() <= range.start
    requires hi > lo ==> rs[hi - 1].End() <= range.End()
    requires range.start <= rs[lo].start && rs[hi].start < range.End() < rs[hi].End()
    requires trimmed.start == range.End() && trimmed.End() == rs[hi].End()
    ensures Canonical(Cut(rs, lo, hi)[lo := trimmed])
    ensures Members(Cut(rs, lo, hi)[lo := trimmed]) == Members(rs) - range.Offsets()
  {
    CutMeans(rs, lo, hi);
    if lo < hi { Before(rs, lo, hi); }
    assert rs == rs[..lo] + (rs[lo..hi] + [rs[hi]]) + rs[hi + 1..];
    Trimmed(rs[..lo], rs[lo..hi], rs[hi], rs[hi + 1..], range, trimmed);
    RemovedThenChanged(rs, lo, hi, trimmed);
  }

  lemma RemovedThenChanged(rs: seq<Range>, lo: nat, hi: nat, r: Range)
    requires lo <= hi < |rs|
    ensures (rs[..lo] + rs[hi..])[lo := r] == rs[..lo] + [r] + rs[hi + 1..]
  {
  }

  lemma DroppedSlices(rs: seq<Range>, lo: nat, hi: nat, range: Range)
    requires Canonical(rs) && lo <= hi <= |rs|
    requires lo > 0 ==> rs[lo - 1].End() <= range.start
    requires lo < hi ==> range.start <= rs[lo].start && rs[hi - 1].End() <= range.End()
    requires hi < |rs| ==> range.End() <= rs[hi].start
    ensures Canonical(rs[..lo] + rs[hi..])
    ensures Members(rs[..lo] + rs[hi..]) == Members(rs) - range.Offsets()
  {
    assert rs == rs[..lo] + rs[lo..hi] + rs[hi..];
    Dropped(rs[..lo], rs[lo..hi], rs[hi..], range);
  }

  lemma DroppedAt(rs: seq<Range>, lo: nat, hi: nat, range: Range)
    requires Canonical(rs) && lo <= hi <= |rs|
    requires lo > 0 ==> rs[lo - 1].End() <= range.start
    requires lo < hi ==> range.start <= rs[lo].start && rs[hi - 1].End() <= range.End()
    requires hi < |rs| ==> range.End() <= rs[hi].start
    ensures Canonical(Cut(rs, lo, hi))
    ensures Members(Cut(rs, lo, hi)) == Members(rs) - range.Offsets()
  {
    DroppedSlices(rs, lo, hi, range);
    CutMeans(rs, lo, hi);
  }

  lemma PunchedAt(rs: seq<Range>, index: nat, range: Range, first: Range, second: Range)
    requires Canonical(rs) && index < |rs| && 0 < range.length
    requires index > 0 ==> rs[index - 1].End() <= range.start
    requires rs[index].start < range.start && range.End() < rs[index].End()
    requires first.start == rs[index].start && first.End() == range.start
    requires second.start == range.End() && second.End() == rs[index].End()
    ensures Canonical(InsertAt(rs[index := second], index, first))
    ensures Members(InsertAt(rs[index := second], index, first)) == Members(rs) - range.Offsets()
  {
    assert rs == rs[..index] + [rs[index]] + rs[index + 1..];
    Punched(rs[..index], rs[index], rs[index + 1..], range, first, second);
    assert InsertAt(rs[index := second], index, first) == rs[..index] + [first, second] + rs[index + 1..];
  }

  lemma TruncatedAt(rs: seq<Range>, index: nat, range: Range, piece: Range)
    requires Canonical(rs) && index < |rs|
    requires rs[index].start < range.start < rs[index].End() <= range.End()
    requires piece.start == rs[index].start && piece.End() == range.start
    ensures Canonical(rs[index := piece])
    ensures Members(rs[index := piece]) - range.Offsets() == Members(rs) - range.Offsets()
  {
    assert rs == rs[..index] + [rs[index]] + rs[index + 1..];
    Truncated(rs[..index], rs[index], rs[index + 1..], range, piece);
    assert rs[index := piece] == rs[..index] + [piece] + rs[index + 1..];
  }

  lemma Punched(a: seq<Range>, hit: Range, b: seq<Range>, range: Range, first: Range, second: Range)
    requires Canonical(a + [hit] + b) && 0 < range.length
    requires a != [] ==> a[|a| - 1].End() <= range.start
    requires hit.start < range.start && range.End() < hit.End()
    requires first.start == hit.start && first.End() == range.start
    requires second.start == range.End() && second.End() == hit.End()
    ensures Canonical(a + [first, second] + b)
    ensures Members(a + [first, second] + b) == Members(a + [hit] + b) - range.Offsets()
  {
    Parts(a, [hit], b);
    assert [first, second] == [first] + [second];
    CanonicalConcat([first], [second]);
    MembersConcat([first], [second]);
    Single(first);
    Single(second);
    Single(hit);
    assert first.Offsets() + second.Offsets() == hit.Offsets() - range.Offsets();
    Carved(a, [hit], b, range, [first, second]);
  }

  lemma Truncated(a: seq<Range>, hit: Range, b: seq<Range>, range: Range, piece: Range)
    requires Canonical(a + [hit] + b)
    requires hit.start < range.start < hit.End() <= range.End()
    requires piece.start == hit.start && piece.End() == range.start
    ensures Canonical(a + [piece] + b)
    ensures Members(a + [piece] + b) - range.Offsets() == Members(a + [hit] + b) - range.Offsets()
  {
    Parts(a, [hit], b);
    WholeCanonical(a, [piece], b);
    WholeMembers(a, [hit], b);
    WholeMembers(a, [piece], b);
    Single(hit);
    Single(piece);
    assert piece.Offsets() - range.Offsets() == hit.Offsets() - range.Offsets();
  }

  /** A first range that ends before the other vector starts contributes nothing. */
  lemma SkipFirst(a: seq<Range>, b: seq<Range>)
    requires a != [] && b != [] && Canonical(a) && Canonical(b)
    requires a[0].End() <= b[0].start
    ensures Members(a) * Members(b) == Members(a[1..]) * Members(b)
    ensures Members(b) * Members(a) == Members(b) * Members(a[1..])
  {
    MembersTail(a);
    forall x: nat | x in Members(b) ensures x !in a[0].Offsets() {
      MembersBounds(b, x);
    }
  }

  /** The overlap of the two first ranges accounts for all of the one that ends first. */
  lemma TakeOverlap(a: seq<Range>, b: seq<Range>, overlap: Range)
    requires a != [] && b != [] && Canonical(a) && Canonical(b)
    requires b[0].start < a[0].End() <= b[0].End() && a[0].start < b[0].End()
    requires overlap.start == Max(a[0].start, b[0].start) && overlap.End() == a[0].End()
    ensures Members(a) * Members(b) == overlap.Offsets() + Members(a[1..]) * Members(b)
    ensures Members(b) * Members(a) == overlap.Offsets() + Members(b) * Members(a[1..])
  {
    MembersHeadTail(a);
    FirstEnd(b);
    forall x: nat ensures x in a[0].Offsets() && x in Members(b) <==> x in overlap.Offsets() {
      if x in Members(b) {
        MembersBounds(b, x);
      }
    }
  }
}
