/** Laws of the range-set operations, as equalities between the vectors they produce. */
module RangeSetLaws {
  import opened RangeVectors
  import opened RangeSets

  datatype Edit = Add(range: Range) | Subtract(range: Range)

  ghost function Effect(s: set<nat>, edits: seq<Edit>): set<nat>
    decreases |edits|
  {
    if edits == [] then s else
      var before := Effect(s, edits[..|edits| - 1]);
      match edits[|edits| - 1]
      case Add(r) => before + r.Offsets()
      case Subtract(r) => before - r.Offsets()
  }

  /** After any history of edits the vector is the normal form of the resulting set, whatever the
      order in which ranges were merged, split and trimmed on the way. */
  method Replay(s: RangeSet, edits: seq<Edit>)
    requires s.Valid()
    requires forall e :: e in edits ==> e.range.End() <= USIZE_MAX
    modifies s
    ensures InRange(Effect(old(s.Offsets()), edits))
    ensures s.ranges == Normal(Effect(old(s.Offsets()), edits))
  {
    for i := 0 to |edits|
      invariant s.Valid() && s.Offsets() == Effect(old(s.Offsets()), edits[..i])
    {
      assert edits[..i + 1][..i] == edits[..i];
      match edits[i]
      case Add(r) => s.AddRange(r);
      case Subtract(r) => s.SubtractRange(r);
    }
    assert edits[..|edits|] == edits;
    MembersInRange(s.ranges);
    CanonicalUnique(s.ranges, Normal(s.Offsets()));
  }

  method UnionCommutes(a: RangeSet, b: RangeSet) returns (ab: RangeSet, ba: RangeSet)
    requires a.Valid() && b.Valid()
    ensures ab.Valid() && ab.Offsets() == a.Offsets() + b.Offsets()
    ensures ba.Valid() && ba.ranges == ab.ranges
  {
    ab := a.Union(b);
    ba := b.Union(a);
    CanonicalUnique(ab.ranges, ba.ranges);
  }

  method UnionAssociates(a: RangeSet, b: RangeSet, c: RangeSet) returns (left: RangeSet, right: RangeSet)
    requires a.Valid() && b.Valid() && c.Valid()
    ensures left.Valid() && left.Offsets() == a.Offsets() + b.Offsets() + c.Offsets()
    ensures right.Valid() && right.ranges == left.ranges
  {
    var ab := a.Union(b);
    var bc := b.Union(c);
    left := ab.Union(c);
    right := a.Union(bc);
    CanonicalUnique(left.ranges, right.ranges);
  }

  method UnionIsIdempotent(a: RangeSet) returns (aa: RangeSet)
    requires a.Valid()
    ensures aa.Valid() && aa.Offsets() == a.Offsets() && aa.ranges == a.ranges
  {
    aa := a.Union(a);
    CanonicalUnique(aa.ranges, a.ranges);
  }

  /** The two-pointer intersection agrees with removing from `a` what `b` does not hold. */
  method IntersectionIsDoubleMinus(a: RangeSet, b: RangeSet) returns (both: RangeSet, twice: RangeSet)
    requires a.Valid() && b.Valid()
    ensures both.Valid() && both.Offsets() == a.Offsets() * b.Offsets()
    ensures twice.Valid() && twice.ranges == both.ranges
  {
    both := a.Intersection(b);
    var outside := a.Minus(b);
    twice := a.Minus(outside);
    CanonicalUnique(both.ranges, twice.ranges);
  }

  /** `a.union(b).len() + a.intersection(b).len() == a.len() + b.len()`. */
  method LengthsIncludeAndExclude(a: RangeSet, b: RangeSet)
    returns (union: nat, both: nat, left: nat, right: nat)
    requires a.Valid() && b.Valid()
    ensures union == |a.Offsets() + b.Offsets()| && both == |a.Offsets() * b.Offsets()|
    ensures left == |a.Offsets()| && right == |b.Offsets()|
    ensures union + both == left + right
  {
    var u := a.Union(b);
    var i := a.Intersection(b);
    union := u.Len();
    both := i.Len();
    left := a.Len();
    right := b.Len();
    InclusionExclusion(a.ranges, b.ranges, u.ranges, i.ranges);
  }

  /** The subset test decides inclusion, which for canonical vectors is absorption by union. */
  method SubsetIsAbsorption(a: RangeSet, b: RangeSet) returns (subset: bool, union: RangeSet)
    requires a.Valid() && b.Valid()
    ensures subset <==> b.Offsets() <= a.Offsets()
    ensures union.Valid() && union.Offsets() == a.Offsets() + b.Offsets()
    ensures subset <==> union.ranges == a.ranges
  {
    subset := a.ContainsRangeSet(b);
    union := a.Union(b);
    if subset {
      CanonicalUnique(union.ranges, a.ranges);
    }
  }
}
