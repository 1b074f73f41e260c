/** The byte budget of the audio cache: an LRU evictor (core/src/cache.rs).

    Paths are strings, access times integers. File removal is a parameter that says which removals
    the file system refuses. */
module SizeLimiters {
  import opened Wrappers

  type Path = string

  // ----- Sums over a map

  ghost function Total(sizes: map<Path, nat>): nat
    decreases |sizes|
  {
    if sizes == map[] then 0 else
      var p :| p in sizes;
      sizes[p] + Total(sizes - {p})
  }

  /** The sum does not depend on the order in which paths are taken. */
  lemma {:induction false} TotalWithout(sizes: map<Path, nat>, p: Path)
    requires p in sizes
    ensures Total(sizes) == sizes[p] + Total(sizes - {p})
    decreases |sizes|
  {
    var q :| q in sizes && Total(sizes) == sizes[q] + Total(sizes - {q});
    if q == p {
    } else {
      TotalWithout(sizes - {q}, p);
      TotalWithout(sizes - {p}, q);
      assert sizes - {q} - {p} == sizes - {p} - {q};
    }
  }

  lemma TotalUpdated(sizes: map<Path, nat>, p: Path, size: nat)
    ensures Total(sizes[p := size]) == size + Total(sizes - {p})
  {
    TotalWithout(sizes[p := size], p);
    assert sizes[p := size] - {p} == sizes - {p};
  }

  lemma {:induction false} TotalMonotonic(small: map<Path, nat>, big: map<Path, nat>)
    requires forall p :: p in small ==> p in big && big[p] == small[p]
    ensures Total(small) <= Total(big)
    decreases |small|
  {
    if small == map[] {
    } else {
      var p :| p in small;
      TotalWithout(small, p);
      TotalWithout(big, p);
      TotalMonotonic(small - {p}, big - {p});
    }
  }

  lemma {:induction false} OldestExists(queue: map<Path, int>)
    requires queue != map[]
    ensures exists p :: IsOldest(p, queue)
    decreases |queue|
  {
    var q :| q in queue;
    if queue.Keys == {q} {
      assert IsOldest(q, queue);
    } else {
      var rest := queue - {q};
      assert rest != map[] by {
        var r :| r in queue && r != q;
        assert r in rest;
      }
      OldestExists(rest);
      var p :| IsOldest(p, rest);
      var oldest := if queue[q] <= queue[p] then q else p;
      forall r | r in queue ensures queue[oldest] <= queue[r] {
        assert r == q || r in rest;
      }
      assert IsOldest(oldest, queue);
    }
  }

  predicate IsOldest(p: Path, queue: map<Path, int>) {
    p in queue && forall q :: q in queue ==> queue[p] <= queue[q]
  }

  class SizeLimiter {
    var queue: map<Path, int>
    var sizes: map<Path, nat>
    const sizeLimit: nat
    var inUse: nat

    /** Both structures hold the same paths and the running total is the sum of the sizes. */
    ghost predicate Valid()
      reads this
    {
      && queue.Keys == sizes.Keys
      && inUse == Total(sizes) < U64_LIMIT
    }

    constructor (limit: nat)
      ensures Valid() && queue == map[] && sizeLimit == limit
    {
      queue, sizes, sizeLimit, inUse := map[], map[], limit, 0;
    }

    method Add(file: Path, size: nat, accessed: int)
      requires Valid() && inUse + size < U64_LIMIT
      modifies this
      ensures Valid()
      ensures queue == old(queue)[file := accessed] && sizes == old(sizes)[file := size]
      ensures inUse <= old(inUse) + size
    {
      TotalUpdated(sizes, file, size);
      inUse := inUse + size;
      queue := queue[file := accessed];
      if file in sizes {
        TotalWithout(sizes, file);
        var oldSize := sizes[file];
        sizes := sizes[file := size];
        inUse := inUse - oldSize;
      } else {
        assert sizes - {file} == sizes;
        sizes := sizes[file := size];
      }
    }

    predicate ExceedsLimit()
      reads this
    {
      inUse > sizeLimit
    }

    /** Takes out a least recently accessed path while the budget is exceeded. Both error branches
        of the source are unreachable. */
    method Pop() returns (next: Option<Path>)
      requires Valid()
      modifies this
      ensures Valid()
      ensures next.Some? <==> old(ExceedsLimit())
      ensures next.None? ==> queue == old(queue) && sizes == old(sizes) && inUse == old(inUse)
      ensures next.Some? ==>
        && IsOldest(next.value, old(queue))
        && queue == old(queue) - {next.value} && sizes == old(sizes) - {next.value}
        && inUse + old(sizes)[next.value] == old(inUse)
    {
      assert queue == map[] ==> sizes == map[];
      if ExceedsLimit() {
        if queue != map[] {
          OldestExists(queue);
          var p :| IsOldest(p, queue);
          queue := queue - {p};
          if p in sizes {
            TotalWithout(sizes, p);
            inUse := inUse - sizes[p];
            sizes := sizes - {p};
          } else {
            assert false;
          }
          return Some(p);
        } else {
          assert false;
          return None;
        }
      } else {
        return None;
      }
    }

    method Update(file: Path, accessTime: int) returns (existed: bool)
      requires Valid()
      modifies this
      ensures Valid() && sizes == old(sizes) && inUse == old(inUse)
      ensures existed <==> file in old(queue)
      ensures queue == if existed then old(queue)[file := accessTime] else old(queue)
    {
      existed := file in queue;
      if existed {
        queue := queue[file := accessTime];
      }
    }

    method Remove(file: Path) returns (existed: bool)
      requires Valid()
      modifies this
      ensures Valid()
      ensures existed <==> file in old(queue)
      ensures queue == old(queue) - {file} && sizes == old(sizes) - {file}
      ensures inUse <= old(inUse)
    {
      if file !in queue {
        assert queue - {file} == queue && sizes - {file} == sizes;
        return false;
      }
      queue := queue - {file};
      if file in sizes {
        TotalWithout(sizes, file);
        inUse := inUse - sizes[file];
        sizes := sizes - {file};
      } else {
        assert false;
      }
      return true;
    }

    /** Evicts until the budget holds. Refused removals do not stop it; the last one is reported. */
    method Prune(refused: set<Path>) returns (evicted: seq<Path>, count: nat, r: Result<(), Path>)
      requires Valid()
      modifies this
      ensures Valid() && inUse <= sizeLimit && inUse <= old(inUse)
      ensures IsPruned(old(queue), old(sizes), sizeLimit, evicted)
      ensures queue == old(queue) - Set(evicted) && sizes == old(sizes) - Set(evicted)
      ensures count == Removed(evicted, refused)
      ensures r == LastRefused(evicted, refused)
    {
      evicted, count, r := [], 0, Ok(());
      ghost var gone := {};
      while true
        invariant Valid() && inUse <= old(inUse)
        invariant queue == old(queue) - gone && sizes == old(sizes) - gone
        invariant EvictedSoFar(old(queue), old(sizes), sizeLimit, evicted, gone)
        invariant Reported(evicted, refused, count, r)
        decreases |queue|
      {
        var file := Pop();
        if file.None? {
          break;
        }
        EvictedNext(old(queue), old(sizes), sizeLimit, evicted, gone, file.value);
        ReportedNext(evicted, file.value, refused, count, r);
        gone := gone + {file.value};
        evicted := evicted + [file.value];
        if file.value !in refused {
          count := count + 1;
        } else {
          r := Err(file.value);
        }
      }
    }
  }

  ghost function Set(ps: seq<Path>): set<Path> {
    if ps == [] then {} else Set(ps[..|ps| - 1]) + {ps[|ps| - 1]}
  }

  lemma {:induction false} SetMeans(ps: seq<Path>, p: Path)
    ensures p in Set(ps) <==> p in ps
  {
    if ps == [] {
    } else {
      SetMeans(ps[..|ps| - 1], p);
      assert ps == ps[..|ps| - 1] + [ps[|ps| - 1]];
    }
  }

  // ----- What a prune evicts

  /** Every evicted path was a least recently used one among those still there. */
  ghost predicate LruPrefix(queue: map<Path, int>, evicted: seq<Path>) {
    evicted != [] ==>
      var front, last := evicted[..|evicted| - 1], evicted[|evicted| - 1];
      LruPrefix(queue, front) && IsOldest(last, queue - Set(front))
  }

  lemma {:induction false} EvictedAt(queue: map<Path, int>, evicted: seq<Path>, i: nat)
    requires LruPrefix(queue, evicted) && i < |evicted|
    ensures IsOldest(evicted[i], queue - Set(evicted[..i]))
    decreases |evicted|
  {
    if i == |evicted| - 1 {
    } else {
      EvictedAt(queue, evicted[..|evicted| - 1], i);
      assert evicted[..|evicted| - 1][..i] == evicted[..i];
    }
  }

  /** A path that is not among the first `i` evicted ones was used no earlier than the next. */
  lemma UsedLater(queue: map<Path, int>, evicted: seq<Path>, i: nat, p: Path)
    requires LruPrefix(queue, evicted) && i < |evicted| && p in queue && p !in evicted[..i]
    ensures evicted[i] in queue && queue[evicted[i]] <= queue[p]
  {
    EvictedAt(queue, evicted, i);
    SetMeans(evicted[..i], p);
    assert p in queue - Set(evicted[..i]);
  }

  lemma NotEvictedBefore(queue: map<Path, int>, evicted: seq<Path>, i: nat, j: nat)
    requires LruPrefix(queue, evicted) && i <= j < |evicted|
    ensures evicted[j] in queue && evicted[j] !in evicted[..i]
  {
    EvictedAt(queue, evicted, j);
    SetMeans(evicted[..j], evicted[j]);
    assert evicted[..i] == evicted[..j][..i];
  }

  /** Evicted paths are distinct, come oldest first, and none was used later than a path that stays. */
  lemma LruPrefixMeans(queue: map<Path, int>, evicted: seq<Path>)
    requires LruPrefix(queue, evicted)
    ensures forall i :: 0 <= i < |evicted| ==> evicted[i] in queue
    ensures forall i, j :: 0 <= i < j < |evicted| ==>
      evicted[i] != evicted[j] && queue[evicted[i]] <= queue[evicted[j]]
    ensures forall i, p :: 0 <= i < |evicted| && p in queue && p !in evicted ==> queue[evicted[i]] <= queue[p]
  {
    forall i | 0 <= i < |evicted| ensures evicted[i] in queue {
      NotEvictedBefore(queue, evicted, i, i);
    }
    forall i, j | 0 <= i < j < |evicted|
      ensures evicted[i] != evicted[j] && queue[evicted[i]] <= queue[evicted[j]]
    {
      NotEvictedBefore(queue, evicted, i + 1, j);
      assert evicted[..i + 1][i] == evicted[i];
      NotEvictedBefore(queue, evicted, i, j);
      UsedLater(queue, evicted, i, evicted[j]);
    }
    forall i, p | 0 <= i < |evicted| && p in queue && p !in evicted ensures queue[evicted[i]] <= queue[p] {
      UsedLater(queue, evicted, i, p);
    }
  }

  /** The budget was still exceeded just before the last eviction. */
  ghost predicate StillOver(sizes: map<Path, nat>, limit: nat, evicted: seq<Path>) {
    evicted != [] ==> Total(sizes - Set(evicted[..|evicted| - 1])) > limit
  }

  ghost predicate EvictedSoFar(queue: map<Path, int>, sizes: map<Path, nat>, limit: nat,
                               evicted: seq<Path>, gone: set<Path>)
  {
    gone == Set(evicted) && LruPrefix(queue, evicted) && StillOver(sizes, limit, evicted)
  }

  lemma EvictedNext(queue: map<Path, int>, sizes: map<Path, nat>, limit: nat,
                    evicted: seq<Path>, gone: set<Path>, next: Path)
    requires EvictedSoFar(queue, sizes, limit, evicted, gone)
    requires IsOldest(next, queue - gone) && Total(sizes - gone) > limit
    ensures EvictedSoFar(queue, sizes, limit, evicted + [next], gone + {next})
    ensures queue - gone - {next} == queue - (gone + {next})
    ensures sizes - gone - {next} == sizes - (gone + {next})
  {
  }

  ghost predicate Reported(evicted: seq<Path>, refused: set<Path>, count: nat, r: Result<(), Path>) {
    count == Removed(evicted, refused) && r == LastRefused(evicted, refused)
  }

  lemma ReportedNext(evicted: seq<Path>, next: Path, refused: set<Path>, count: nat, r: Result<(), Path>)
    requires Reported(evicted, refused, count, r)
    ensures next !in refused ==> Reported(evicted + [next], refused, count + 1, r)
    ensures next in refused ==> Reported(evicted + [next], refused, count, Err(next))
  {
  }

  ghost predicate IsPruned(queue: map<Path, int>, sizes: map<Path, nat>, limit: nat, evicted: seq<Path>) {
    && LruPrefix(queue, evicted)
    && Total(sizes - Set(evicted)) <= limit
    && StillOver(sizes, limit, evicted)
  }

  ghost function Removed(evicted: seq<Path>, refused: set<Path>): nat {
    if evicted == [] then 0 else
      Removed(evicted[..|evicted| - 1], refused) + if evicted[|evicted| - 1] !in refused then 1 else 0
  }

  ghost function LastRefused(evicted: seq<Path>, refused: set<Path>): Result<(), Path> {
    if evicted == [] then Ok(())
    else if evicted[|evicted| - 1] in refused then Err(evicted[|evicted| - 1])
    else LastRefused(evicted[..|evicted| - 1], refused)
  }

  /** Success means that the file system really dropped every evicted file. */
  lemma {:induction false} OkMeansAllRemoved(evicted: seq<Path>, refused: set<Path>)
    ensures LastRefused(evicted, refused).Ok? <==> Removed(evicted, refused) == |evicted|
    ensures Removed(evicted, refused) <= |evicted|
    ensures LastRefused(evicted, refused).Ok? <==> forall p :: p in evicted ==> p !in refused
  {
    if evicted == [] {
    } else {
      var front, last := evicted[..|evicted| - 1], evicted[|evicted| - 1];
      OkMeansAllRemoved(front, refused);
      assert forall p :: p in evicted <==> p in front || p == last;
    }
  }

  /** The count is the number of evicted files that were not refused; the error is the last one that was. */
  lemma {:induction false} ReportMeans(evicted: seq<Path>, refused: set<Path>)
    ensures forall p :: LastRefused(evicted, refused) == Err(p) ==>
      exists i: nat :: IsLastRefused(evicted, refused, p, i)
    ensures (forall i, j :: 0 <= i < j < |evicted| ==> evicted[i] != evicted[j]) ==>
      Removed(evicted, refused) == |set p | p in evicted && p !in refused|
  {
    if evicted == [] {
      assert (set p | p in evicted && p !in refused) == {};
    } else {
      var front, last := evicted[..|evicted| - 1], evicted[|evicted| - 1];
      ReportMeans(front, refused);
      assert forall p :: p in evicted <==> p in front || p == last;
      if last in refused {
        assert IsLastRefused(evicted, refused, last, |evicted| - 1);
        assert (set p | p in evicted && p !in refused) == (set p | p in front && p !in refused);
      } else {
        forall p, i: nat | IsLastRefused(front, refused, p, i) ensures IsLastRefused(evicted, refused, p, i) {
        }
        assert (set p | p in evicted && p !in refused) == (set p | p in front && p !in refused) + {last};
      }
    }
  }

  ghost predicate IsLastRefused(evicted: seq<Path>, refused: set<Path>, p: Path, i: nat) {
    i < |evicted| && evicted[i] == p && p in refused && forall k :: i < k < |evicted| ==> evicted[k] !in refused
  }

  /** A set of paths an LRU policy could have evicted: nothing in it was used later than what stays. */
  ghost predicate LruSet(queue: map<Path, int>, gone: set<Path>) {
    gone <= queue.Keys && forall p, q :: p in gone && q in queue && q !in gone ==> queue[p] <= queue[q]
  }

  /** The paths evicted before the last one are not enough for any LRU policy: a set of paths that
      brings the total within the limit contains something else. */
  lemma FrontIsNotEnough(queue: map<Path, int>, sizes: map<Path, nat>, limit: nat,
                         evicted: seq<Path>, gone: set<Path>) returns (p: Path)
    requires queue.Keys == sizes.Keys && IsPruned(queue, sizes, limit, evicted) && evicted != []
    requires gone <= queue.Keys && Total(sizes - gone) <= limit
    ensures p in gone && p !in evicted[..|evicted| - 1]
  {
    var front := evicted[..|evicted| - 1];
    if gone <= Set(front) {
      TotalMonotonic(sizes - Set(front), sizes - gone);
    }
    p :| p in gone && p !in Set(front);
    SetMeans(front, p);
  }

  /** A prune evicts as little as any LRU policy can. Every LRU set that brings the total within the
      limit contains all that was evicted, up to the choice among paths as old as the last one. */
  lemma PruneIsLeast(queue: map<Path, int>, sizes: map<Path, nat>, limit: nat, evicted: seq<Path>, gone: set<Path>)
    requires queue.Keys == sizes.Keys && IsPruned(queue, sizes, limit, evicted) && evicted != []
    requires LruSet(queue, gone) && Total(sizes - gone) <= limit
    ensures evicted[|evicted| - 1] in queue
    ensures forall e :: e in evicted ==> e in queue && (e in gone || queue[e] == queue[evicted[|evicted| - 1]])
    ensures exists p :: p in gone && p !in evicted[..|evicted| - 1] && queue[p] >= queue[evicted[|evicted| - 1]]
    ensures (forall p :: p in queue && queue[p] == queue[evicted[|evicted| - 1]] ==> p == evicted[|evicted| - 1]) ==>
      forall e :: e in evicted ==> e in gone
  {
    var last := |evicted| - 1;
    var p := FrontIsNotEnough(queue, sizes, limit, evicted, gone);
    LruPrefixMeans(queue, evicted);
    UsedLater(queue, evicted, last, p);
    forall e | e in evicted ensures e in queue && (e in gone || queue[e] == queue[evicted[last]]) {
      var i :| 0 <= i < |evicted| && evicted[i] == e;
      assert queue[e] <= queue[evicted[last]];
    }
  }

  // ----- Whole histories of the limiter

  datatype Op = Add(file: Path, size: nat, at: int) | Update(file: Path, at: int) | Remove(file: Path) | Prune

  /** An operation with the paths it evicted, which only a prune does. */
  datatype Done = Done(op: Op, evicted: seq<Path>)

  function Ops(log: seq<Done>): (ops: seq<Op>)
    ensures |ops| == |log|
  {
    if log == [] then [] else Ops(log[..|log| - 1]) + [log[|log| - 1].op]
  }

  datatype Held = Held(queue: map<Path, int>, sizes: map<Path, nat>)

  /** What an operation makes of the two structures. */
  ghost function Next(h: Held, d: Done): Held {
    match d.op
    case Add(file, size, at) => Held(h.queue[file := at], h.sizes[file := size])
    case Update(file, at) => if file in h.queue then h.(queue := h.queue[file := at]) else h
    case Remove(file) => Held(h.queue - {file}, h.sizes - {file})
    case Prune => Held(h.queue - Set(d.evicted), h.sizes - Set(d.evicted))
  }

  ghost function After(log: seq<Done>): Held {
    if log == [] then Held(map[], map[]) else Next(After(log[..|log| - 1]), log[|log| - 1])
  }

  /** Only prunes evict, and each evicts what a prune of the structures before it does. */
  ghost predicate AllPruned(limit: nat, log: seq<Done>) {
    log != [] ==>
      var front, last := log[..|log| - 1], log[|log| - 1];
      && AllPruned(limit, front)
      && (if last.op.Prune? then IsPruned(After(front).queue, After(front).sizes, limit, last.evicted)
          else last.evicted == [])
  }

  // ----- What the structures hold after a history

  predicate Drops(d: Done, file: Path) {
    d.op == Remove(file) || file in d.evicted
  }

  /** Operation `i` added the path, and it was neither added again, removed nor evicted since. */
  ghost predicate IsAdded(log: seq<Done>, file: Path, i: nat) {
    && i < |log| && log[i].op.Add? && log[i].op.file == file
    && forall k :: i < k < |log| ==> !Drops(log[k], file) && !(log[k].op.Add? && log[k].op.file == file)
  }

  /** Operation `i` added the path or set its time, and no later one did. */
  ghost predicate IsTouched(log: seq<Done>, file: Path, i: nat) {
    && i < |log| && Touches(log[i].op, file)
    && forall k :: i < k < |log| ==> !Touches(log[k].op, file)
  }

  predicate Touches(op: Op, file: Path) {
    (op.Add? || op.Update?) && op.file == file
  }

  lemma {:induction false} SameKeys(limit: nat, log: seq<Done>)
    requires AllPruned(limit, log)
    ensures After(log).queue.Keys == After(log).sizes.Keys
  {
    if log == [] {
    } else {
      SameKeys(limit, log[..|log| - 1]);
    }
  }

  lemma NextMeans(h: Held, d: Done, file: Path)
    requires h.queue.Keys == h.sizes.Keys && (!d.op.Prune? ==> d.evicted == [])
    ensures file in Next(h, d).queue <==>
      if d.op.Add? && d.op.file == file then true else file in h.queue && !Drops(d, file)
    ensures file in Next(h, d).queue && !Touches(d.op, file) ==> Next(h, d).queue[file] == h.queue[file]
    ensures file in Next(h, d).queue && Touches(d.op, file) ==> Next(h, d).queue[file] == d.op.at
  {
    SetMeans(d.evicted, file);
  }

  lemma NextSize(h: Held, d: Done, file: Path)
    requires file in Next(h, d).sizes
    ensures Next(h, d).sizes[file] ==
      if d.op.Add? && d.op.file == file then d.op.size else if file in h.sizes then h.sizes[file] else 0
  {
  }

  lemma {:induction false} AddedIsHeld(limit: nat, log: seq<Done>, file: Path, i: nat)
    requires AllPruned(limit, log) && IsAdded(log, file, i)
    ensures file in After(log).queue
  {
    var n := |log| - 1;
    if i == n {
    } else {
      SameKeys(limit, log[..n]);
      AddedIsHeld(limit, log[..n], file, i);
      NextMeans(After(log[..n]), log[n], file);
    }
  }

  lemma {:induction false} HeldWasAdded(limit: nat, log: seq<Done>, file: Path) returns (i: nat)
    requires AllPruned(limit, log) && file in After(log).queue
    ensures IsAdded(log, file, i)
    ensures file in After(log).sizes && After(log).sizes[file] == log[i].op.size
  {
    if log == [] {
      assert false;
    } else {
      var n := |log| - 1;
      var h := After(log[..n]);
      SameKeys(limit, log[..n]);
      SameKeys(limit, log);
      NextMeans(h, log[n], file);
      NextSize(h, log[n], file);
      if log[n].op.Add? && log[n].op.file == file {
        i := n;
      } else {
        i := HeldWasAdded(limit, log[..n], file);
      }
    }
  }

  lemma {:induction false} HeldWasTouched(limit: nat, log: seq<Done>, file: Path) returns (i: nat)
    requires AllPruned(limit, log) && file in After(log).queue
    ensures IsTouched(log, file, i) && After(log).queue[file] == log[i].op.at
  {
    if log == [] {
      assert false;
    } else {
      var n := |log| - 1;
      SameKeys(limit, log[..n]);
      NextMeans(After(log[..n]), log[n], file);
      if Touches(log[n].op, file) {
        i := n;
      } else {
        i := HeldWasTouched(limit, log[..n], file);
      }
    }
  }

  /** A path is present exactly when some operation added it and none removed or evicted it since; then
      its size is the one it was added with, and its time the last one it was given. */
  lemma HistoryMeans(limit: nat, log: seq<Done>, file: Path)
    requires AllPruned(limit, log)
    ensures file in After(log).queue <==> exists i: nat :: IsAdded(log, file, i)
    ensures forall i: nat :: IsAdded(log, file, i) ==>
      file in After(log).sizes && After(log).sizes[file] == log[i].op.size
    ensures forall i: nat :: IsTouched(log, file, i) && file in After(log).queue ==>
      After(log).queue[file] == log[i].op.at
  {
    forall i: nat | IsAdded(log, file, i) ensures file in After(log).queue {
      AddedIsHeld(limit, log, file, i);
    }
    if file in After(log).queue {
      var added := HeldWasAdded(limit, log, file);
      var touched := HeldWasTouched(limit, log, file);
      forall i: nat | IsAdded(log, file, i) ensures i == added {
        OnlyAdded(log, file, i, added);
      }
      forall i: nat | IsTouched(log, file, i) ensures i == touched {
        OnlyTouched(log, file, i, touched);
      }
    }
  }

  lemma OnlyAdded(log: seq<Done>, file: Path, i: nat, j: nat)
    requires IsAdded(log, file, i) && IsAdded(log, file, j)
    ensures i == j
  {
  }

  lemma OnlyTouched(log: seq<Done>, file: Path, i: nat, j: nat)
    requires IsTouched(log, file, i) && IsTouched(log, file, j)
    ensures i == j
  {
  }

  lemma OneMore(limit: nat, log: seq<Done>, d: Done)
    requires AllPruned(limit, log)
    requires if d.op.Prune? then IsPruned(After(log).queue, After(log).sizes, limit, d.evicted) else d.evicted == []
    ensures AllPruned(limit, log + [d]) && After(log + [d]) == Next(After(log), d)
    ensures Ops(log + [d]) == Ops(log) + [d.op]
  {
    assert (log + [d])[..|log|] == log;
  }

  /** The limiter holds what the operations and the evictions leave. */
  ghost predicate Follows(l: SizeLimiter, log: seq<Done>)
    reads l
  {
    Held(l.queue, l.sizes) == After(log) && AllPruned(l.sizeLimit, log)
  }

  method Apply(l: SizeLimiter, op: Op, refused: set<Path>) returns (d: Done)
    requires l.Valid() && (op.Add? ==> l.inUse + op.size < U64_LIMIT)
    modifies l
    ensures l.Valid() && d.op == op
    ensures Held(l.queue, l.sizes) == Next(old(Held(l.queue, l.sizes)), d)
    ensures if op.Prune? then IsPruned(old(l.queue), old(l.sizes), l.sizeLimit, d.evicted) else d.evicted == []
    ensures op.Prune? ==> l.inUse <= l.sizeLimit
  {
    d := Done(op, []);
    match op {
      case Add(file, size, at) => l.Add(file, size, at);
      case Update(file, at) => var existed := l.Update(file, at);
      case Remove(file) => var existed := l.Remove(file);
      case Prune =>
        var evicted, count, r := l.Prune(refused);
        d := Done(op, evicted);
    }
  }

  method RunOne(l: SizeLimiter, op: Op, refused: set<Path>, log: seq<Done>) returns (d: Done)
    requires l.Valid() && Follows(l, log) && (op.Add? ==> l.inUse + op.size < U64_LIMIT)
    modifies l
    ensures l.Valid() && Follows(l, log + [d]) && Ops(log + [d]) == Ops(log) + [op]
    ensures op.Prune? ==> l.inUse <= l.sizeLimit
  {
    d := Apply(l, op, refused);
    OneMore(l.sizeLimit, log, d);
  }

  lemma TakeOneMore(ops: seq<Op>, n: nat)
    requires n < |ops|
    ensures ops[..n] + [ops[n]] == ops[..n + 1]
  {
  }

  /** In every run the two structures agree, the total is exact, and both hold what the operations and
      the evictions leave. A run ends early only at an `Add` that would take the 64-bit total over its
      range. */
  method Run(limit: nat, ops: seq<Op>, refused: set<Path>) returns (l: SizeLimiter, log: seq<Done>)
    ensures fresh(l) && l.Valid() && l.sizeLimit == limit && Follows(l, log)
    ensures |log| <= |ops| && Ops(log) == ops[..|log|]
    ensures |log| < |ops| ==> ops[|log|].Add? && l.inUse + ops[|log|].size >= U64_LIMIT
    ensures log != [] && ops[|log| - 1].Prune? ==> l.inUse <= limit
  {
    l := new SizeLimiter(limit);
    log := [];
    var n := 0;
    ghost var done: seq<Op> := [];
    while n < |ops|
      invariant n <= |ops| && fresh(l) && l.Valid() && l.sizeLimit == limit && Follows(l, log)
      invariant |log| == n && Ops(log) == done == ops[..n]
      invariant n > 0 && ops[n - 1].Prune? ==> l.inUse <= limit
    {
      if ops[n].Add? && l.inUse + ops[n].size >= U64_LIMIT {
        return;
      }
      var d := RunOne(l, ops[n], refused, log);
      TakeOneMore(ops, n);
      log := log + [d];
      done := done + [ops[n]];
      n := n + 1;
    }
  }
}
