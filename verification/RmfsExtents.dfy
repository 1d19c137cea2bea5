/** Extent lists of RMFS inodes (kernel/rmfs.c).

    An inode names its blocks by at most six extents. `Blocks` is what an extent
    list means: the physical block numbers in logical order. The routines that cut
    and splice extent lists are proved against that meaning. */
module RmfsExtents {

  const INLINE_EXTENTS: nat := 6
  const UINT32_MAX: nat := 0xFFFF_FFFF
  const UINT64_MAX: nat := 0xFFFF_FFFF_FFFF_FFFF

  datatype Extent = Extent(logical: nat, physical: nat, count: nat)

  /** The block numbers `first, first + 1, ..., first + count - 1`. */
  function Run(first: nat, count: nat): (r: seq<nat>)
    ensures |r| == count
    ensures forall i :: 0 <= i < count ==> r[i] == first + i
  {
    seq(count, i requires 0 <= i => first + i)
  }

  lemma ConcatIsAssociative(a: seq<nat>, b: seq<nat>, c: seq<nat>)
    ensures (a + b) + c == a + (b + c)
    ensures a + [] == a
  {
  }

  /** The physical blocks the first `n` extents name, in logical order. */
  function BlocksOf(xs: seq<Extent>, n: nat): seq<nat>
    requires n <= |xs|
  {
    if n == 0 then [] else BlocksOf(xs, n - 1) + Run(xs[n - 1].physical, xs[n - 1].count)
  }

  /** The physical blocks an extent list names, in logical order. */
  function Blocks(xs: seq<Extent>): seq<nat> {
    BlocksOf(xs, |xs|)
  }

  /** The first `n` extents cover consecutive logical blocks starting at `base`, none is
      empty and every count fits the 32-bit field. */
  ghost predicate ChainedOf(xs: seq<Extent>, base: nat, n: nat)
    requires n <= |xs|
  {
    n > 0 ==>
      && ChainedOf(xs, base, n - 1)
      && xs[n - 1].logical == base + |BlocksOf(xs, n - 1)|
      && 0 < xs[n - 1].count <= UINT32_MAX
  }

  ghost predicate Chained(xs: seq<Extent>, base: nat) {
    ChainedOf(xs, base, |xs|)
  }

  lemma {:induction false} BlocksAgree(xs: seq<Extent>, ys: seq<Extent>, n: nat)
    requires n <= |xs| && n <= |ys|
    requires forall i :: 0 <= i < n ==> xs[i] == ys[i]
    ensures BlocksOf(xs, n) == BlocksOf(ys, n)
  {
    if n > 0 {
      BlocksAgree(xs, ys, n - 1);
    }
  }

  lemma BlocksSnoc(xs: seq<Extent>, x: Extent)
    ensures Blocks(xs + [x]) == Blocks(xs) + Run(x.physical, x.count)
  {
    BlocksAgree(xs, xs + [x], |xs|);
  }

  /** Prefixes of a list name a prefix of its blocks. */
  lemma {:induction false} BlocksMonotone(xs: seq<Extent>, i: nat, j: nat)
    requires i <= j <= |xs|
    ensures BlocksOf(xs, i) <= BlocksOf(xs, j)
    decreases j - i
  {
    if i < j {
      BlocksMonotone(xs, i, j - 1);
    }
  }

  /** Where one extent's blocks sit inside the whole list. */
  lemma BlocksAt(xs: seq<Extent>, i: nat, k: nat)
    requires i < |xs| && k < xs[i].count
    ensures |BlocksOf(xs, i)| + xs[i].count <= |Blocks(xs)|
    ensures Blocks(xs)[|BlocksOf(xs, i)| + k] == xs[i].physical + k
  {
    BlocksMonotone(xs, i + 1, |xs|);
    assert BlocksOf(xs, i + 1)[|BlocksOf(xs, i)| + k] == xs[i].physical + k;
  }

  lemma {:induction false} ChainedAgree(xs: seq<Extent>, ys: seq<Extent>, base: nat, n: nat)
    requires n <= |xs| && n <= |ys|
    requires forall i :: 0 <= i < n ==> xs[i] == ys[i]
    requires ChainedOf(xs, base, n)
    ensures ChainedOf(ys, base, n)
  {
    if n > 0 {
      BlocksAgree(xs, ys, n - 1);
      ChainedAgree(xs, ys, base, n - 1);
    }
  }

  lemma {:induction false} ChainedAt(xs: seq<Extent>, base: nat, n: nat, i: nat)
    requires n <= |xs| && ChainedOf(xs, base, n) && i < n
    ensures xs[i].logical == base + |BlocksOf(xs, i)| && 0 < xs[i].count <= UINT32_MAX
  {
    if i < n - 1 {
      ChainedAt(xs, base, n - 1, i);
    }
  }

  lemma ChainedSnoc(xs: seq<Extent>, base: nat, x: Extent)
    requires Chained(xs, base)
    requires x.logical == base + |Blocks(xs)| && 0 < x.count <= UINT32_MAX
    ensures Chained(xs + [x], base)
  {
    BlocksAgree(xs, xs + [x], |xs|);
    ChainedAgree(xs, xs + [x], base, |xs|);
  }

  // ---------------------------------------------------------------- lookup

  /** The block behind logical number `logical`, or 0 when no extent covers it. */
  method PhysicalBlock(xs: seq<Extent>, logical: nat) returns (physical: nat)
    requires Chained(xs, 0)
    ensures logical < |Blocks(xs)| ==> physical == Blocks(xs)[logical]
    ensures logical >= |Blocks(xs)| ==> physical == 0
  {
    var i := 0;
    while i < |xs|
      invariant 0 <= i <= |xs|
      invariant |BlocksOf(xs, i)| <= logical
    {
      var x := xs[i];
      ChainedAt(xs, 0, |xs|, i);
      if logical >= x.logical && logical - x.logical < x.count {
        BlocksAt(xs, i, logical - x.logical);
        return x.physical + logical - x.logical;
      }
      i := i + 1;
    }
    physical := 0;
  }

  /** The number of blocks an inode owns. */
  method BlockCount(xs: seq<Extent>) returns (count: nat)
    ensures count == |Blocks(xs)|
  {
    count := 0;
    var i := 0;
    while i < |xs|
      invariant 0 <= i <= |xs|
      invariant count == |BlocksOf(xs, i)|
    {
      count := count + xs[i].count;
      i := i + 1;
    }
  }

  // ---------------------------------------------------------------- append

  /** The list can be continued at `logical` without a hole. */
  predicate EndsAt(xs: seq<Extent>, logical: nat) {
    xs != [] ==> xs[|xs| - 1].logical + xs[|xs| - 1].count == logical
  }

  /** New blocks extend the last extent of the list. */
  predicate Joins(xs: seq<Extent>, physical: nat, count: nat) {
    && xs != []
    && xs[|xs| - 1].physical + xs[|xs| - 1].count == physical
    && count + xs[|xs| - 1].count <= UINT32_MAX
  }

  /** Appends `count` blocks at `logical`: widens the last extent when the new blocks
      follow it physically and the 32-bit count does not overflow, opens a new extent
      otherwise; refuses a logical hole and a seventh extent. */
  method AppendExtent(xs: seq<Extent>, logical: nat, physical: nat, count: nat, ghost base: nat)
    returns (ok: bool, ys: seq<Extent>)
    requires count <= UINT32_MAX && |xs| <= INLINE_EXTENTS
    ensures |xs| <= |ys| <= INLINE_EXTENTS
    ensures !ok ==> ys == xs
    ensures ok <==> count == 0 || (EndsAt(xs, logical) && (|xs| < INLINE_EXTENTS || Joins(xs, physical, count)))
    ensures ok ==> Blocks(ys) == Blocks(xs) + Run(physical, count)
    ensures ok && count > 0 ==> EndsAt(ys, logical + count)
    ensures ok && Chained(xs, base) && (xs == [] ==> logical == base) ==> Chained(ys, base)
  {
    if count == 0 {
      return true, xs;
    }
    if |xs| != 0 {
      var last := xs[|xs| - 1];
      if last.logical + last.count != logical {
        return false, xs;
      }
      if last.physical + last.count == physical && count + last.count <= UINT32_MAX {
        ys := xs[|xs| - 1 := last.(count := last.count + count)];
        WidenLast(xs, count, base);
        return true, ys;
      }
    }
    if |xs| == INLINE_EXTENTS {
      return false, xs;
    }
    ys := xs + [Extent(logical, physical, count)];
    ok := true;
    BlocksSnoc(xs, Extent(logical, physical, count));
    if Chained(xs, base) && (xs == [] ==> logical == base) {
      ChainedSnoc(xs, base, Extent(logical, physical, count));
    }
  }

  lemma WidenLast(xs: seq<Extent>, count: nat, base: nat)
    requires xs != []
    requires xs[|xs| - 1].count + count <= UINT32_MAX
    ensures var last := xs[|xs| - 1]; var ys := xs[|xs| - 1 := last.(count := last.count + count)];
      && Blocks(ys) == Blocks(xs) + Run(last.physical + last.count, count)
      && (Chained(xs, base) ==> Chained(ys, base))
  {
    var last := xs[|xs| - 1];
    var ys := xs[|xs| - 1 := last.(count := last.count + count)];
    assert Run(last.physical, last.count + count) == Run(last.physical, last.count) + Run(last.physical + last.count, count);
    BlocksAgree(xs, ys, |xs| - 1);
    if Chained(xs, base) {
      ChainedAgree(xs, ys, base, |xs| - 1);
    }
  }

  /** The blocks at logical positions `first..end`, nothing when the range is empty. */
  function Slice(blocks: seq<nat>, first: nat, end: nat): seq<nat>
    requires first < end ==> end <= |blocks|
  {
    if first < end then blocks[first..end] else []
  }

  function Clamp(x: nat, lo: nat, hi: nat): nat {
    if x <= lo then lo else if x <= hi then x else hi
  }

  /** The blocks of one extent that lie at logical positions `first..end`. */
  function Cut(x: Extent, first: nat, end: nat): seq<nat> {
    var low := if first > x.logical then first else x.logical;
    var high := if end < x.logical + x.count then end else x.logical + x.count;
    if low < high then Run(x.physical + low - x.logical, high - low) else []
  }

  /** The first `n` extents cut down to logical blocks `first..end`. */
  function CutOf(xs: seq<Extent>, first: nat, end: nat, n: nat): seq<nat>
    requires n <= |xs|
  {
    if n == 0 then [] else CutOf(xs, first, end, n - 1) + Cut(xs[n - 1], first, end)
  }

  /** One more extent behind the blocks `b`: its cut is what the slice gains. */
  lemma SliceOfAppend(b: seq<nat>, x: Extent, first: nat, end: nat)
    requires first < end && x.logical == |b|
    ensures var more := b + Run(x.physical, x.count);
      Slice(more, first, Clamp(|more|, first, end)) == Slice(b, first, Clamp(|b|, first, end)) + Cut(x, first, end)
  {
    var c := Run(x.physical, x.count);
    var low := if first > |b| then first else |b|;
    var high := if end < |b + c| then end else |b + c|;
    SliceMore(b, c, first, end);
    if low < high {
      RunPart(x.physical, x.count, low - |b|, high - |b|);
    }
  }

  lemma SliceMore(b: seq<nat>, c: seq<nat>, first: nat, end: nat)
    requires first < end
    ensures
      var low, high := if first > |b| then first else |b|, if end < |b + c| then end else |b + c|;
      Slice(b + c, first, Clamp(|b + c|, first, end)) ==
      Slice(b, first, Clamp(|b|, first, end)) + if low < high then c[low - |b|..high - |b|] else []
  {
    var covered := Clamp(|b + c|, first, end);
    if |b| >= end {
      assert (b + c)[first..end] == b[first..end];
    } else if first < |b| {
      SliceAcross(b, c, first, covered);
    } else if first < covered {
      SliceBehind(b, c, first, covered);
    }
  }

  lemma SliceAcross(b: seq<nat>, c: seq<nat>, i: nat, j: nat)
    requires i <= |b| <= j <= |b + c|
    ensures (b + c)[i..j] == b[i..] + c[..j - |b|]
  {
  }

  lemma SliceBehind(b: seq<nat>, c: seq<nat>, i: nat, j: nat)
    requires |b| <= i <= j <= |b + c|
    ensures (b + c)[i..j] == c[i - |b|..j - |b|]
  {
  }

  lemma RunPart(first: nat, count: nat, i: nat, j: nat)
    requires i <= j <= count
    ensures Run(first, count)[i..j] == Run(first + i, j - i)
  {
  }

  /** Cutting every extent to a range is the same as slicing the named blocks. */
  lemma {:induction false} CutIsSlice(xs: seq<Extent>, first: nat, end: nat, n: nat)
    requires n <= |xs| && ChainedOf(xs, 0, n) && first < end
    ensures CutOf(xs, first, end, n) == Slice(BlocksOf(xs, n), first, Clamp(|BlocksOf(xs, n)|, first, end))
  {
    if n > 0 {
      CutIsSlice(xs, first, end, n - 1);
      SliceOfAppend(BlocksOf(xs, n - 1), xs[n - 1], first, end);
    }
  }

  /** The next extent either misses `first..end`, or its overlap starts where the cut of
      the earlier extents ends. */
  lemma NextOverlap(xs: seq<Extent>, first: nat, end: nat, i: nat, low: nat, high: nat)
    requires Chained(xs, 0) && i < |xs| && first < end
    requires low == if first > xs[i].logical then first else xs[i].logical
    requires high == if end < xs[i].logical + xs[i].count then end else xs[i].logical + xs[i].count
    ensures low >= high ==> Cut(xs[i], first, end) == []
    ensures low < high ==> low == first + |CutOf(xs, first, end, i)| && high - low <= UINT32_MAX
    ensures low < high ==> Cut(xs[i], first, end) == Run(xs[i].physical + low - xs[i].logical, high - low)
  {
    ChainedPrefix(xs, 0, |xs|, i);
    ChainedAt(xs, 0, |xs|, i);
    CutIsSlice(xs, first, end, i);
  }

  lemma {:induction false} ChainedPrefix(xs: seq<Extent>, base: nat, n: nat, i: nat)
    requires i <= n <= |xs| && ChainedOf(xs, base, n)
    ensures ChainedOf(xs, base, i)
  {
    if i < n {
      ChainedPrefix(xs, base, n - 1, i);
    }
  }

  /** The loop of `AppendInodeRange`: appends every source extent cut to `first..end`. */
  method AppendCuts(xs: seq<Extent>, source: seq<Extent>, first: nat, end: nat, ghost base: nat)
    returns (fits: bool, covered: nat, ys: seq<Extent>)
    requires |xs| <= INLINE_EXTENTS && Chained(source, 0) && first < end
    ensures |ys| <= INLINE_EXTENTS
    ensures fits ==> covered == first + |CutOf(source, first, end, |source|)|
    ensures fits ==> Blocks(ys) == Blocks(xs) + CutOf(source, first, end, |source|)
    ensures fits && first < covered ==> EndsAt(ys, covered)
    ensures fits && Chained(xs, base) && (xs == [] ==> first == base) ==> Chained(ys, base)
    ensures !fits ==> !EndsAt(xs, first) || |ys| == INLINE_EXTENTS
  {
    hide ChainedOf, BlocksOf, Cut, Run, Joins;
    ys := xs;
    covered := first;
    var i := 0;
    while i < |source|
      invariant 0 <= i <= |source|
      invariant |ys| <= INLINE_EXTENTS
      invariant covered == first + |CutOf(source, first, end, i)|
      invariant Blocks(ys) == Blocks(xs) + CutOf(source, first, end, i)
      invariant covered == first ==> ys == xs
      invariant first < covered ==> EndsAt(ys, covered) && ys != []
      invariant Chained(xs, base) && (xs == [] ==> first == base) ==> Chained(ys, base)
    {
      var x := source[i];
      var extentEnd := x.logical + x.count;
      var overlapFirst := if first > x.logical then first else x.logical;
      var overlapEnd := if end < extentEnd then end else extentEnd;
      NextOverlap(source, first, end, i, overlapFirst, overlapEnd);
      ConcatIsAssociative(Blocks(xs), CutOf(source, first, end, i), Cut(x, first, end));
      if overlapFirst < overlapEnd {
        if overlapFirst != covered || overlapEnd - overlapFirst > UINT32_MAX {
          assert false;
        }
        fits, ys := AppendExtent(ys, overlapFirst, x.physical + overlapFirst - x.logical,
                                 overlapEnd - overlapFirst, base);
        if !fits {
          return;
        }
        covered := overlapEnd;
      }
      i := i + 1;
    }
    fits := true;
  }

  /** Appends the part of `source` between logical blocks `first` and `end`. It fails
      only when the range leaves the source, the destination does not end at `first`,
      or six extents are not enough. */
  method AppendInodeRange(xs: seq<Extent>, source: seq<Extent>, first: nat, end: nat, ghost base: nat)
    returns (ok: bool, ys: seq<Extent>)
    requires |xs| <= INLINE_EXTENTS && Chained(source, 0)
    ensures |ys| <= INLINE_EXTENTS
    ensures ok && first < end ==> end <= |Blocks(source)|
    ensures ok ==> Blocks(ys) == Blocks(xs) + Slice(Blocks(source), first, end)
    ensures ok && first < end ==> EndsAt(ys, end)
    ensures !ok ==> first < end && (end > |Blocks(source)| || !EndsAt(xs, first) || |ys| == INLINE_EXTENTS)
    ensures ok && Chained(xs, base) && (xs == [] ==> first == base) ==> Chained(ys, base)
  {
    if first >= end {
      return true, xs;
    }
    var covered;
    ok, covered, ys := AppendCuts(xs, source, first, end, base);
    CutIsSlice(source, first, end, |source|);
    ok := ok && covered == end;
  }

  /** Appends a freshly allocated list at logical base `base`. */
  method AppendAllocated(xs: seq<Extent>, allocation: seq<Extent>, base: nat, ghost start: nat)
    returns (ok: bool, ys: seq<Extent>)
    requires |xs| <= INLINE_EXTENTS && Chained(allocation, 0)
    ensures |ys| <= INLINE_EXTENTS
    ensures ok ==> Blocks(ys) == Blocks(xs) + Blocks(allocation)
    ensures ok && allocation != [] ==> EndsAt(ys, base + |Blocks(allocation)|)
    ensures !ok ==> !EndsAt(xs, base) || |ys| == INLINE_EXTENTS || base + |Blocks(allocation)| > UINT64_MAX
    ensures ok && Chained(xs, start) && (xs == [] ==> base == start) ==> Chained(ys, start)
  {
    ys := xs;
    var i := 0;
    while i < |allocation|
      invariant 0 <= i <= |allocation|
      invariant |ys| <= INLINE_EXTENTS
      invariant Blocks(ys) == Blocks(xs) + BlocksOf(allocation, i)
      invariant i == 0 ==> ys == xs
      invariant i > 0 ==> ys != [] && EndsAt(ys, base + |BlocksOf(allocation, i)|)
      invariant Chained(xs, start) && (xs == [] ==> base == start) ==> Chained(ys, start)
    {
      var x := allocation[i];
      ChainedAt(allocation, 0, |allocation|, i);
      ConcatIsAssociative(Blocks(xs), BlocksOf(allocation, i), Run(x.physical, x.count));
      if x.logical > UINT64_MAX - base {
        BlocksMonotone(allocation, i, |allocation|);
        return false, ys;
      }
      var fits, zs := AppendExtent(ys, base + x.logical, x.physical, x.count, start);
      if !fits {
        return false, zs;
      }
      ys := zs;
      i := i + 1;
    }
    ok := true;
  }
}
