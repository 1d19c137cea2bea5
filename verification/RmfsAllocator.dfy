/** The RMFS bitmap allocator (kernel/rmfs.c): first-fit allocation of data blocks into
    at most six extents, with rollback, and the inverse release. */
module RmfsAllocator {
  import opened RmfsExtents

  const BITS_PER_BLOCK: nat := 32768

  /** The clear bits of `bitmap` between `lo` and `hi`, ascending. */
  function FreeList(bitmap: seq<bool>, lo: nat, hi: nat): seq<nat>
    requires lo <= hi <= |bitmap|
    decreases hi
  {
    if lo == hi then [] else
    if bitmap[hi - 1] then FreeList(bitmap, lo, hi - 1) else FreeList(bitmap, lo, hi - 1) + [hi - 1]
  }

  /** The bitmap with every bit listed in `blocks` set to `used`. */
  function Marked(bitmap: seq<bool>, blocks: seq<nat>, used: bool): (r: seq<bool>)
    ensures |r| == |bitmap|
    ensures forall i :: 0 <= i < |bitmap| ==> r[i] == if i in blocks then used else bitmap[i]
  {
    seq(|bitmap|, i requires 0 <= i < |bitmap| => if i in blocks then used else bitmap[i])
  }

  /** One more block behind an extent list: widen the last extent if it continues there. */
  function AddBlock(xs: seq<Extent>, block: nat): seq<Extent> {
    if Joins(xs, block, 1) then xs[|xs| - 1 := xs[|xs| - 1].(count := xs[|xs| - 1].count + 1)]
    else xs + [Extent(|Blocks(xs)|, block, 1)]
  }

  /** The shortest extent list naming the first `n` of `blocks`, built greedily. */
  function Coalesced(blocks: seq<nat>, n: nat): seq<Extent>
    requires n <= |blocks|
  {
    if n == 0 then [] else AddBlock(Coalesced(blocks, n - 1), blocks[n - 1])
  }

  lemma AddBlockMeaning(xs: seq<Extent>, block: nat)
    requires Chained(xs, 0)
    ensures Blocks(AddBlock(xs, block)) == Blocks(xs) + [block]
    ensures Chained(AddBlock(xs, block), 0)
    ensures |xs| <= |AddBlock(xs, block)|
  {
    assert Run(block, 1) == [block];
    if Joins(xs, block, 1) {
      WidenLast(xs, 1, 0);
    } else {
      BlocksSnoc(xs, Extent(|Blocks(xs)|, block, 1));
      ChainedSnoc(xs, 0, Extent(|Blocks(xs)|, block, 1));
    }
  }

  /** Coalescing loses and reorders nothing. */
  lemma {:induction false} CoalescedMeaning(blocks: seq<nat>, n: nat)
    requires n <= |blocks|
    ensures Blocks(Coalesced(blocks, n)) == blocks[..n]
    ensures Chained(Coalesced(blocks, n), 0)
  {
    if n > 0 {
      CoalescedMeaning(blocks, n - 1);
      AddBlockMeaning(Coalesced(blocks, n - 1), blocks[n - 1]);
      assert blocks[..n] == blocks[..n - 1] + [blocks[n - 1]];
    }
  }

  lemma {:induction false} CoalescedGrows(blocks: seq<nat>, m: nat, n: nat)
    requires m <= n <= |blocks|
    ensures |Coalesced(blocks, m)| <= |Coalesced(blocks, n)|
    decreases n - m
  {
    if m < n {
      CoalescedMeaning(blocks, n - 1);
      AddBlockMeaning(Coalesced(blocks, n - 1), blocks[n - 1]);
      CoalescedGrows(blocks, m, n - 1);
    }
  }

  lemma {:induction false} CoalescedAgree(a: seq<nat>, b: seq<nat>, n: nat)
    requires n <= |a| && n <= |b|
    requires forall i :: 0 <= i < n ==> a[i] == b[i]
    ensures Coalesced(a, n) == Coalesced(b, n)
  {
    if n > 0 {
      CoalescedAgree(a, b, n - 1);
    }
  }

  /** Every listed block is a clear bit of the range. */
  lemma {:induction false} FreeListMembers(bitmap: seq<bool>, lo: nat, hi: nat)
    requires lo <= hi <= |bitmap|
    ensures forall k :: 0 <= k < |FreeList(bitmap, lo, hi)| ==>
      lo <= FreeList(bitmap, lo, hi)[k] < hi && !bitmap[FreeList(bitmap, lo, hi)[k]]
    ensures forall j, k :: 0 <= j < k < |FreeList(bitmap, lo, hi)| ==>
      FreeList(bitmap, lo, hi)[j] < FreeList(bitmap, lo, hi)[k]
    decreases hi
  {
    if lo < hi {
      FreeListMembers(bitmap, lo, hi - 1);
    }
  }

  /** ... and every clear bit of the range is listed. */
  lemma {:induction false} FreeListComplete(bitmap: seq<bool>, lo: nat, hi: nat, b: nat)
    requires lo <= b < hi <= |bitmap| && !bitmap[b]
    ensures b in FreeList(bitmap, lo, hi)
    decreases hi
  {
    if b < hi - 1 {
      FreeListComplete(bitmap, lo, hi - 1, b);
    }
  }

  lemma {:induction false} FreeListPrefix(bitmap: seq<bool>, lo: nat, mid: nat, hi: nat)
    requires lo <= mid <= hi <= |bitmap|
    ensures FreeList(bitmap, lo, mid) <= FreeList(bitmap, lo, hi)
    decreases hi
  {
    if mid < hi {
      FreeListPrefix(bitmap, lo, mid, hi - 1);
    }
  }

  // ---------------------------------------------------------------- allocation

  /** The bitmap once every clear bit between `lo` and `b` has been taken. */
  function Taken(bitmap: seq<bool>, lo: nat, b: nat): (r: seq<bool>)
    requires lo <= b <= |bitmap|
    ensures |r| == |bitmap|
  {
    Marked(bitmap, FreeList(bitmap, lo, b), true)
  }

  /** The extents of every clear bit between `lo` and `b`. */
  function TakenExtents(bitmap: seq<bool>, lo: nat, b: nat): seq<Extent>
    requires lo <= b <= |bitmap|
  {
    Coalesced(FreeList(bitmap, lo, b), |FreeList(bitmap, lo, b)|)
  }

  lemma TakeOne(bitmap: seq<bool>, lo: nat, b: nat)
    requires lo <= b < |bitmap|
    ensures Taken(bitmap, lo, b)[b] == bitmap[b]
    ensures |FreeList(bitmap, lo, b + 1)| == |FreeList(bitmap, lo, b)| + if bitmap[b] then 0 else 1
    ensures bitmap[b] ==> Taken(bitmap, lo, b + 1) == Taken(bitmap, lo, b)
    ensures bitmap[b] ==> TakenExtents(bitmap, lo, b + 1) == TakenExtents(bitmap, lo, b)
    ensures !bitmap[b] ==> Taken(bitmap, lo, b + 1) == Taken(bitmap, lo, b)[b := true]
    ensures !bitmap[b] ==> TakenExtents(bitmap, lo, b + 1) == AddBlock(TakenExtents(bitmap, lo, b), b)
  {
    hide AddBlock;
    var list := FreeList(bitmap, lo, b);
    FreeListMembers(bitmap, lo, b);
    if !bitmap[b] {
      CoalescedAgree(list, list + [b], |list|);
    }
  }

  /** The inner loop of `AllocateExtents`: takes a run of clear bits starting at `start`. */
  method TakeRun(bitmap: seq<bool>, start: nat, hi: nat, limit: nat, ghost original: seq<bool>, ghost lo: nat)
    returns (marked: seq<bool>, run: nat)
    requires lo <= start < hi <= |original| && 0 < limit && !original[start]
    requires bitmap == Taken(original, lo, start)
    requires !Joins(TakenExtents(original, lo, start), start, 1)
    ensures 0 < run <= limit && run <= UINT32_MAX && start + run <= hi
    ensures marked == Taken(original, lo, start + run)
    ensures |FreeList(original, lo, start + run)| == |FreeList(original, lo, start)| + run
    ensures TakenExtents(original, lo, start + run)
         == TakenExtents(original, lo, start) + [Extent(|FreeList(original, lo, start)|, start, run)]
    ensures start + run == hi || run == limit || original[start + run] || run == UINT32_MAX
  {
    hide Taken, TakenExtents, FreeList, Blocks;
    marked := bitmap;
    run := 0;
    ghost var xs := TakenExtents(original, lo, start);
    assert |Blocks(xs)| == |FreeList(original, lo, start)| by { TakenBlocks(original, lo, start); }
    TakeOne(original, lo, start);
    while start + run < hi && run < limit && !marked[start + run] && run < UINT32_MAX
      invariant run <= limit && run <= UINT32_MAX && start + run <= hi
      invariant |marked| == |original|
      invariant marked == Taken(original, lo, start + run)
      invariant |FreeList(original, lo, start + run)| == |FreeList(original, lo, start)| + run
      invariant TakenExtents(original, lo, start + run)
             == if run == 0 then xs else xs + [Extent(|FreeList(original, lo, start)|, start, run)]
    {
      TakeOne(original, lo, start + run);
      marked := marked[start + run := true];
      run := run + 1;
    }
    if start + run < hi {
      TakeOne(original, lo, start + run);
    }
  }

  lemma TakenBlocks(bitmap: seq<bool>, lo: nat, b: nat)
    requires lo <= b <= |bitmap|
    ensures Blocks(TakenExtents(bitmap, lo, b)) == FreeList(bitmap, lo, b)
    ensures Chained(TakenExtents(bitmap, lo, b), 0)
  {
    hide Blocks, Chained;
    var list := FreeList(bitmap, lo, b);
    CoalescedMeaning(list, |list|);
    assert list[..|list|] == list;
  }

  /** First-fit allocation of `count` blocks between `lo` and `hi`. It succeeds exactly when
      the counter admits it, enough bits are clear and six extents can name the lowest
      `count` of them; it then takes precisely those. A failure leaves the bitmap as it was. */
  method AllocateExtents(bitmap: seq<bool>, lo: nat, hi: nat, freeBlocks: nat, count: nat)
    returns (ok: bool, marked: seq<bool>, xs: seq<Extent>)
    requires lo <= hi <= |bitmap|
    ensures ok <==> count == 0 || (count <= freeBlocks && Allocatable(bitmap, lo, hi, count))
    ensures ok && count > 0 ==> Blocks(xs) == FreeList(bitmap, lo, hi)[..count]
    ensures ok && count == 0 ==> xs == []
    ensures ok ==> marked == Marked(bitmap, Blocks(xs), true)
    ensures ok ==> Chained(xs, 0) && |xs| <= INLINE_EXTENTS
    ensures !ok ==> marked == bitmap && xs == []
  {
    hide Taken, TakenExtents, Chained, Blocks, Coalesced, FreeList;
    marked, xs := bitmap, [];
    if count == 0 {
      EmptyAllocation(bitmap);
      return true, bitmap, [];
    }
    if count > freeBlocks {
      return false, bitmap, [];
    }
    var block := lo;
    var remaining := count;
    var logical := 0;
    StartTaking(bitmap, lo);
    while block < hi && remaining != 0
      invariant lo <= block <= hi
      invariant marked == Taken(bitmap, lo, block)
      invariant xs == TakenExtents(bitmap, lo, block)
      invariant logical == |FreeList(bitmap, lo, block)|
      invariant logical + remaining == count
      invariant |xs| <= INLINE_EXTENTS
      invariant block < hi && !bitmap[block] && remaining != 0 ==> !Joins(xs, block, 1)
    {
      TakeOne(bitmap, lo, block);
      if marked[block] {
        SkipOne(bitmap, lo, block);
        block := block + 1;
        continue;
      }
      if |xs| == INLINE_EXTENTS {
        break;
      }
      var start := block;
      var run;
      marked, run := TakeRun(marked, start, hi, remaining, bitmap, lo);
      block := block + run;
      remaining := remaining - run;
      xs := xs + [Extent(logical, start, run)];
      logical := logical + run;
    }
    TakenBlocks(bitmap, lo, block);
    if remaining == 0 {
      AllocationDone(bitmap, lo, block, hi, count);
      return true, marked, xs;
    }
    AllocationFails(bitmap, lo, block, hi, count);
    TakenUndone(bitmap, lo, block);
    var released;
    marked, released := ReleaseExtents(marked, xs);
    xs := [];
    ok := false;
  }

  /** Enough clear bits, and six extents name the lowest `count` of them. */
  ghost predicate Allocatable(bitmap: seq<bool>, lo: nat, hi: nat, count: nat)
    requires lo <= hi <= |bitmap|
  {
    && count <= |FreeList(bitmap, lo, hi)|
    && |Coalesced(FreeList(bitmap, lo, hi), count)| <= INLINE_EXTENTS
  }

  lemma EmptyAllocation(bitmap: seq<bool>)
    ensures Blocks([]) == [] && Chained([], 0)
    ensures Marked(bitmap, [], true) == bitmap
  {
  }

  lemma StartTaking(bitmap: seq<bool>, lo: nat)
    requires lo <= |bitmap|
    ensures Taken(bitmap, lo, lo) == bitmap && TakenExtents(bitmap, lo, lo) == [] && FreeList(bitmap, lo, lo) == []
  {
  }

  /** Behind a used block nothing joins the last extent. */
  lemma SkipOne(bitmap: seq<bool>, lo: nat, b: nat)
    requires lo <= b < |bitmap| && bitmap[b]
    ensures FreeList(bitmap, lo, b + 1) == FreeList(bitmap, lo, b)
    ensures !Joins(TakenExtents(bitmap, lo, b + 1), b + 1, 1)
  {
    TakenBlocks(bitmap, lo, b);
    FreeListMembers(bitmap, lo, b);
  }

  lemma AllocationDone(bitmap: seq<bool>, lo: nat, b: nat, hi: nat, count: nat)
    requires lo <= b <= hi <= |bitmap|
    requires |FreeList(bitmap, lo, b)| == count
    requires |TakenExtents(bitmap, lo, b)| <= INLINE_EXTENTS
    ensures Allocatable(bitmap, lo, hi, count)
    ensures FreeList(bitmap, lo, hi)[..count] == FreeList(bitmap, lo, b)
    ensures Taken(bitmap, lo, b) == Marked(bitmap, FreeList(bitmap, lo, b), true)
  {
    FreeListPrefix(bitmap, lo, b, hi);
    CoalescedAgree(FreeList(bitmap, lo, b), FreeList(bitmap, lo, hi), count);
  }

  lemma AllocationFails(bitmap: seq<bool>, lo: nat, b: nat, hi: nat, count: nat)
    requires lo <= b <= hi <= |bitmap|
    requires |FreeList(bitmap, lo, b)| < count
    requires b < hi ==> !bitmap[b] && |TakenExtents(bitmap, lo, b)| == INLINE_EXTENTS
    requires b < hi ==> !Joins(TakenExtents(bitmap, lo, b), b, 1)
    ensures !Allocatable(bitmap, lo, hi, count)
  {
    hide FreeList, Coalesced;
    if b < hi {
      TakeOne(bitmap, lo, b);
      FreeListPrefix(bitmap, lo, b + 1, hi);
      var short, long := FreeList(bitmap, lo, b + 1), FreeList(bitmap, lo, hi);
      CoalescedAgree(short, long, |short|);
      if count <= |long| {
        CoalescedGrows(long, |short|, count);
      }
    }
  }

  /** Clearing what was taken restores the bitmap. */
  lemma TakenUndone(bitmap: seq<bool>, lo: nat, b: nat)
    requires lo <= b <= |bitmap|
    ensures Marked(Taken(bitmap, lo, b), FreeList(bitmap, lo, b), false) == bitmap
    ensures forall x :: x in FreeList(bitmap, lo, b) ==> x < |bitmap|
  {
    FreeListMembers(bitmap, lo, b);
  }

  /** Clears the bit of every block the extents name and counts them. */
  method ReleaseExtents(bitmap: seq<bool>, xs: seq<Extent>) returns (cleared: seq<bool>, released: nat)
    requires forall b :: b in Blocks(xs) ==> b < |bitmap|
    ensures cleared == Marked(bitmap, Blocks(xs), false)
    ensures released == |Blocks(xs)|
  {
    hide Marked, Run;
    cleared, released := bitmap, 0;
    var i := 0;
    while i < |xs|
      invariant 0 <= i <= |xs|
      invariant cleared == Marked(bitmap, BlocksOf(xs, i), false)
      invariant released == |BlocksOf(xs, i)|
    {
      RunInBitmap(xs, i, |bitmap|);
      cleared := ReleaseRun(bitmap, BlocksOf(xs, i), cleared, xs[i].physical, xs[i].count);
      released := released + xs[i].count;
      i := i + 1;
    }
  }

  lemma RunInBitmap(xs: seq<Extent>, i: nat, n: nat)
    requires i < |xs| && forall b :: b in Blocks(xs) ==> b < n
    ensures xs[i].count > 0 ==> xs[i].physical + xs[i].count <= n
  {
    if xs[i].count > 0 {
      BlocksMonotone(xs, i + 1, |xs|);
      BlocksAt(xs, i, xs[i].count - 1);
      assert Blocks(xs)[|BlocksOf(xs, i)| + xs[i].count - 1] in Blocks(xs);
    }
  }

  /** The bits of one extent are cleared, one by one. */
  method ReleaseRun(ghost bitmap: seq<bool>, ghost blocks: seq<nat>, before: seq<bool>, first: nat, count: nat) returns (cleared: seq<bool>)
    requires before == Marked(bitmap, blocks, false) && (count > 0 ==> first + count <= |bitmap|)
    ensures cleared == Marked(bitmap, blocks + Run(first, count), false)
  {
    hide Marked, Run;
    MarkOneMore(bitmap, blocks, first, 0, false);
    cleared := before;
    for j := 0 to count
      invariant cleared == Marked(bitmap, blocks + Run(first, j), false)
    {
      MarkOneMore(bitmap, blocks, first, j, false);
      cleared := cleared[first + j := false];
    }
  }

  lemma MarkOneMore(bitmap: seq<bool>, blocks: seq<nat>, first: nat, j: nat, used: bool)
    ensures first + j < |bitmap| ==>
      Marked(bitmap, blocks + Run(first, j + 1), used) == Marked(bitmap, blocks + Run(first, j), used)[first + j := used]
    ensures blocks + Run(first, 0) == blocks
  {
    assert Run(first, j + 1) == Run(first, j) + [first + j];
    assert forall i :: i in blocks + Run(first, j + 1) <==> i in blocks + Run(first, j) || i == first + j;
  }

  /** Takes the lowest free inode number, or reports 0 when every inode is in use. */
  method AllocateInode(bitmap: seq<bool>, inodeCount: nat) returns (number: nat, marked: seq<bool>)
    requires inodeCount <= |bitmap|
    ensures number == 0 <==> forall i :: 0 <= i < inodeCount ==> bitmap[i]
    ensures number == 0 ==> marked == bitmap
    ensures number != 0 ==> number <= inodeCount && !bitmap[number - 1]
    ensures number != 0 ==> forall i :: 0 <= i < number - 1 ==> bitmap[i]
    ensures number != 0 ==> marked == bitmap[number - 1 := true]
  {
    number := 1;
    while number <= inodeCount
      invariant 1 <= number <= inodeCount + 1
      invariant forall i :: 0 <= i < number - 1 ==> bitmap[i]
    {
      if !bitmap[number - 1] {
        return number, bitmap[number - 1 := true];
      }
      number := number + 1;
    }
    return 0, bitmap;
  }

  // ---------------------------------------------------------------- dirty marks

  /** Bitmap block `i` holds the bit of a listed block. */
  ghost predicate Covers(blocks: seq<nat>, i: nat) {
    exists k :: 0 <= k < |blocks| && blocks[k] / BITS_PER_BLOCK == i
  }

  /** Marks the bitmap blocks that hold the bits of the extents' blocks, and no others. */
  method MarkExtentBits(dirty: seq<bool>, xs: seq<Extent>, ghost base: nat) returns (ok: bool, marked: seq<bool>)
    requires Chained(xs, base)
    ensures |marked| == |dirty|
    ensures ok ==> forall i :: 0 <= i < |dirty| ==> (marked[i] <==> dirty[i] || Covers(Blocks(xs), i))
    ensures ok <==> forall b :: b in Blocks(xs) ==> b / BITS_PER_BLOCK < |dirty|
  {
    hide ChainedOf, Blocks, BlocksOf, Covers;
    marked := dirty;
    var i := 0;
    NothingCovered(xs);
    while i < |xs|
      invariant 0 <= i <= |xs|
      invariant |marked| == |dirty|
      invariant forall j :: 0 <= j < |dirty| ==> (marked[j] <==> dirty[j] || Covers(BlocksOf(xs, i), j))
      invariant forall b :: b in BlocksOf(xs, i) ==> b / BITS_PER_BLOCK < |dirty|
    {
      assert xs[i].count > 0 by { ChainedAt(xs, base, |xs|, i); }
      var first := xs[i].physical / BITS_PER_BLOCK;
      var last := (xs[i].physical + xs[i].count - 1) / BITS_PER_BLOCK;
      assert first <= last;
      var index := first;
      ghost var before := marked;
      while index <= last
        invariant first <= index <= last + 1
        invariant index > first ==> index <= |dirty|
        invariant |marked| == |dirty|
        invariant forall j :: 0 <= j < |dirty| ==> (marked[j] <==> before[j] || first <= j < index)
      {
        if index >= |marked| {
          OutsideBitmap(xs, i, index);
          return false, marked;
        }
        marked := marked[index := true];
        index := index + 1;
      }
      CoversExtent(xs, i);
      assert last < |dirty|;
      forall b | b in BlocksOf(xs, i + 1)
        ensures b / BITS_PER_BLOCK < |dirty|
      {
        assert b in BlocksOf(xs, i) || b / BITS_PER_BLOCK <= last;
      }
      i := i + 1;
    }
    ok := true;
    WholeList(xs);
  }

  /** Marks the bitmap block that holds one bit. */
  method MarkBitmapBit(dirty: seq<bool>, bit: nat) returns (ok: bool, marked: seq<bool>)
    ensures ok <==> bit / BITS_PER_BLOCK < |dirty|
    ensures marked == if ok then dirty[bit / BITS_PER_BLOCK := true] else dirty
  {
    var index := bit / BITS_PER_BLOCK;
    if index >= |dirty| {
      return false, dirty;
    }
    return true, dirty[index := true];
  }

  /** The marks were kept and now cover the bits of the listed blocks. */
  ghost predicate Marks(dirty: seq<bool>, marked: seq<bool>, blocks: seq<nat>) {
    && |marked| == |dirty|
    && (forall i :: 0 <= i < |dirty| && dirty[i] ==> marked[i])
    && forall b :: b in blocks ==> b / BITS_PER_BLOCK < |marked| && marked[b / BITS_PER_BLOCK]
  }

  lemma CoveredIsMarked(dirty: seq<bool>, marked: seq<bool>, blocks: seq<nat>)
    requires |marked| == |dirty|
    requires forall i :: 0 <= i < |dirty| ==> (marked[i] <==> dirty[i] || Covers(blocks, i))
    requires forall b :: b in blocks ==> b / BITS_PER_BLOCK < |dirty|
    ensures Marks(dirty, marked, blocks)
  {
    forall b | b in blocks
      ensures marked[b / BITS_PER_BLOCK]
    {
      var k :| 0 <= k < |blocks| && blocks[k] == b;
      assert Covers(blocks, b / BITS_PER_BLOCK);
    }
  }

  lemma WholeList(xs: seq<Extent>)
    ensures BlocksOf(xs, |xs|) == Blocks(xs)
  {
  }

  lemma NothingCovered(xs: seq<Extent>)
    ensures BlocksOf(xs, 0) == [] && forall j :: !Covers(BlocksOf(xs, 0), j)
  {
  }

  /** An extent's bits lie in the bitmap blocks from that of its first to that of its last block. */
  lemma CoversExtent(xs: seq<Extent>, i: nat)
    requires i < |xs| && xs[i].count > 0
    ensures var first := xs[i].physical / BITS_PER_BLOCK;
      var last := (xs[i].physical + xs[i].count - 1) / BITS_PER_BLOCK;
      && (forall j: nat :: Covers(BlocksOf(xs, i + 1), j) <==> Covers(BlocksOf(xs, i), j) || first <= j <= last)
      && (forall b :: b in BlocksOf(xs, i + 1) ==> b in BlocksOf(xs, i) || first <= b / BITS_PER_BLOCK <= last)
  {
    var x := xs[i];
    var run := Run(x.physical, x.count);
    var first, last := x.physical / BITS_PER_BLOCK, (x.physical + x.count - 1) / BITS_PER_BLOCK;
    forall j: nat
      ensures Covers(BlocksOf(xs, i + 1), j) <==> Covers(BlocksOf(xs, i), j) || first <= j <= last
    {
      CoversAppend(BlocksOf(xs, i), run, j);
      CoversRun(x.physical, x.count, j);
    }
  }

  lemma CoversAppend(a: seq<nat>, b: seq<nat>, j: nat)
    ensures Covers(a + b, j) <==> Covers(a, j) || Covers(b, j)
  {
    if Covers(a, j) {
      var k :| 0 <= k < |a| && a[k] / BITS_PER_BLOCK == j;
      assert (a + b)[k] == a[k];
    }
    if Covers(b, j) {
      var k :| 0 <= k < |b| && b[k] / BITS_PER_BLOCK == j;
      assert (a + b)[|a| + k] == b[k];
    }
  }

  lemma CoversRun(start: nat, count: nat, j: nat)
    requires count > 0
    ensures Covers(Run(start, count), j) <==> start / BITS_PER_BLOCK <= j <= (start + count - 1) / BITS_PER_BLOCK
  {
    if start / BITS_PER_BLOCK <= j <= (start + count - 1) / BITS_PER_BLOCK {
      var b := if j * BITS_PER_BLOCK < start then start else j * BITS_PER_BLOCK;
      assert b / BITS_PER_BLOCK == j;
      assert Run(start, count)[b - start] == b;
    }
  }

  lemma OutsideBitmap(xs: seq<Extent>, i: nat, index: nat)
    requires i < |xs| && xs[i].count > 0
    requires xs[i].physical / BITS_PER_BLOCK <= index <= (xs[i].physical + xs[i].count - 1) / BITS_PER_BLOCK
    ensures exists b :: b in Blocks(xs) && b / BITS_PER_BLOCK == index
  {
    hide Blocks, BlocksOf;
    CoversRun(xs[i].physical, xs[i].count, index);
    var k :| 0 <= k < xs[i].count && Run(xs[i].physical, xs[i].count)[k] / BITS_PER_BLOCK == index;
    BlocksAt(xs, i, k);
    assert Blocks(xs)[|BlocksOf(xs, i)| + k] in Blocks(xs);
  }
}
