/** The operations of kernel/heap.c. */
module KernelHeap {
  import opened HeapBlocks

  const PAGE: nat := 4096
  const SIZE_MAX: nat := 0xFFFF_FFFF_FFFF_FFFF

  /** heap_align_size: 0 stands for a size that cannot be served. */
  function AlignSize(size: nat): (r: nat)
    ensures r % ALIGN == 0
    ensures r == 0 <==> size == 0 || size > SIZE_MAX - (ALIGN - 1)
    ensures r != 0 ==> size <= r < size + ALIGN
  {
    if size == 0 || size > SIZE_MAX - (ALIGN - 1) then 0 else (size + (ALIGN - 1)) / ALIGN * ALIGN
  }

  /** Block `k` of the list is free and large enough. */
  ghost predicate FitAt(blocks: map<nat, Block>, order: seq<nat>, size: nat, k: int) {
    0 <= k < |order| && order[k] in blocks && blocks[order[k]].free && blocks[order[k]].size >= size
  }

  ghost predicate FirstFit(blocks: map<nat, Block>, order: seq<nat>, size: nat, k: int) {
    FitAt(blocks, order, size, k) && forall i :: i < k ==> !FitAt(blocks, order, size, i)
  }

  class Heap {
    var base: nat
    var limit: nat
    var mapped: nat
    var first: nat
    var last: nat
    var blocks: Blocks

    /** The blocks in the order of their links. */
    ghost var order: seq<nat>

    constructor (base: nat, limit: nat)
      requires base % PAGE == 0 && 0 < base <= limit
      ensures Valid() && mapped == 0
    {
      this.base, this.limit, mapped, first, last, blocks, order := base, limit, 0, 0, 0, map[], [];
    }

    /** The blocks tile the mapped part of the heap, links agree with addresses, and no two neighbours are free. */
    ghost predicate Valid()
      reads this
    {
      Tiled() && Merged(blocks, order)
    }

    ghost predicate Tiled()
      reads this
    {
      && base > 0 && base % PAGE == 0 && mapped % PAGE == 0 && base + mapped <= limit
      && Listed(blocks, order, base)
      && (forall b :: b in blocks <==> b in order)
      && first == (if order == [] then 0 else order[0]) && last == (if order == [] then 0 else order[|order| - 1])
      && (order == [] ==> mapped == 0) && (order != [] ==> last in blocks && base + mapped == End(blocks, last))
    }

    /** The pages that could be mapped for a request of `needed` bytes. */
    method MapPages(needed: nat) returns (added: nat)
      requires needed % PAGE == 0
      ensures added % PAGE == 0 && added <= needed
    {
      added := 0;
      while added < needed
        invariant added % PAGE == 0 && added <= needed
      {
        var granted: bool := *;
        if !granted {
          break;
        }
        added := added + PAGE;
      }
    }

    /** The last block takes in pages that were mapped behind it. */
    method GrowLast(added: nat)
      requires Valid() && last != 0 && last in blocks && blocks[last].free && added % PAGE == 0 && base + mapped + added <= limit
      modifies `blocks, `mapped
      ensures Valid() && Live(blocks) == old(Live(blocks))
      ensures blocks[last].free && blocks[last].size == old(blocks[last].size) + added
    {
      hide Here, Listed, Merged, Live;
      PageSizes(mapped, added);
      GrowListed(blocks, order, base, added);
      GrowKeeps(blocks, order, last, blocks[last].size + added);
      blocks := blocks[last := blocks[last].(size := blocks[last].size + added)];
      mapped := mapped + added;
    }

    /** Pages that were mapped behind the last block become a block. */
    method AddLast(added: nat)
      requires Valid() && (last != 0 ==> last in blocks && !blocks[last].free) && 0 < added && added % PAGE == 0 && base + mapped + added <= limit
      modifies `blocks, `mapped, `first, `last, `order
      ensures Valid() && Live(blocks) == old(Live(blocks))
      ensures last in blocks && blocks[last].free && blocks[last].size == added - HEADER
    {
      NotNull(blocks, order, base);
      PageSizes(mapped, added);
      AppendListed(blocks, order, base, added - HEADER);
      hide Here, Listed, Merged, Live;
      var b := base + mapped;
      AppendKeeps(blocks, order, last, b, Block(added - HEADER, last, 0, true));
      assert order == [] ==> blocks == map[];
      blocks := WithNext(blocks, last, b)[b := Block(added - HEADER, last, 0, true)];
      if last == 0 {
        first := b;
      }
      last := b;
      order := order + [b];
      mapped := mapped + added;
    }

    /** heap_append_pages: the heap grows at its end, where there is enough room afterwards if the call succeeds. */
    method AppendPages(payload: nat) returns (ok: bool)
      requires Valid() && payload % ALIGN == 0
      modifies this
      ensures Valid() && base == old(base) && Live(blocks) == old(Live(blocks))
      ensures ok ==> last in blocks && blocks[last].free && blocks[last].size >= payload
    {
      hide Listed, Merged;
      if payload > SIZE_MAX - HEADER || payload + HEADER > SIZE_MAX - (PAGE - 1) {
        return false;
      }
      var needed := (payload + HEADER + (PAGE - 1)) / PAGE * PAGE;
      if mapped >= limit - base || needed > limit - base - mapped {
        return false;
      }
      var added := MapPages(needed);
      if added == 0 {
        return false;
      }
      NotNull(blocks, order, base);
      if last != 0 && blocks[last].free {
        GrowLast(added);
      } else {
        AddLast(added);
      }
      return added >= needed;
    }

    /** The scan of kernel_malloc: the first free block that is large enough. */
    method FindFit(size: nat) returns (found: bool, b: nat, ghost k: nat)
      requires Valid()
      ensures found ==> FirstFit(blocks, order, size, k) && b == order[k]
      ensures !found ==> forall i :: !FitAt(blocks, order, size, i)
    {
      hide Merged;
      NotNull(blocks, order, base);
      b, k := first, 0;
      while b != 0
        invariant k <= |order| && b == if k < |order| then order[k] else 0
        invariant forall i :: i < k ==> !FitAt(blocks, order, size, i)
        decreases |order| - k
      {
        assert Here(blocks, order, base, k);
        if blocks[b].free && blocks[b].size >= size {
          return true, b, k;
        }
        b, k := blocks[b].next, k + 1;
      }
      return false, 0, 0;
    }

    /** The block is taken, after what is left over has been split off. */
    method Take(b: nat, size: nat, ghost k: nat)
      requires Valid() && k < |order| && b == order[k] && b in blocks && blocks[b].free && blocks[b].size >= size > 0 && size % ALIGN == 0
      modifies this
      ensures Valid() && base == old(base) && b in blocks && !blocks[b].free && blocks[b].size >= size
      ensures b !in old(Live(blocks)) && Live(blocks) == old(Live(blocks))[b := blocks[b].size]
    {
      hide Here, Merged;
      if blocks[b].size >= size + HEADER + ALIGN {
        SplitTail(b, size, k);
      } else {
        UseKeeps(blocks, order, b);
        FlagListed(blocks, order, base, b, false);
        hide Listed, Live;
        blocks := blocks[b := blocks[b].(free := false)];
      }
    }

    /** heap_split on a free block, which is then taken. */
    method SplitTail(b: nat, size: nat, ghost k: nat)
      requires Valid() && k < |order| && b == order[k] && b in blocks && blocks[b].free
      requires blocks[b].size >= size + HEADER + ALIGN && size > 0 && size % ALIGN == 0
      modifies this
      ensures Valid() && base == old(base) && b in blocks && !blocks[b].free && blocks[b].size == size
      ensures Live(blocks) == old(Live(blocks))[b := size]
    {
      hide Here, Merged, Live, Listed, Split, SplitOrder;
      SplitAll(blocks, order, base, k, size);
      var tail := b + HEADER + size;
      if blocks[b].next == 0 {
        last := tail;
      }
      ghost var was := blocks;
      blocks := Split(blocks, b, size);
      blocks := blocks[b := blocks[b].(free := false)];
      assert blocks == SplitUsed(was, b, size);
      order := SplitOrder(order, k, tail);
    }

    /** kernel_malloc: a block of at least the size asked for, aligned, apart from all blocks in use. The list is
        scanned at most twice. */
    method Malloc(size: nat) returns (pointer: nat, ghost scans: nat)
      requires Valid()
      modifies this
      ensures Valid() && base == old(base) && scans <= 2
      ensures pointer == 0 ==> Live(blocks) == old(Live(blocks))
      ensures AlignSize(size) != 0 ==> forall k :: old(FirstFit(blocks, order, AlignSize(size), k)) ==> scans == 1 && pointer == old(order[k]) + HEADER
      ensures AlignSize(size) == 0 ==> pointer == 0
      ensures pointer != 0 ==> pointer % ALIGN == 0 && pointer >= HEADER && size > 0
      ensures pointer != 0 ==> var b := pointer - HEADER;
        b !in old(Live(blocks)) && b in Live(blocks) && Live(blocks)[b] >= size && Live(blocks) == old(Live(blocks))[b := Live(blocks)[b]]
    {
      hide Here, Merged, Listed, Live;
      var aligned := AlignSize(size);
      NotNull(blocks, order, base);
      if aligned == 0 || first == 0 {
        return 0, 0;
      }
      ghost var grown := false;
      scans := 0;
      while true
        invariant Valid() && base == old(base) && Live(blocks) == old(Live(blocks))
        invariant scans == if grown then 1 else 0
        invariant if grown then forall k :: !old(FitAt(blocks, order, aligned, k)) else blocks == old(blocks) && order == old(order)
        invariant grown ==> last in blocks && blocks[last].free && blocks[last].size >= aligned && order != []
        decreases if grown then 0 else 1
      {
        ghost var k;
        var found, b;
        found, b, k := FindFit(aligned);
        scans := scans + 1;
        if found {
          assert forall j :: FirstFit(blocks, order, aligned, j) ==> j == k;
          PayloadAligned(blocks, order, base, k);
          Take(b, aligned, k);
          return b + HEADER, scans;
        }
        assert order != [] ==> order[|order| - 1] == last;
        assert !FitAt(blocks, order, aligned, |order| - 1);
        var ok := AppendPages(aligned);
        if !ok {
          return 0, scans;
        }
        grown := true;
      }
    }

    /** kernel_calloc, without the clearing of the payload: no block when the total size cannot be represented. */
    method Calloc(count: nat, size: nat) returns (pointer: nat)
      requires Valid()
      modifies this
      ensures Valid() && base == old(base)
      ensures pointer == 0 ==> Live(blocks) == old(Live(blocks))
      ensures AlignSize(count * size) != 0 ==>
        forall k :: old(FirstFit(blocks, order, AlignSize(count * size), k)) ==> pointer == old(order[k]) + HEADER
      ensures pointer != 0 ==> pointer >= HEADER && count * size <= SIZE_MAX
      ensures pointer != 0 ==> var b := pointer - HEADER;
        b !in old(Live(blocks)) && b in Live(blocks) && Live(blocks)[b] >= count * size && Live(blocks) == old(Live(blocks))[b := Live(blocks)[b]]
    {
      hide Merged, Listed, Live, FirstFit, FitAt, AlignSize;
      Representable(count, size);
      if count == 0 || size == 0 || count > SIZE_MAX / size {
        return 0;
      }
      ghost var scans;
      pointer, scans := Malloc(count * size);
    }

    /** heap_merge_next: the pair at `k` is settled. */
    method MergeNext(b: nat, ghost k: nat, ghost open: int)
      requires Tiled() && k < |order| && b == order[k] && b in blocks && blocks[b].free && open < k && MergedBut(blocks, order, open, k)
      modifies `blocks, `order, `last
      ensures Tiled() && k < |order| && b == order[k] && b in blocks && blocks[b].free && MergedBut(blocks, order, open, open)
      ensures Live(blocks) == old(Live(blocks)) && order[..k + 1] == old(order[..k + 1])
      ensures forall i :: 0 <= i < k && order[i] in old(blocks) ==> order[i] in blocks && blocks[order[i]] == old(blocks[order[i]])
      ensures blocks[b].previous == old(blocks[b].previous)
    {
      hide Live, MergedBut, Listed, JoinOrder, Joined, End;
      NextOf(blocks, order, base, k);
      var next := blocks[b].next;
      if next == 0 || !blocks[next].free {
        assert MergedBut(blocks, order, open, open) by { PairIsFine(blocks, order, k, open); }
        return;
      }
      JoinAll(blocks, order, base, k, open);
      var after := blocks[next].next;
      if after == 0 {
        last := b;
      }
      blocks := Joined(blocks, b);
      order := JoinOrder(order, k);
    }

    /** kernel_free: the block is no longer in use. `header` tells whether the bytes before the pointer read as the
        header of a block in use, as they do where such a block is and nobody has forged one elsewhere; any other
        pointer is ignored. */
    method Free(pointer: nat, header: bool)
      requires Valid() && (base + HEADER <= pointer < base + mapped && pointer % ALIGN == 0 ==> (header <==> pointer - HEADER in Live(blocks)))
      modifies this
      ensures Valid() && base == old(base)
      ensures base + HEADER <= pointer ==> Live(blocks) == old(Live(blocks)) - {pointer - HEADER}
      ensures pointer < base + HEADER ==> Live(blocks) == old(Live(blocks))
    {
      hide Merged, MergedBut, Listed;
      if pointer == 0 || first == 0 || pointer < base + HEADER || pointer >= base + mapped || pointer % ALIGN != 0 {
        NotNull(blocks, order, base);
        NotLive(blocks, order, base, mapped, pointer);
        return;
      }
      var b := pointer - HEADER;
      if !header {
        return;
      }
      ghost var k :| 0 <= k < |order| && order[k] == b;
      FreeBlock(b, k);
    }

    /** A block in use becomes free and is merged with its free neighbours. */
    method FreeBlock(b: nat, ghost k: nat)
      requires Valid() && k < |order| && order[k] == b && b in blocks
      modifies `blocks, `order, `last
      ensures Valid() && Live(blocks) == old(Live(blocks)) - {b}
    {
      hide Merged, MergedBut, Listed, Live;
      SetFree(b, k);
      MergeNext(b, k, k - 1);
      MergePrevious(b, k);
    }

    method SetFree(b: nat, ghost k: nat)
      requires Valid() && k < |order| && order[k] == b && b in blocks
      modifies `blocks
      ensures Tiled() && MergedBut(blocks, order, k - 1, k) && b in blocks && blocks[b].free && Live(blocks) == old(Live(blocks)) - {b}
    {
      hide Merged, MergedBut, Listed, Live;
      FreeKeeps(blocks, order, base, k);
      FlagListed(blocks, order, base, b, true);
      blocks := blocks[b := blocks[b].(free := true)];
    }

    /** The block before, if it is free, takes this one in. */
    method MergePrevious(b: nat, ghost k: nat)
      requires Tiled() && k < |order| && order[k] == b && b in blocks && blocks[b].free && MergedBut(blocks, order, k - 1, k - 1)
      modifies `blocks, `order, `last
      ensures Valid() && Live(blocks) == old(Live(blocks))
    {
      hide Merged, MergedBut, Listed, Live;
      NextOf(blocks, order, base, k);
      var previous := blocks[b].previous;
      if previous != 0 && blocks[previous].free {
        OnePair(blocks, order, k - 1);
        MergeNext(previous, k - 1, -1);
        NoPair(blocks, order, -1);
      } else {
        LastPair(blocks, order, k);
      }
    }

    /** Links lead to blocks. */
    ghost predicate Closed()
      reads this
    {
      && base > 0 && 0 !in blocks && (first != 0 ==> first in blocks)
      && forall b :: b in blocks && blocks[b].next != 0 ==> blocks[b].next in blocks
    }

    /** kernel_heap_validate: accepts exactly the heaps that some list of blocks tiles, and `seen` is that list. */
    method Validate() returns (ok: bool, ghost seen: seq<nat>)
      requires Closed()
      ensures ok <==> Tileable(blocks, base, mapped, first, last)
      ensures ok ==> Tiles(blocks, seen, base, mapped, first, last)
    {
      hide Tiles;
      seen := [];
      ghost var o: seq<nat> := [];
      if Tileable(blocks, base, mapped, first, last) {
        o :| Tiles(blocks, o, base, mapped, first, last);
      }
      if Tiles(blocks, o, base, mapped, first, last) {
        TilesFacts(blocks, o, base, mapped, first, last);
      }
      if first == 0 || last == 0 || mapped == 0 {
        return false, seen;
      }
      var expected, previous, count, b := base, 0, 0, first;
      while b != 0
        invariant b != 0 ==> b in blocks
        invariant count == |seen| && count <= mapped / HEADER
        invariant forall k :: 0 <= k < |seen| ==> Sits(blocks, seen, base, k)
        invariant seen == [] ==> b == first && previous == 0 && expected == base
        invariant seen != [] ==> seen[0] == first && previous == seen[|seen| - 1] && previous in blocks && b == blocks[previous].next
        invariant seen != [] ==> expected == End(blocks, previous) && End(blocks, previous) <= base + mapped
        invariant seen != [] && b != 0 ==> !(blocks[previous].free && blocks[b].free)
        invariant Tiles(blocks, o, base, mapped, first, last) ==> seen <= o && (b != 0 <==> |seen| < |o|) && (b != 0 ==> b == o[|seen|])
        decreases mapped / HEADER - count
      {
        ghost var k := |seen|;
        if Tiles(blocks, o, base, mapped, first, last) {
          TilesAt(blocks, o, base, mapped, first, last, k);
        }
        count := count + 1;
        var next := blocks[b].next;
        if count > mapped / HEADER || b != expected || blocks[b].previous != previous || blocks[b].size % ALIGN != 0 ||
           b + HEADER > base + mapped || blocks[b].size > base + mapped - (b + HEADER) ||
           (next != 0 && blocks[b].free && blocks[next].free) {
          return false, seen;
        }
        SitsNext(blocks, seen, base, b);
        expected, previous := b + HEADER + blocks[b].size, b;
        seen := seen + [b];
        b := next;
      }
      if previous == last && expected == base + mapped {
        MakeTiles(blocks, seen, base, mapped, first, last);
      }
      return previous == last && expected == base + mapped, seen;
    }

    /** Every heap that the operations can produce passes, as soon as there is a block in it. */
    method SelfCheck() returns (ok: bool)
      requires Valid()
      ensures ok <==> order != []
    {
      hide Tiles, Merged, Listed;
      assert Closed() by { LinksClosed(blocks, order, base); }
      ghost var seen;
      if order != [] {
        ListedTiles(blocks, order, base, mapped);
      }
      ok, seen := Validate();
      if ok {
        TilesFacts(blocks, seen, base, mapped, first, last);
      }
    }

    /** Payloads in use have no byte in common and lie in what is mapped. */
    lemma InUse(b: nat, c: nat, a: nat)
      requires Valid() && b in Live(blocks) && c in Live(blocks) && b != c && b + HEADER <= a < b + HEADER + Live(blocks)[b]
      ensures !(c + HEADER <= a < c + HEADER + Live(blocks)[c])
      ensures base <= a < base + mapped && (b + HEADER) % ALIGN == 0
    {
      hide Listed, Merged;
      var i :| 0 <= i < |order| && order[i] == b;
      var j :| 0 <= j < |order| && order[j] == c;
      Disjoint(blocks, order, base, i, j, a);
      PayloadAligned(blocks, order, base, i);
      Ascends(blocks, order, base, i);
    }

    /** When nothing is in use, all that was ever mapped is one free block again. */
    lemma AllFree()
      requires Valid() && Live(blocks) == map[] && order != []
      ensures |order| == 1 && blocks.Keys == {base} && blocks[base].free && blocks[base].size == mapped - HEADER
    {
      hide Listed;
      forall k | 0 <= k < |order|
        ensures order[k] in blocks && blocks[order[k]].free
      {
        assert order[k] in order && order[k] !in Live(blocks);
      }
      OneFreeBlock(blocks, order);
      FirstIsBase(blocks, order, base);
    }
  }

  lemma Ascends(blocks: Blocks, order: seq<nat>, base: nat, k: nat)
    requires Listed(blocks, order, base) && k < |order|
    ensures base <= order[k] && order[k] in blocks && order[|order| - 1] in blocks
    ensures End(blocks, order[k]) <= End(blocks, order[|order| - 1])
  {
    assert Here(blocks, order, base, 0) && Here(blocks, order, base, k) && Here(blocks, order, base, |order| - 1);
    if k > 0 {
      Ascending(blocks, order, base, 0, k);
    }
    if k + 1 < |order| {
      Ascending(blocks, order, base, k, |order| - 1);
    }
  }

  lemma FirstIsBase(blocks: Blocks, order: seq<nat>, base: nat)
    requires Listed(blocks, order, base) && order != []
    ensures order[0] == base
  {
    assert Here(blocks, order, base, 0);
  }

  /** Links lead from block to block. */
  lemma LinksClosed(blocks: Blocks, order: seq<nat>, base: nat)
    requires Listed(blocks, order, base) && base > 0 && forall b :: b in blocks <==> b in order
    ensures 0 !in blocks && (order != [] ==> order[0] in blocks)
    ensures forall b :: b in blocks && blocks[b].next != 0 ==> blocks[b].next in blocks
  {
    hide Listed, Here;
    NotNull(blocks, order, base);
    forall b | b in blocks
      ensures blocks[b].next != 0 ==> blocks[b].next in blocks
    {
      var k :| 0 <= k < |order| && order[k] == b;
      NextOf(blocks, order, base, k);
    }
    if order != [] {
      assert order[0] in order;
    }
  }

  ghost predicate Tileable(blocks: Blocks, base: nat, mapped: nat, first: nat, last: nat) {
    exists o: seq<nat> :: Tiles(blocks, o, base, mapped, first, last)
  }

  lemma SitsNext(blocks: Blocks, seen: seq<nat>, base: nat, b: nat)
    requires forall k :: 0 <= k < |seen| ==> Sits(blocks, seen, base, k)
    requires b in blocks && blocks[b].size % ALIGN == 0 && blocks[b].previous == (if seen == [] then 0 else seen[|seen| - 1])
    requires if seen == [] then b == base
             else var p := seen[|seen| - 1]; p in blocks && b == End(blocks, p) && b == blocks[p].next && !(blocks[p].free && blocks[b].free)
    ensures forall k :: 0 <= k < |seen| + 1 ==> Sits(blocks, seen + [b], base, k)
  {
    forall k | 0 <= k < |seen| + 1
      ensures Sits(blocks, seen + [b], base, k)
    {
      if k < |seen| {
        assert Sits(blocks, seen, base, k);
      }
    }
  }

  lemma MakeTiles(blocks: Blocks, seen: seq<nat>, base: nat, mapped: nat, first: nat, last: nat)
    requires seen != [] && seen[0] == first && seen[|seen| - 1] == last && last in blocks && blocks[last].next == 0
    requires (forall k :: 0 <= k < |seen| ==> Sits(blocks, seen, base, k)) && End(blocks, last) == base + mapped
    ensures Tiles(blocks, seen, base, mapped, first, last)
  {
  }

  lemma TilesFacts(blocks: Blocks, o: seq<nat>, base: nat, mapped: nat, first: nat, last: nat)
    requires Tiles(blocks, o, base, mapped, first, last) && base > 0 && 0 !in blocks
    ensures o != [] && o[0] == first && first != 0 && last != 0 && mapped != 0
    ensures o[|o| - 1] == last && last in blocks && End(blocks, last) == base + mapped
  {
    assert Sits(blocks, o, base, 0);
    TilesInside(blocks, o, base, mapped, first, last, 0);
  }

  lemma TilesAt(blocks: Blocks, o: seq<nat>, base: nat, mapped: nat, first: nat, last: nat, k: nat)
    requires Tiles(blocks, o, base, mapped, first, last) && k < |o| && 0 !in blocks
    ensures Sits(blocks, o, base, k) && End(blocks, o[k]) <= base + mapped && (k + 1) * HEADER <= mapped
    ensures k + 1 < |o| ==> Sits(blocks, o, base, k + 1) && blocks[o[k]].next == o[k + 1] && o[k + 1] != 0
    ensures k + 1 == |o| ==> blocks[o[k]].next == 0 && o[k] == last && End(blocks, o[k]) == base + mapped
  {
    assert Sits(blocks, o, base, k);
    TilesInside(blocks, o, base, mapped, first, last, k);
    Headers(blocks, o, base, k);
    if k + 1 < |o| {
      assert Sits(blocks, o, base, k + 1);
    }
  }

  /** No block in use has its payload at this address. */
  lemma NotLive(blocks: Blocks, order: seq<nat>, base: nat, mapped: nat, pointer: nat)
    requires Listed(blocks, order, base) && (forall b :: b in blocks <==> b in order) && base % PAGE == 0
    requires order != [] ==> order[|order| - 1] in blocks && base + mapped == End(blocks, order[|order| - 1])
    requires pointer < base + HEADER || order == [] || pointer >= base + mapped || pointer % ALIGN != 0
    ensures pointer >= base + HEADER ==> Live(blocks) == Live(blocks) - {pointer - HEADER}
  {
    if pointer >= base + HEADER && pointer - HEADER in blocks {
      var k :| 0 <= k < |order| && order[k] == pointer - HEADER;
      PayloadAligned(blocks, order, base, k);
      assert Here(blocks, order, base, k);
      if k < |order| - 1 {
        Ascending(blocks, order, base, k, |order| - 1);
      }
    }
  }

  lemma OnePair(blocks: Blocks, order: seq<nat>, k: int)
    requires MergedBut(blocks, order, k, k)
    ensures MergedBut(blocks, order, -1, k)
  {
  }

  lemma NoPair(blocks: Blocks, order: seq<nat>, k: int)
    requires MergedBut(blocks, order, k, k) && k < 0
    ensures Merged(blocks, order)
  {
  }

  lemma LastPair(blocks: Blocks, order: seq<nat>, k: nat)
    requires k < |order| && MergedBut(blocks, order, k - 1, k - 1)
    requires k > 0 ==> order[k - 1] in blocks && !blocks[order[k - 1]].free
    ensures Merged(blocks, order)
  {
  }

  lemma NextOf(blocks: Blocks, order: seq<nat>, base: nat, k: nat)
    requires Listed(blocks, order, base) && k < |order|
    ensures order[k] in blocks && blocks[order[k]].next == (if k + 1 < |order| then order[k + 1] else 0)
    ensures k + 1 < |order| ==> order[k + 1] in blocks && order[k + 1] != 0
    ensures blocks[order[k]].previous == (if k == 0 then 0 else order[k - 1])
    ensures k > 0 ==> order[k - 1] in blocks && order[k - 1] != 0
  {
    assert Here(blocks, order, base, k);
    if k + 1 < |order| {
      assert Here(blocks, order, base, k + 1);
    }
  }

  lemma PairIsFine(blocks: Blocks, order: seq<nat>, k: nat, open: int)
    requires k < |order| && MergedBut(blocks, order, open, k)
    requires k + 1 < |order| ==> order[k + 1] in blocks && !blocks[order[k + 1]].free
    ensures MergedBut(blocks, order, open, open)
  {
  }

  /** The test of kernel_calloc is exact. */
  lemma Representable(count: nat, size: nat)
    ensures count * size > SIZE_MAX || count * size == 0 <==> count == 0 || size == 0 || count > SIZE_MAX / size
  {
    if size > 0 && count > 0 {
      ProductFits(count, size, SIZE_MAX);
      Product(count, size);
    }
  }

  lemma Product(a: nat, b: nat)
    requires a > 0 && b > 0
    ensures a * b > 0
  {
  }

  lemma ProductFits(count: nat, size: nat, limit: nat)
    requires size > 0
    ensures count * size <= limit <==> count <= limit / size
  {
    var q := limit / size;
    assert limit == q * size + limit % size;
    if count <= q {
      ProductGrows(count, q, size);
    } else {
      ProductGrows(q + 1, count, size);
      assert (q + 1) * size == q * size + size;
    }
  }

  lemma ProductGrows(a: nat, b: nat, c: nat)
    requires a <= b
    ensures a * c <= b * c
  {
  }

  /** Where a block fits there is a first one. */
  lemma {:induction false} FirstOfFits(blocks: Blocks, order: seq<nat>, size: nat, k: int)
    requires FitAt(blocks, order, size, k)
    ensures exists j :: FirstFit(blocks, order, size, j)
    decreases k
  {
    if j :| j < k && FitAt(blocks, order, size, j) {
      FirstOfFits(blocks, order, size, j);
    } else {
      assert FirstFit(blocks, order, size, k);
    }
  }

  lemma PayloadAligned(blocks: Blocks, order: seq<nat>, base: nat, k: nat)
    requires Listed(blocks, order, base) && k < |order| && base % PAGE == 0
    ensures (order[k] + HEADER) % ALIGN == 0
  {
    hide Listed;
    PageIsAligned(base);
    Aligned(blocks, order, base, k);
  }

  lemma PageSizes(mapped: nat, added: nat)
    requires mapped % PAGE == 0 && added % PAGE == 0
    ensures (mapped + added) % PAGE == 0 && added % ALIGN == 0 && (added > 0 ==> added >= PAGE && (added - HEADER) % ALIGN == 0)
  {
    PageIsAligned(added);
  }

  lemma PageIsAligned(n: nat)
    requires n % 4096 == 0
    ensures n % 16 == 0
  {
    assert n == n / 4096 * 256 * 16;
  }

  lemma NotNull(blocks: Blocks, order: seq<nat>, base: nat)
    requires Listed(blocks, order, base)
    ensures 0 !in blocks && forall k :: 0 <= k < |order| ==> order[k] in blocks && order[k] != 0
  {
    forall k | 0 <= k < |order|
      ensures order[k] in blocks
    {
      assert Here(blocks, order, base, k);
    }
  }
}
