/** The block list of the kernel heap (kernel/heap.c): blocks that tile the mapped part of the heap,
    linked in address order. */
module HeapBlocks {

  /** Bytes of a block's header, and the alignment of payloads. */
  const HEADER: nat := 48
  const ALIGN: nat := 16

  /** Blocks are found by address; 0 is the null pointer. */
  datatype Block = Block(size: nat, previous: nat, next: nat, free: bool)

  type Blocks = map<nat, Block>

  /** The address after block `b`. */
  function End(blocks: Blocks, b: nat): nat
    requires b in blocks
  {
    b + HEADER + blocks[b].size
  }

  /** Block `k` of the list: linked to its neighbours, and starting where the one before ends. */
  ghost predicate Here(blocks: Blocks, order: seq<nat>, base: nat, k: nat)
    requires k < |order|
  {
    && order[k] in blocks && blocks[order[k]].size > 0 && blocks[order[k]].size % ALIGN == 0
    && blocks[order[k]].previous == (if k == 0 then 0 else order[k - 1])
    && blocks[order[k]].next == (if k + 1 < |order| then order[k + 1] else 0)
    && (if k == 0 then order[k] == base else order[k - 1] in blocks && order[k] == End(blocks, order[k - 1]))
  }

  ghost predicate Listed(blocks: Blocks, order: seq<nat>, base: nat) {
    base > 0 && 0 !in blocks && forall k :: 0 <= k < |order| ==> Here(blocks, order, base, k)
  }

  /** No two neighbours are both free. */
  ghost predicate Merged(blocks: Blocks, order: seq<nat>) {
    forall k :: 0 <= k < |order| - 1 && order[k] in blocks && order[k + 1] in blocks ==>
      !(blocks[order[k]].free && blocks[order[k + 1]].free)
  }

  /** Addresses go up along the list, each past the end of the block before. */
  lemma {:induction false} Ascending(blocks: Blocks, order: seq<nat>, base: nat, i: nat, j: nat)
    requires Listed(blocks, order, base) && i < j < |order|
    ensures order[i] in blocks && End(blocks, order[i]) <= order[j]
  {
    assert Here(blocks, order, base, j) && Here(blocks, order, base, i);
    if i + 1 < j {
      Ascending(blocks, order, base, i, j - 1);
      assert Here(blocks, order, base, j - 1);
    }
  }

  lemma {:induction false} Aligned(blocks: Blocks, order: seq<nat>, base: nat, k: nat)
    requires Listed(blocks, order, base) && k < |order| && base % ALIGN == 0
    ensures order[k] % ALIGN == 0 && order[k] >= base
  {
    assert Here(blocks, order, base, k);
    if k > 0 {
      Aligned(blocks, order, base, k - 1);
      assert Here(blocks, order, base, k - 1);
    }
  }

  /** Different places in the list are different blocks, and nothing else lies inside a block. */
  lemma Separate(blocks: Blocks, order: seq<nat>, base: nat, k: nat)
    requires Listed(blocks, order, base) && k < |order|
    ensures order[k] in blocks
    ensures forall i :: 0 <= i < |order| && i != k ==> order[i] < order[k] || End(blocks, order[k]) <= order[i]
  {
    assert Here(blocks, order, base, k);
    forall i | 0 <= i < |order| && i != k
      ensures order[i] < order[k] || End(blocks, order[k]) <= order[i]
    {
      if i < k {
        Ascending(blocks, order, base, i, k);
      } else {
        Ascending(blocks, order, base, k, i);
      }
    }
  }

  /** If no block is in use there is just one. */
  lemma OneFreeBlock(blocks: Blocks, order: seq<nat>)
    requires order != [] && (forall k :: 0 <= k < |order| ==> order[k] in blocks) && Merged(blocks, order)
    ensures (forall k :: 0 <= k < |order| ==> blocks[order[k]].free) ==> |order| == 1
  {
    if |order| > 1 {
      var k := 0;
      assert !(blocks[order[k]].free && blocks[order[k + 1]].free);
    }
  }

  /** The payloads of two blocks have no byte in common. */
  lemma Disjoint(blocks: Blocks, order: seq<nat>, base: nat, i: nat, j: nat, a: nat)
    requires Listed(blocks, order, base) && i < |order| && j < |order| && i != j
    ensures order[i] in blocks && order[j] in blocks
    ensures !(order[i] + HEADER <= a < End(blocks, order[i]) && order[j] + HEADER <= a < End(blocks, order[j]))
  {
    if i < j {
      Ascending(blocks, order, base, i, j);
    } else {
      Ascending(blocks, order, base, j, i);
    }
    assert Here(blocks, order, base, i) && Here(blocks, order, base, j);
  }

  // ---------------------------------------------------------------- splitting

  function WithPrevious(blocks: Blocks, b: nat, previous: nat): Blocks {
    if b in blocks then blocks[b := blocks[b].(previous := previous)] else blocks
  }

  /** heap_split: a free tail is cut off block `b`. */
  function Split(blocks: Blocks, b: nat, size: nat): (r: Blocks)
    requires b in blocks && size + HEADER <= blocks[b].size
    ensures b in r && r[b] == blocks[b].(size := size, next := b + HEADER + size)
  {
    var tail := b + HEADER + size;
    var x := blocks[b];
    WithPrevious(blocks, x.next, tail)[tail := Block(x.size - size - HEADER, b, x.next, true)][b := x.(size := size, next := tail)]
  }

  function SplitOrder(order: seq<nat>, k: nat, tail: nat): seq<nat>
    requires k < |order|
  {
    order[..k + 1] + [tail] + order[k + 1..]
  }

  /** What each block is after a split. */
  lemma SplitValues(blocks: Blocks, order: seq<nat>, base: nat, k: nat, size: nat)
    requires Listed(blocks, order, base) && k < |order| && order[k] in blocks && size + HEADER <= blocks[order[k]].size
    ensures
      var b, tail, blocks' := order[k], order[k] + HEADER + size, Split(blocks, order[k], size);
      && blocks'[b] == blocks[b].(size := size, next := tail)
      && blocks'[tail] == Block(blocks[b].size - size - HEADER, b, blocks[b].next, true)
      && 0 !in blocks'
      && (forall i :: 0 <= i < |order| ==> order[i] != tail && order[i] in blocks')
      && (forall i :: 0 <= i < |order| && i != k ==>
           order[i] in blocks && blocks'[order[i]] == if i == k + 1 then blocks[order[i]].(previous := tail) else blocks[order[i]])
  {
    var b := order[k];
    assert Here(blocks, order, base, k);
    Separate(blocks, order, base, k);
    if k + 1 < |order| {
      Separate(blocks, order, base, k + 1);
    }
    forall i | 0 <= i < |order|
      ensures order[i] in blocks && order[i] != b + HEADER + size
    {
      assert Here(blocks, order, base, i);
    }
  }

  lemma SplitListed(blocks: Blocks, order: seq<nat>, base: nat, k: nat, size: nat)
    requires Listed(blocks, order, base) && k < |order| && order[k] in blocks
    requires size > 0 && size % ALIGN == 0 && size + HEADER < blocks[order[k]].size
    ensures Listed(Split(blocks, order[k], size), SplitOrder(order, k, order[k] + HEADER + size), base)
  {
    SplitValues(blocks, order, base, k, size);
    var b, tail := order[k], order[k] + HEADER + size;
    var blocks', order' := Split(blocks, b, size), SplitOrder(order, k, tail);
    hide Split;
    forall i | 0 <= i < |order'|
      ensures Here(blocks', order', base, i)
    {
      if i <= k {
        assert Here(blocks, order, base, i) && order'[i] == order[i];
        if i > 0 {
          assert order'[i - 1] == order[i - 1];
        }
      } else if i == k + 1 {
        assert Here(blocks, order, base, k) && order'[i] == tail && order'[i - 1] == b;
      } else {
        assert Here(blocks, order, base, i - 1) && order'[i] == order[i - 1];
        assert i > k + 2 ==> order'[i - 1] == order[i - 2];
        assert i == k + 2 ==> order'[i - 1] == tail;
      }
    }
  }

  lemma SplitMerged(blocks: Blocks, order: seq<nat>, base: nat, k: nat, size: nat)
    requires Listed(blocks, order, base) && Merged(blocks, order) && k < |order| && order[k] in blocks
    requires size + HEADER <= blocks[order[k]].size && blocks[order[k]].free
    ensures
      var b, tail := order[k], order[k] + HEADER + size;
      var blocks' := Split(blocks, b, size);
      Merged(blocks'[b := blocks'[b].(free := false)], SplitOrder(order, k, tail))
  {
    SplitValues(blocks, order, base, k, size);
    var b, tail := order[k], order[k] + HEADER + size;
    var blocks', order' := Split(blocks, b, size)[b := Split(blocks, b, size)[b].(free := false)], SplitOrder(order, k, tail);
    hide Split;
    Separate(blocks, order, base, k);
    forall i | 0 <= i < |order'| - 1 && order'[i] in blocks' && order'[i + 1] in blocks'
      ensures !(blocks'[order'[i]].free && blocks'[order'[i + 1]].free)
    {
      if i < k {
        assert order'[i] == order[i] && order'[i + 1] == order[i + 1] && order[i] in blocks && order[i + 1] in blocks;
      } else if i == k {
        assert order'[i] == b;
      } else if i == k + 1 {
        assert order'[i + 1] == order[k + 1] && order[k + 1] in blocks;
      } else {
        assert order'[i] == order[i - 1] && order'[i + 1] == order[i - 1 + 1] && order[i - 1] in blocks && order[i - 1 + 1] in blocks;
      }
    }
  }

  // ---------------------------------------------------------------- changing a block

  /** A change of the free flag leaves the list as it is. */
  lemma FlagListed(blocks: Blocks, order: seq<nat>, base: nat, b: nat, free: bool)
    requires Listed(blocks, order, base) && b in blocks
    ensures Listed(blocks[b := blocks[b].(free := free)], order, base)
  {
    var blocks' := blocks[b := blocks[b].(free := free)];
    forall k | 0 <= k < |order|
      ensures Here(blocks', order, base, k)
    {
      assert Here(blocks, order, base, k);
    }
  }

  // ---------------------------------------------------------------- merging

  /** heap_merge_next: block `b` swallows the block after it. */
  function Joined(blocks: Blocks, b: nat): Blocks
    requires b in blocks && blocks[b].next in blocks
  {
    var x, next := blocks[b], blocks[blocks[b].next];
    (WithPrevious(blocks, next.next, b) - {x.next})[b := x.(size := x.size + HEADER + next.size, next := next.next)]
  }

  function JoinOrder(order: seq<nat>, k: nat): seq<nat>
    requires k + 1 < |order|
  {
    order[..k + 1] + order[k + 2..]
  }

  lemma JoinValues(blocks: Blocks, order: seq<nat>, base: nat, k: nat)
    requires Listed(blocks, order, base) && k + 1 < |order|
    ensures order[k] in blocks && order[k + 1] in blocks && blocks[order[k]].next == order[k + 1]
    ensures
      var b, c, blocks' := order[k], order[k + 1], Joined(blocks, order[k]);
      && b in blocks' && blocks'[b] == blocks[b].(size := blocks[b].size + HEADER + blocks[c].size, next := blocks[c].next)
      && 0 !in blocks' && c !in blocks'
      && (forall i :: 0 <= i < |order| && i != k && i != k + 1 ==>
           order[i] in blocks && order[i] in blocks' && blocks'[order[i]] == if i == k + 2 then blocks[order[i]].(previous := b) else blocks[order[i]])
  {
    assert Here(blocks, order, base, k) && Here(blocks, order, base, k + 1);
    Separate(blocks, order, base, k);
    Separate(blocks, order, base, k + 1);
    if k + 2 < |order| {
      Separate(blocks, order, base, k + 2);
    }
    forall i | 0 <= i < |order|
      ensures order[i] in blocks
    {
      assert Here(blocks, order, base, i);
    }
  }

  lemma JoinListed(blocks: Blocks, order: seq<nat>, base: nat, k: nat)
    requires Listed(blocks, order, base) && k + 1 < |order|
    ensures order[k] in blocks && blocks[order[k]].next in blocks && Listed(Joined(blocks, order[k]), JoinOrder(order, k), base)
  {
    JoinValues(blocks, order, base, k);
    var b := order[k];
    var blocks', order' := Joined(blocks, b), JoinOrder(order, k);
    hide Joined;
    forall i | 0 <= i < |order'|
      ensures Here(blocks', order', base, i)
    {
      if i <= k {
        assert Here(blocks, order, base, i) && order'[i] == order[i] && Here(blocks, order, base, k + 1);
        if i > 0 {
          assert order'[i - 1] == order[i - 1];
        }
      } else {
        assert Here(blocks, order, base, i + 1) && order'[i] == order[i + 1] && Here(blocks, order, base, i);
        assert i > k + 1 ==> order'[i - 1] == order[i];
        assert i == k + 1 ==> order'[i - 1] == b;
      }
    }
  }

  // ---------------------------------------------------------------- growing

  /** The last block grows. */
  lemma GrowListed(blocks: Blocks, order: seq<nat>, base: nat, added: nat)
    requires Listed(blocks, order, base) && order != [] && added % ALIGN == 0
    ensures
      var b := order[|order| - 1];
      b in blocks && Listed(blocks[b := blocks[b].(size := blocks[b].size + added)], order, base)
  {
    var n := |order| - 1;
    var b := order[n];
    assert Here(blocks, order, base, n);
    var blocks' := blocks[b := blocks[b].(size := blocks[b].size + added)];
    Separate(blocks, order, base, n);
    forall k | 0 <= k < |order|
      ensures Here(blocks', order, base, k)
    {
      assert Here(blocks, order, base, k);
    }
  }

  function WithNext(blocks: Blocks, b: nat, next: nat): Blocks {
    if b in blocks then blocks[b := blocks[b].(next := next)] else blocks
  }

  /** A new block after the last one. */
  lemma AppendListed(blocks: Blocks, order: seq<nat>, base: nat, size: nat)
    requires Listed(blocks, order, base) && size > 0 && size % ALIGN == 0
    ensures
      var last := if order == [] then 0 else order[|order| - 1];
      var b := if last in blocks then End(blocks, last) else base;
      && (order != [] ==> last in blocks)
      && (order == [] ==> Listed(map[base := Block(size, 0, 0, true)], [base], base))
      && (order != [] ==> b !in order && Listed(WithNext(blocks, last, b)[b := Block(size, last, 0, true)], order + [b], base))
  {
    if order == [] {
      assert Here(map[base := Block(size, 0, 0, true)], [base], base, 0);
    } else {
      var n := |order| - 1;
      var last := order[n];
      assert Here(blocks, order, base, n);
      var b := End(blocks, last);
      var blocks', order' := WithNext(blocks, last, b)[b := Block(size, last, 0, true)], order + [b];
      forall k | 0 <= k < n
        ensures order[k] < last
      {
        Ascending(blocks, order, base, k, n);
      }
      forall k | 0 <= k < |order'|
        ensures Here(blocks', order', base, k)
      {
        if k <= n {
          assert Here(blocks, order, base, k) && order'[k] == order[k];
        }
      }
    }
  }

  // ---------------------------------------------------------------- blocks in use

  /** Blocks in use, with their sizes. */
  function Live(blocks: Blocks): map<nat, nat> {
    map b | b in blocks && !blocks[b].free :: blocks[b].size
  }

  lemma SplitLive(blocks: Blocks, b: nat, size: nat)
    requires b in blocks && size + HEADER <= blocks[b].size && blocks[b].free && b + HEADER + size !in blocks && blocks[b].next != b
    ensures
      var blocks' := Split(blocks, b, size);
      Live(blocks'[b := blocks'[b].(free := false)]) == Live(blocks)[b := size]
  {
  }

  lemma JoinLive(blocks: Blocks, b: nat)
    requires b in blocks && blocks[b].next in blocks && blocks[b].free && blocks[blocks[b].next].free
    requires blocks[b].next != b && blocks[blocks[b].next].next != b && blocks[blocks[b].next].next != blocks[b].next
    ensures Live(Joined(blocks, b)) == Live(blocks)
  {
  }

  /** A change of size leaves the free flags, and so the merging, as they are. */
  lemma GrowKeeps(blocks: Blocks, order: seq<nat>, b: nat, size: nat)
    requires b in blocks && blocks[b].free && Merged(blocks, order)
    ensures Merged(blocks[b := blocks[b].(size := size)], order)
    ensures Live(blocks[b := blocks[b].(size := size)]) == Live(blocks)
  {
  }

  /** A new free block behind one in use. */
  lemma AppendKeeps(blocks: Blocks, order: seq<nat>, last: nat, b: nat, x: Block)
    requires Merged(blocks, order) && b !in blocks && x.free && forall k :: 0 <= k < |order| ==> order[k] in blocks
    requires if order == [] then last !in blocks else last == order[|order| - 1] && last in blocks && !blocks[last].free
    ensures Merged(WithNext(blocks, last, b)[b := x], order + [b])
    ensures Live(WithNext(blocks, last, b)[b := x]) == Live(blocks)
  {
    var blocks', order' := WithNext(blocks, last, b)[b := x], order + [b];
    forall k | 0 <= k < |order'| - 1 && order'[k] in blocks' && order'[k + 1] in blocks'
      ensures !(blocks'[order'[k]].free && blocks'[order'[k + 1]].free)
    {
      if k + 1 < |order| {
        assert order'[k] == order[k] && order'[k + 1] == order[k + 1];
      } else {
        assert order'[k] == last;
      }
    }
  }

  /** A block taken into use. */
  lemma UseKeeps(blocks: Blocks, order: seq<nat>, b: nat)
    requires b in blocks && blocks[b].free && Merged(blocks, order)
    ensures Merged(blocks[b := blocks[b].(free := false)], order)
    ensures Live(blocks[b := blocks[b].(free := false)]) == Live(blocks)[b := blocks[b].size]
  {
  }

  /** Block `k`, split and taken into use. */
  ghost function SplitUsed(blocks: Blocks, b: nat, size: nat): Blocks
    requires b in blocks && size + HEADER <= blocks[b].size
  {
    Split(blocks, b, size)[b := Split(blocks, b, size)[b].(free := false)]
  }

  lemma SplitAll(blocks: Blocks, order: seq<nat>, base: nat, k: nat, size: nat)
    requires Listed(blocks, order, base) && Merged(blocks, order) && (forall b :: b in blocks <==> b in order)
    requires k < |order| && order[k] in blocks && blocks[order[k]].free && size > 0 && size % ALIGN == 0 && size + HEADER < blocks[order[k]].size
    ensures
      var b, tail := order[k], order[k] + HEADER + size;
      var blocks', order' := SplitUsed(blocks, b, size), SplitOrder(order, k, tail);
      && Listed(blocks', order', base) && Merged(blocks', order') && Live(blocks') == Live(blocks)[b := size]
      && (forall c :: c in blocks' <==> c in order')
      && b in blocks' && !blocks'[b].free && blocks'[b].size == size
      && |order'| == |order| + 1 && order'[0] == order[0]
      && (blocks[b].next == 0 ==> order'[|order|] == tail && tail in blocks' && End(blocks', tail) == End(blocks, order[|order| - 1]))
      && (blocks[b].next != 0 ==> order'[|order|] == order[|order| - 1] && order[|order| - 1] in blocks' && End(blocks', order[|order| - 1]) == End(blocks, order[|order| - 1]))
  {
    var b, tail := order[k], order[k] + HEADER + size;
    SplitValues(blocks, order, base, k, size);
    SplitListed(blocks, order, base, k, size);
    SplitMerged(blocks, order, base, k, size);
    Separate(blocks, order, base, k);
    assert Here(blocks, order, base, k);
    assert tail !in blocks && blocks[b].next != b;
    assert Here(blocks, order, base, |order| - 1);
    SplitLive(blocks, b, size);
    SplitKeys(blocks, order, k, size);
    hide Merged, Live;
    FlagListed(Split(blocks, b, size), SplitOrder(order, k, tail), base, b, false);
  }

  lemma SplitKeys(blocks: Blocks, order: seq<nat>, k: nat, size: nat)
    requires (forall b :: b in blocks <==> b in order) && k < |order| && size + HEADER <= blocks[order[k]].size
    ensures forall c :: c in SplitUsed(blocks, order[k], size) <==> c in SplitOrder(order, k, order[k] + HEADER + size)
  {
    var order' := SplitOrder(order, k, order[k] + HEADER + size);
    assert order == order[..k + 1] + order[k + 1..];
    assert forall c :: c in order' <==> c in order || c == order[k] + HEADER + size;
  }

  // ---------------------------------------------------------------- freeing

  /** No two neighbours are free, except perhaps the pairs that start at `a` and at `b`. */
  ghost predicate MergedBut(blocks: Blocks, order: seq<nat>, a: int, b: int) {
    forall k :: 0 <= k < |order| - 1 && k != a && k != b && order[k] in blocks && order[k + 1] in blocks ==>
      !(blocks[order[k]].free && blocks[order[k + 1]].free)
  }

  /** A block given back may have free neighbours. */
  lemma FreeKeeps(blocks: Blocks, order: seq<nat>, base: nat, k: nat)
    requires Listed(blocks, order, base) && Merged(blocks, order) && k < |order| && order[k] in blocks
    ensures
      var b := order[k];
      var blocks' := blocks[b := blocks[b].(free := true)];
      MergedBut(blocks', order, k - 1, k) && Live(blocks') == Live(blocks) - {b}
  {
    var b := order[k];
    var blocks' := blocks[b := blocks[b].(free := true)];
    Separate(blocks, order, base, k);
    assert Here(blocks, order, base, k);
    assert forall b' :: b' in Live(blocks') <==> b' in Live(blocks) && b' != b;
  }

  /** Joining a block with the free block behind it settles that pair. */
  lemma JoinMerged(blocks: Blocks, order: seq<nat>, base: nat, k: nat, a: int)
    requires Listed(blocks, order, base) && k + 1 < |order| && a < k && MergedBut(blocks, order, a, k)
    requires order[k] in blocks && order[k + 1] in blocks && blocks[order[k]].next in blocks && blocks[order[k + 1]].free && blocks[order[k]].free
    ensures MergedBut(Joined(blocks, order[k]), JoinOrder(order, k), a, a)
    ensures Live(Joined(blocks, order[k])) == Live(blocks)
  {
    JoinValues(blocks, order, base, k);
    Separate(blocks, order, base, k);
    Separate(blocks, order, base, k + 1);
    assert Here(blocks, order, base, k + 1) && Here(blocks, order, base, k);
    JoinLive(blocks, order[k]);
    var blocks', order' := Joined(blocks, order[k]), JoinOrder(order, k);
    hide Joined, Live;
    forall i | 0 <= i < |order'| - 1 && i != a && order'[i] in blocks' && order'[i + 1] in blocks'
      ensures !(blocks'[order'[i]].free && blocks'[order'[i + 1]].free)
    {
      if i < k {
        assert order'[i] == order[i] && order'[i + 1] == order[i + 1];
      } else {
        assert order'[i + 1] == order[i + 1 + 1] && order[i + 1] in blocks && order[i + 1 + 1] in blocks;
        assert i > k ==> order'[i] == order[i + 1];
      }
    }
  }

  lemma JoinKeys(blocks: Blocks, order: seq<nat>, base: nat, k: nat)
    requires Listed(blocks, order, base) && (forall b :: b in blocks <==> b in order) && k + 1 < |order| && order[k] in blocks && blocks[order[k]].next in blocks
    ensures forall c :: c in Joined(blocks, order[k]) <==> c in JoinOrder(order, k)
  {
    JoinValues(blocks, order, base, k);
    Separate(blocks, order, base, k + 1);
    var order' := JoinOrder(order, k);
    forall c | c in order && c != order[k + 1]
      ensures c in order'
    {
      var i :| 0 <= i < |order| && order[i] == c;
      assert order'[if i <= k then i else i - 1] == c;
    }
    forall c | c in order'
      ensures c in order && c != order[k + 1]
    {
      var i :| 0 <= i < |order'| && order'[i] == c;
      assert c == order[if i <= k then i else i + 1];
    }
  }

  /** Everything about joining block `k` with the free block behind it. */
  lemma JoinAll(blocks: Blocks, order: seq<nat>, base: nat, k: nat, a: int)
    requires Listed(blocks, order, base) && (forall b :: b in blocks <==> b in order) && k + 1 < |order| && a < k && MergedBut(blocks, order, a, k)
    requires order[k] in blocks && order[k + 1] in blocks && blocks[order[k]].free && blocks[order[k + 1]].free
    ensures blocks[order[k]].next == order[k + 1]
    ensures
      var b, last := order[k], order[|order| - 1];
      var blocks', order' := Joined(blocks, b), JoinOrder(order, k);
      && Listed(blocks', order', base) && MergedBut(blocks', order', a, a) && Live(blocks') == Live(blocks)
      && (forall c :: c in blocks' <==> c in order')
      && b in blocks' && blocks'[b].free && blocks'[b].previous == blocks[b].previous
      && |order'| == |order| - 1 && order'[k] == b && order'[0] == order[0] && order'[..k + 1] == order[..k + 1]
      && last in blocks
      && (blocks[order[k + 1]].next == 0 ==> order'[|order| - 2] == b && End(blocks', b) == End(blocks, last))
      && (blocks[order[k + 1]].next != 0 ==> order'[|order| - 2] == last && last in blocks' && End(blocks', last) == End(blocks, last))
      && (forall i :: 0 <= i < k && order[i] in blocks ==> order[i] in blocks' && blocks'[order[i]] == blocks[order[i]])
  {
    JoinValues(blocks, order, base, k);
    JoinListed(blocks, order, base, k);
    JoinMerged(blocks, order, base, k, a);
    JoinKeys(blocks, order, base, k);
    assert Here(blocks, order, base, k) && Here(blocks, order, base, k + 1) && Here(blocks, order, base, |order| - 1);
    hide Joined, Live, MergedBut, Listed;
  }

  // ---------------------------------------------------------------- checking

  /** What the check of a list looks at for block `k`. */
  ghost predicate Sits(blocks: Blocks, o: seq<nat>, base: nat, k: nat)
    requires k < |o|
  {
    && o[k] in blocks && blocks[o[k]].size % ALIGN == 0
    && blocks[o[k]].previous == (if k == 0 then 0 else o[k - 1])
    && (if k == 0 then o[k] == base else o[k - 1] in blocks && o[k] == End(blocks, o[k - 1]) && o[k] == blocks[o[k - 1]].next)
    && (k > 0 ==> !(blocks[o[k - 1]].free && blocks[o[k]].free))
  }

  /** `o` tiles the heap: from its base to its end, linked both ways, without free neighbours. */
  ghost predicate Tiles(blocks: Blocks, o: seq<nat>, base: nat, mapped: nat, first: nat, last: nat) {
    && o != [] && o[0] == first && o[|o| - 1] == last
    && (forall k :: 0 <= k < |o| ==> Sits(blocks, o, base, k))
    && last in blocks && blocks[last].next == 0 && End(blocks, last) == base + mapped
  }

  /** Every block takes at least its header. */
  lemma {:induction false} Headers(blocks: Blocks, o: seq<nat>, base: nat, k: nat)
    requires k < |o| && forall i :: 0 <= i <= k ==> Sits(blocks, o, base, i)
    ensures o[k] >= base + k * HEADER && o[k] in blocks && End(blocks, o[k]) >= base + (k + 1) * HEADER
  {
    assert Sits(blocks, o, base, k);
    if k > 0 {
      Headers(blocks, o, base, k - 1);
      assert Sits(blocks, o, base, k - 1);
    }
  }

  /** Blocks of a tiled heap lie inside it. */
  lemma {:induction false} TilesInside(blocks: Blocks, o: seq<nat>, base: nat, mapped: nat, first: nat, last: nat, k: nat)
    requires Tiles(blocks, o, base, mapped, first, last) && k < |o|
    ensures o[k] in blocks && End(blocks, o[k]) <= base + mapped
    decreases |o| - k
  {
    assert Sits(blocks, o, base, k);
    if k + 1 < |o| {
      TilesInside(blocks, o, base, mapped, first, last, k + 1);
      assert Sits(blocks, o, base, k + 1);
    }
  }

  /** The order of a heap in good condition tiles it. */
  lemma ListedTiles(blocks: Blocks, order: seq<nat>, base: nat, mapped: nat)
    requires Listed(blocks, order, base) && Merged(blocks, order) && order != []
    requires order[|order| - 1] in blocks && base + mapped == End(blocks, order[|order| - 1])
    ensures Tiles(blocks, order, base, mapped, order[0], order[|order| - 1])
  {
    forall k | 0 <= k < |order|
      ensures Sits(blocks, order, base, k)
    {
      assert Here(blocks, order, base, k);
      if k > 0 {
        assert Here(blocks, order, base, k - 1);
        var i := k - 1;
        assert !(blocks[order[i]].free && blocks[order[i + 1]].free);
      }
    }
    assert Here(blocks, order, base, |order| - 1);
  }
}
