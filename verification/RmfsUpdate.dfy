/** How single steps of a write change a volume: replacing one inode's blocks, writing
    one inode record, taking and returning bitmap bits. */
module RmfsUpdate {
  import opened RmfsExtents
  import opened RmfsAllocator
  import opened RmfsVolume

  // ---------------------------------------------------------------- ownership

  /** The bitmap after inode `n` gave up the blocks `given` and took the blocks `taken`. */
  ghost predicate BitsMoved(g: Geometry, bits: seq<bool>, bits': seq<bool>, given: seq<nat>, taken: seq<nat>) {
    && |bits'| == |bits|
    && forall b :: g.dataStart <= b < g.backupBlock && b < |bits| ==>
         bits'[b] == if b in taken then true else if b in given then false else bits[b]
  }

  function OldBlocks(inodes: map<nat, Inode>, n: nat): seq<nat> {
    if n in inodes then Blocks(inodes[n].extents) else []
  }

  /** Replacing one inode keeps every block owned once and the bitmap exact, provided each
      block of the new inode was its own before or was free. */
  lemma ReplaceInode(g: Geometry, inodes: map<nat, Inode>, bits: seq<bool>, n: nat, inode: Inode, bits': seq<bool>)
    requires OwnedOnce(inodes) && BitsMatch(g, inodes, bits)
    requires forall m :: m in inodes ==> InArea(g, inodes[m].extents)
    requires Distinct(Blocks(inode.extents)) && InArea(g, inode.extents)
    requires forall b :: b in Blocks(inode.extents) ==> b in OldBlocks(inodes, n) || !bits[b]
    requires BitsMoved(g, bits, bits', OldBlocks(inodes, n), Blocks(inode.extents))
    ensures OwnedOnce(inodes[n := inode])
    ensures BitsMatch(g, inodes[n := inode], bits')
  {
    hide Blocks, Distinct;
    var after := inodes[n := inode];
    forall m, k, b | Owns(after, m, b) && Owns(after, k, b)
      ensures m == k
    {
      if m != n { OwnedElsewhere(g, inodes, bits, n, inode, m, b); }
      if k != n { OwnedElsewhere(g, inodes, bits, n, inode, k, b); }
    }
    forall b | g.dataStart <= b < g.backupBlock
      ensures bits'[b] <==> exists m :: Owns(after, m, b)
    {
      if b in Blocks(inode.extents) {
        assert Owns(after, n, b);
      } else if bits[b] {
        var m :| Owns(inodes, m, b);
        if m != n {
          assert Owns(after, m, b);
          assert b in OldBlocks(inodes, n) ==> Owns(inodes, n, b);
        } else {
          assert b in OldBlocks(inodes, n);
          assert forall k :: k != n && Owns(after, k, b) ==> Owns(inodes, k, b);
        }
      } else {
        assert forall k :: k != n && Owns(after, k, b) ==> Owns(inodes, k, b);
      }
    }
  }

  lemma OwnedElsewhere(g: Geometry, inodes: map<nat, Inode>, bits: seq<bool>, n: nat, inode: Inode, m: nat, b: nat)
    requires OwnedOnce(inodes) && BitsMatch(g, inodes, bits)
    requires forall k :: k in inodes ==> InArea(g, inodes[k].extents)
    requires forall x :: x in Blocks(inode.extents) ==> x in OldBlocks(inodes, n) || (x < |bits| && !bits[x])
    requires m != n && Owns(inodes, m, b)
    ensures b !in Blocks(inode.extents)
  {
    hide Blocks, Distinct;
    assert bits[b];
    assert b in OldBlocks(inodes, n) ==> Owns(inodes, n, b);
  }

  // ---------------------------------------------------------------- bit counts

  lemma {:induction false} FlipOne(bits: seq<bool>, lo: nat, hi: nat, b: nat, used: bool)
    requires lo <= hi <= |bits| && b < |bits|
    ensures |FreeList(bits[b := used], lo, hi)| == |FreeList(bits, lo, hi)|
      + if lo <= b < hi then (if bits[b] then 1 else 0) - (if used then 1 else 0) else 0
    decreases hi
  {
    if lo < hi {
      FlipOne(bits, lo, hi - 1, b, used);
    }
  }

  lemma MarkedSnoc(bits: seq<bool>, blocks: seq<nat>, n: nat, used: bool)
    requires n < |blocks| && blocks[n] < |bits|
    ensures Marked(bits, blocks[..n + 1], used) == Marked(bits, blocks[..n], used)[blocks[n] := used]
  {
    assert blocks[..n + 1] == blocks[..n] + [blocks[n]];
  }

  /** Flipping `n` distinct bits of the area moves the count of clear bits by `n`. */
  lemma {:induction false} FlipMany(bits: seq<bool>, lo: nat, hi: nat, blocks: seq<nat>, n: nat, used: bool)
    requires lo <= hi <= |bits| && n <= |blocks| && Distinct(blocks)
    requires forall i :: 0 <= i < |blocks| ==> lo <= blocks[i] < hi && bits[blocks[i]] == !used
    ensures |FreeList(Marked(bits, blocks[..n], used), lo, hi)| == |FreeList(bits, lo, hi)| + (if used then 0 - n else n)
  {
    hide FreeList;
    if n == 0 {
      assert Marked(bits, blocks[..0], used) == bits;
    } else {
      FlipMany(bits, lo, hi, blocks, n - 1, used);
      MarkedSnoc(bits, blocks, n - 1, used);
      FlipOne(Marked(bits, blocks[..n - 1], used), lo, hi, blocks[n - 1], used);
    }
  }

  // ---------------------------------------------------------------- contents

  /** The two disks hold the same in every listed block. */
  ghost predicate SameOn(disk: seq<Block>, disk': seq<Block>, blocks: seq<nat>) {
    && |disk'| == |disk|
    && forall b :: b in blocks && b < |disk| ==> disk'[b] == disk[b]
  }

  lemma SameNode(disk: seq<Block>, disk': seq<Block>, inode: Inode)
    requires SameOn(disk, disk', Blocks(inode.extents))
    ensures NodeOf(disk', inode) == NodeOf(disk, inode)
  {
    hide Blocks;
    var blocks := Blocks(inode.extents);
    assert forall i :: 0 <= i < |blocks| && blocks[i] < |disk| ==> disk'[blocks[i]] == disk[blocks[i]];
    assert FileBytes(disk', inode) == FileBytes(disk, inode);
    assert Slack(disk', inode) == Slack(disk, inode);
    assert DirSlots(disk', inode) == DirSlots(disk, inode);
  }

  lemma SameInodeOk(g: Geometry, disk: seq<Block>, disk': seq<Block>, inodes: map<nat, Inode>, inodes': map<nat, Inode>, n: nat)
    requires n in inodes && InodeOk(g, disk, inodes, n)
    requires n in inodes' && inodes'[n] == inodes[n]
    requires forall m :: m in inodes ==> m in inodes'
    requires SameOn(disk, disk', Blocks(inodes[n].extents))
    ensures InodeOk(g, disk', inodes', n)
  {
    hide Blocks, Decodable;
    var blocks := Blocks(inodes[n].extents);
    assert forall i :: 0 <= i < |blocks| && blocks[i] < |disk| ==> disk'[blocks[i]] == disk[blocks[i]];
    if inodes[n].kind.Directory? {
      forall k | 0 <= k < inodes[n].size / DIRENT_SIZE
        ensures DirSlot(disk', blocks, k) == DirSlot(disk, blocks, k)
      {
      }
    }
  }

  // ---------------------------------------------------------------- the inode table

  /** Writing record `n` and setting its bit changes exactly live inode `n`. */
  lemma WriteRecord(g: Geometry, disk: seq<Block>, inodeBitmap: seq<bool>, n: nat, inode: Inode)
    requires GeometryOk(g) && g.totalBlocks <= |disk| && g.inodeCount <= |inodeBitmap|
    requires TableOk(g, disk, inodeBitmap) && 0 < n <= g.inodeCount
    ensures TableBlock(g, n) < g.dataStart
    ensures disk[TableBlock(g, n)].InodeTable? && |disk[TableBlock(g, n)].slots| == 16
    ensures var slots := disk[TableBlock(g, n)].slots[(n - 1) % 16 := Readable(inode)];
      var disk' := disk[TableBlock(g, n) := InodeTable(slots)];
      && TableOk(g, disk', inodeBitmap[n - 1 := true])
      && LiveInodes(g, disk', inodeBitmap[n - 1 := true]) == LiveInodes(g, disk, inodeBitmap)[n := inode]
  {
    hide LiveInodes, InodeSlotAt, GeometryOk;
    var t := TableBlock(g, n);
    TableInside(g, n);
    var disk' := disk[t := InodeTable(disk[t].slots[(n - 1) % 16 := Readable(inode)])];
    forall m | 0 < m <= g.inodeCount
      ensures InodeSlotAt(g, disk', m) == if m == n then Readable(inode) else InodeSlotAt(g, disk, m)
    {
      RecordSlot(g, disk, n, inode, m);
    }
    assert LiveInodes(g, disk', inodeBitmap[n - 1 := true]) == LiveInodes(g, disk, inodeBitmap)[n := inode];
  }

  lemma TableInside(g: Geometry, n: nat)
    requires GeometryOk(g) && 0 < n <= g.inodeCount
    ensures g.inodeTableStart <= TableBlock(g, n) < g.dataStart < g.totalBlocks
  {
  }

  lemma RecordSlot(g: Geometry, disk: seq<Block>, n: nat, inode: Inode, m: nat)
    requires 0 < n <= g.inodeCount && 0 < m <= g.inodeCount
    requires TableBlock(g, n) < |disk| && disk[TableBlock(g, n)].InodeTable? && |disk[TableBlock(g, n)].slots| == 16
    ensures
      var disk' := disk[TableBlock(g, n) := InodeTable(disk[TableBlock(g, n)].slots[(n - 1) % 16 := Readable(inode)])];
      InodeSlotAt(g, disk', m) == if m == n then Readable(inode) else InodeSlotAt(g, disk, m)
  {
    if m != n {
      OtherSlot(m, n);
    }
  }

  /** Different inodes have different places in the table. */
  lemma OtherSlot(m: nat, n: nat)
    requires m > 0 && n > 0 && m != n
    ensures (m - 1) / 16 != (n - 1) / 16 || (m - 1) % 16 != (n - 1) % 16
  {
  }

  /** Blocks outside the inode table do not matter to the live inodes. */
  lemma OutsideTable(g: Geometry, disk: seq<Block>, disk': seq<Block>, inodeBitmap: seq<bool>)
    requires GeometryOk(g) && g.totalBlocks <= |disk| == |disk'|
    requires forall b :: g.inodeTableStart <= b < g.dataStart ==> disk'[b] == disk[b]
    ensures LiveInodes(g, disk', inodeBitmap) == LiveInodes(g, disk, inodeBitmap)
    ensures TableOk(g, disk, inodeBitmap) ==> TableOk(g, disk', inodeBitmap)
  {
    hide LiveInodes;
    forall n | 0 < n <= g.inodeCount
      ensures InodeSlotAt(g, disk', n) == InodeSlotAt(g, disk, n)
    {
      assert g.inodeTableStart <= TableBlock(g, n) < g.dataStart;
    }
    assert LiveInodes(g, disk', inodeBitmap) == LiveInodes(g, disk, inodeBitmap);
  }
}
