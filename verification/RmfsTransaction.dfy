/** The copy-on-write step on volumes (kernel/rmfs.c:1087-1235): what a planned write installs,
    and that the installed volume is consistent and says what the request asked for. */
module RmfsTransaction {
  import opened RmfsExtents
  import opened RmfsAllocator
  import opened RmfsVolume
  import opened RmfsUpdate
  import opened RmfsPatch
  import opened RmfsState
  import opened RmfsDirectory

  ghost predicate Vol(m: Mem) {
    Consistent(m.geo, m.disk, m.inodeBitmap, m.blockBitmap, m.freeBlocks, m.freeInodes)
  }

  /** The inode table with record `n` replaced. */
  ghost predicate RecordWritten(g: Geometry, disk: seq<Block>, disk': seq<Block>, n: nat, inode: Inode)
    requires n > 0
  {
    && |disk'| == |disk|
    && forall b :: g.inodeTableStart <= b < g.dataStart && b < |disk| ==>
         disk'[b] == if b == TableBlock(g, n) && disk[b].InodeTable? && |disk[b].slots| == 16
                     then InodeTable(disk[b].slots[(n - 1) % 16 := Readable(inode)]) else disk[b]
  }

  /** One inode installed or replaced: record, bitmap bits, counters and blocks agree. */
  ghost predicate Installed(m: Mem, m': Mem, n: nat, inode: Inode) {
    && 0 < n <= m.geo.inodeCount && m'.geo == m.geo
    && n - 1 < |m.inodeBitmap| && m'.inodeBitmap == m.inodeBitmap[n - 1 := true]
    && RecordWritten(m.geo, m.disk, m'.disk, n, inode)
    && (forall k: nat, b: nat :: k != n && Owns(Inodes(m), k, b) && b < |m.disk| ==> m'.disk[b] == m.disk[b])
    && BitsMoved(m.geo, m.blockBitmap, m'.blockBitmap, OldBlocks(Inodes(m), n), Blocks(inode.extents))
    && m.geo.backupBlock < |m'.blockBitmap| && m.geo.dataStart <= m.geo.backupBlock
    && m.geo.inodeCount <= |m'.inodeBitmap|
    && m'.freeBlocks == |FreeList(m'.blockBitmap, m.geo.dataStart, m.geo.backupBlock)|
    && m'.freeInodes == |FreeList(m'.inodeBitmap, 0, m.geo.inodeCount)|
  }

  /** Installing an inode whose blocks were its own or free keeps the volume consistent, and
      changes what the volume says in that inode alone. */
  lemma Install(m: Mem, m': Mem, n: nat, inode: Inode)
    requires Vol(m) && Installed(m, m', n, inode)
    requires n in Inodes(m) ==> Inodes(m)[n].kind == inode.kind
    requires Distinct(Blocks(inode.extents))
    requires forall b :: b in Blocks(inode.extents) ==> b in OldBlocks(Inodes(m), n) || (b < |m.blockBitmap| && !m.blockBitmap[b])
    requires InodeOk(m.geo, m'.disk, Inodes(m)[n := inode], n)
    ensures Vol(m') && Inodes(m') == Inodes(m)[n := inode]
    ensures Nodes(m'.disk, Inodes(m')) == Nodes(m.disk, Inodes(m))[n := NodeOf(m'.disk, inode)]
  {
    hide LiveInodes, Nodes, OwnedOnce, BitsMatch, FreeList, InodeOk, NodeOf, TableOk, Blocks, BitsMoved, Distinct, RecordWritten, GeometryOk, Installed, Vol;
    InstallTable(m, m', n, inode);
    InodeInArea(m.geo, m'.disk, Inodes(m)[n := inode], n);
    InstallOwnership(m, m', n, inode);
    var inodes, inodes' := Inodes(m), Inodes(m)[n := inode];
    forall k | k in inodes && k != n
      ensures InodeOk(m.geo, m'.disk, inodes', k)
      ensures NodeOf(m'.disk, inodes[k]) == NodeOf(m.disk, inodes[k])
    {
      InstallOther(m, m', n, inode, k);
    }
    assert Nodes(m'.disk, inodes') == Nodes(m.disk, inodes)[n := NodeOf(m'.disk, inode)];
    InstallCounters(m, m', n, inode);
    assert Vol(m') by { Assemble(m'); }
  }

  lemma InstallCounters(m: Mem, m': Mem, n: nat, inode: Inode)
    requires Installed(m, m', n, inode)
    ensures m'.geo == m.geo && m.geo.inodeCount <= |m'.inodeBitmap| && m.geo.dataStart <= m.geo.backupBlock < |m'.blockBitmap|
    ensures m'.freeBlocks == |FreeList(m'.blockBitmap, m.geo.dataStart, m.geo.backupBlock)|
    ensures m'.freeInodes == |FreeList(m'.inodeBitmap, 0, m.geo.inodeCount)|
  {
  }

  lemma Assemble(m: Mem)
    requires GeometryOk(m.geo)
    requires m.geo.totalBlocks <= |m.disk| && m.geo.totalBlocks <= |m.blockBitmap| && m.geo.inodeCount <= |m.inodeBitmap|
    requires TableOk(m.geo, m.disk, m.inodeBitmap)
    requires forall n :: n in Inodes(m) ==> InodeOk(m.geo, m.disk, Inodes(m), n)
    requires OwnedOnce(Inodes(m)) && BitsMatch(m.geo, Inodes(m), m.blockBitmap)
    requires m.freeBlocks == |FreeList(m.blockBitmap, m.geo.dataStart, m.geo.backupBlock)|
    requires m.freeInodes == |FreeList(m.inodeBitmap, 0, m.geo.inodeCount)|
    requires m.geo.rootInode in Inodes(m) && Inodes(m)[m.geo.rootInode].kind.Directory?
    ensures Vol(m)
  {
  }

  lemma InodeInArea(g: Geometry, disk: seq<Block>, inodes: map<nat, Inode>, n: nat)
    requires n in inodes && InodeOk(g, disk, inodes, n)
    ensures InArea(g, inodes[n].extents)
  {
  }

  lemma InstallOther(m: Mem, m': Mem, n: nat, inode: Inode, k: nat)
    requires Vol(m) && Installed(m, m', n, inode) && k in Inodes(m) && k != n
    ensures InodeOk(m.geo, m'.disk, Inodes(m)[n := inode], k)
    ensures NodeOf(m'.disk, Inodes(m)[k]) == NodeOf(m.disk, Inodes(m)[k])
  {
    hide LiveInodes, OwnedOnce, BitsMatch, FreeList, InodeOk, NodeOf, TableOk, Blocks, BitsMoved;
    var inodes := Inodes(m);
    assert forall b :: b in Blocks(inodes[k].extents) ==> Owns(inodes, k, b);
    SameInodeOk(m.geo, m.disk, m'.disk, inodes, inodes[n := inode], k);
    SameNode(m.disk, m'.disk, inodes[k]);
  }

  lemma InstallTable(m: Mem, m': Mem, n: nat, inode: Inode)
    requires Vol(m) && Installed(m, m', n, inode)
    ensures Inodes(m') == Inodes(m)[n := inode]
    ensures TableOk(m'.geo, m'.disk, m'.inodeBitmap)
    ensures GeometryOk(m.geo) && m.geo.totalBlocks <= |m'.disk| && m.geo.totalBlocks <= |m'.blockBitmap|
    ensures m.geo.rootInode in Inodes(m) && Inodes(m)[m.geo.rootInode].kind.Directory?
  {
    hide LiveInodes, OwnedOnce, BitsMatch, FreeList, InodeOk, Blocks;
    WriteRecord(m.geo, m.disk, m.inodeBitmap, n, inode);
    var t := TableBlock(m.geo, n);
    var table := m.disk[t := InodeTable(m.disk[t].slots[(n - 1) % 16 := Readable(inode)])];
    OutsideTable(m.geo, table, m'.disk, m'.inodeBitmap);
  }

  lemma InstallOwnership(m: Mem, m': Mem, n: nat, inode: Inode)
    requires Vol(m) && Installed(m, m', n, inode)
    requires Distinct(Blocks(inode.extents)) && InArea(m.geo, inode.extents)
    requires forall b :: b in Blocks(inode.extents) ==> b in OldBlocks(Inodes(m), n) || (b < |m.blockBitmap| && !m.blockBitmap[b])
    ensures OwnedOnce(Inodes(m)[n := inode])
    ensures BitsMatch(m.geo, Inodes(m)[n := inode], m'.blockBitmap)
  {
    hide LiveInodes, OwnedOnce, FreeList, Blocks, BitsMoved, Distinct, TableOk;
    forall k | k in Inodes(m)
      ensures InArea(m.geo, Inodes(m)[k].extents)
    {
      assert InodeOk(m.geo, m.disk, Inodes(m), k);
    }
    ReplaceInode(m.geo, Inodes(m), m.blockBitmap, n, inode, m'.blockBitmap);
  }

  // ---------------------------------------------------------------- a planned write

  /** What a write is about to install: inode `number` goes from `prior` to `inode`. */
  datatype Plan = Plan(number: nat, prior: Inode, inode: Inode, allocation: seq<Extent>, retired: seq<Extent>)

  /** The blocks handed out are new to the volume. */
  ghost predicate Fresh(m: Mem, taken: seq<nat>) {
    && Distinct(taken)
    && forall b :: b in taken ==> m.geo.dataStart <= b < m.geo.backupBlock && b < |m.blockBitmap| && !m.blockBitmap[b]
  }

  /** The extent lists of the plan name the right blocks. */
  ghost predicate Spliced(req: Request, p: Plan) {
    var blocks := Blocks(p.prior.extents);
    var r := Replaced(req, p.prior.size);
    && Acceptable(req, p.prior.size)
    && |blocks| == CeilDiv(p.prior.size, BLOCK_SIZE)
    && |Blocks(p.allocation)| == r.end - r.first
    && r.first <= |Kept(req, blocks)|
    && Blocks(p.inode.extents) == NewBlocks(Kept(req, blocks), Blocks(p.allocation), r)
    && Blocks(p.retired) == Retired(req, blocks, r)
    && |p.inode.extents| <= INLINE_EXTENTS && Chained(p.inode.extents, 0)
    && p.inode.kind.Regular? && p.inode.size == req.finalSize
  }

  ghost predicate Planned(m: Mem, req: Request, p: Plan) {
    && 0 < p.number <= m.geo.inodeCount
    && (if p.number in Inodes(m) then Inodes(m)[p.number] == p.prior && p.prior.kind.Regular?
        else p.prior.extents == [] && p.prior.size == 0 && !req.preserve)
    && Spliced(req, p)
    && Fresh(m, Blocks(p.allocation))
  }

  lemma PriorOwned(m: Mem, req: Request, p: Plan)
    requires Vol(m) && Planned(m, req, p)
    ensures OldBlocks(Inodes(m), p.number) == Blocks(p.prior.extents)
    ensures Distinct(Blocks(p.prior.extents))
    ensures forall b :: b in Blocks(p.prior.extents) ==>
      m.geo.dataStart <= b < m.geo.backupBlock && b < |m.blockBitmap| && m.blockBitmap[b] && b < |m.disk|
    ensures p.number in Inodes(m) ==> FileOk(m.disk, p.prior)
  {
    hide LiveInodes, TableOk, FreeList, GeometryOk;
    if p.number in Inodes(m) {
      assert InodeOk(m.geo, m.disk, Inodes(m), p.number);
      forall b | b in Blocks(p.prior.extents)
        ensures m.blockBitmap[b]
      {
        assert Owns(Inodes(m), p.number, b);
      }
    }
  }

  /** Where block `b` of the new file comes from: it is fresh, or it was kept. */
  lemma {:induction false} NewBlockSource(prior: seq<nat>, taken: seq<nat>, r: Range, i: nat)
    requires r.first <= r.end && r.first <= |prior| && |taken| == r.end - r.first
    requires i < |NewBlocks(prior, taken, r)|
    ensures NewBlocks(prior, taken, r)[i] ==
      if r.first <= i < r.end then taken[i - r.first] else if i < |prior| then prior[i] else 0
    ensures i < r.first || r.end <= i ==> i < |prior|
  {
  }

  lemma NewBlocksDistinct(prior: seq<nat>, taken: seq<nat>, r: Range)
    requires r.first <= r.end && r.first <= |prior| && |taken| == r.end - r.first
    requires Distinct(prior) && Distinct(taken) && forall b :: b in taken ==> b !in prior
    ensures Distinct(NewBlocks(prior, taken, r))
  {
    hide NewBlocks;
    var all := NewBlocks(prior, taken, r);
    forall i, j | 0 <= i < j < |all|
      ensures all[i] != all[j]
    {
      NewBlockSource(prior, taken, r, i);
      NewBlockSource(prior, taken, r, j);
      if r.first <= i < r.end {
        assert all[i] in taken;
      }
      if r.first <= j < r.end {
        assert all[j] in taken;
      }
    }
  }

  /** Membership: the new file has the fresh blocks and the kept ones; the retired ones are the rest. */
  lemma NewBlocksMembers(req: Request, oldSize: nat, prior: seq<nat>, taken: seq<nat>, b: nat)
    requires Acceptable(req, oldSize) && |prior| == CeilDiv(oldSize, BLOCK_SIZE) && Distinct(prior)
    requires var r := Replaced(req, oldSize); |taken| == r.end - r.first && r.first <= |Kept(req, prior)|
    ensures var r := Replaced(req, oldSize);
      b in NewBlocks(Kept(req, prior), taken, r) <==> b in taken || (b in prior && b !in Retired(req, prior, r))
    ensures var r := Replaced(req, oldSize); b in Retired(req, prior, r) ==> b in prior
  {
    var r := Replaced(req, oldSize);
    hide RmfsPatch.Replaced, Acceptable, CeilDiv, Distinct;
    var kept := Kept(req, prior);
    assert b in NewBlocks(kept, taken, r) <==> b in Slice(kept, 0, r.first) || b in taken || b in Slice(kept, r.end, |kept|);
    if req.preserve {
      var cut := if r.end < |prior| then r.end else |prior|;
      CutOut(prior, r.first, cut, b);
      assert Slice(prior, 0, r.first) == prior[..r.first];
      assert Slice(prior, r.first, cut) == prior[r.first..cut];
      assert Slice(prior, r.end, |prior|) == prior[cut..];
    }
  }

  lemma CutOut(s: seq<nat>, first: nat, cut: nat, b: nat)
    requires first <= cut <= |s| && Distinct(s)
    ensures b in s[..first] || b in s[cut..] <==> b in s && b !in s[first..cut]
    ensures b in s[first..cut] ==> b in s
  {
    assert s == s[..first] + s[first..cut] + s[cut..];
  }

  /** The block bitmap once the fresh blocks are taken and the retired ones returned. */
  function Moved(bits: seq<bool>, p: Plan): seq<bool> {
    Marked(Marked(bits, Blocks(p.allocation), true), Blocks(p.retired), false)
  }

  lemma MovedBits(m: Mem, req: Request, p: Plan)
    requires Vol(m) && Planned(m, req, p)
    ensures BitsMoved(m.geo, m.blockBitmap, Moved(m.blockBitmap, p), OldBlocks(Inodes(m), p.number), Blocks(p.inode.extents))
    ensures Distinct(Blocks(p.inode.extents))
    ensures forall b :: b in Blocks(p.inode.extents) ==>
      && m.geo.dataStart <= b < m.geo.backupBlock && b < |m.blockBitmap|
      && (b in OldBlocks(Inodes(m), p.number) || !m.blockBitmap[b])
  {
    hide LiveInodes, Blocks, Vol, NewBlocks, Retired, Replaced, Acceptable, Marked;
    PriorOwned(m, req, p);
    var blocks := Blocks(p.prior.extents);
    var taken := Blocks(p.allocation);
    var r := Replaced(req, p.prior.size);
    RangeIsOrdered(req, p.prior.size);
    assert Distinct(Blocks(p.inode.extents)) by {
      NewBlocksDistinct(Kept(req, blocks), taken, r);
    }
    forall b: nat
      ensures b in Blocks(p.inode.extents) <==> b in taken || (b in blocks && b !in Blocks(p.retired))
      ensures b in Blocks(p.retired) ==> b in blocks
    {
      NewBlocksMembers(req, p.prior.size, blocks, taken, b);
    }
  }

  lemma RangeIsOrdered(req: Request, oldSize: nat)
    requires Acceptable(req, oldSize)
    ensures Replaced(req, oldSize).first <= Replaced(req, oldSize).end
  {
  }

  /** Taking and returning blocks moves the count of clear bits by as many. */
  lemma MovedCount(m: Mem, req: Request, p: Plan)
    requires Vol(m) && Planned(m, req, p)
    ensures m.geo.dataStart <= m.geo.backupBlock < |m.blockBitmap|
    ensures |FreeList(Moved(m.blockBitmap, p), m.geo.dataStart, m.geo.backupBlock)|
         == m.freeBlocks + |Blocks(p.retired)| - |Blocks(p.allocation)|
  {
    hide LiveInodes, Blocks, FreeList, NewBlocks, Replaced, Acceptable, TableOk, InodeOk, OwnedOnce;
    PriorOwned(m, req, p);
    var taken, retired := Blocks(p.allocation), Blocks(p.retired);
    var blocks := Blocks(p.prior.extents);
    var mid := Marked(m.blockBitmap, taken, true);
    RetiredIsPart(req, blocks, Replaced(req, p.prior.size));
    assert forall i :: 0 <= i < |taken| ==> taken[i] in taken;
    FlipMany(m.blockBitmap, m.geo.dataStart, m.geo.backupBlock, taken, |taken|, true);
    assert taken[..|taken|] == taken;
    assert forall i :: 0 <= i < |retired| ==> retired[i] in retired;
    FlipMany(mid, m.geo.dataStart, m.geo.backupBlock, retired, |retired|, false);
    assert retired[..|retired|] == retired;
  }

  lemma RetiredIsPart(req: Request, prior: seq<nat>, r: Range)
    requires Distinct(prior)
    ensures Distinct(Retired(req, prior, r))
    ensures forall b :: b in Retired(req, prior, r) ==> b in prior
  {
  }

  /** The replaced blocks hold their images and no other block of the data area changed. */
  ghost predicate ImagesStored(m: Mem, disk': seq<Block>, req: Request, p: Plan) {
    var blocks := Blocks(p.inode.extents);
    var r := Replaced(req, p.prior.size);
    && |disk'| == |m.disk|
    && (forall i :: 0 <= i < |blocks| && r.first <= i < r.end && blocks[i] < |disk'| ==>
         disk'[blocks[i]] == Data(BlockImage(req, p.prior.size, OldBlock(m.disk, Kept(req, Blocks(p.prior.extents)), i), i)))
    && (forall b :: m.geo.dataStart <= b < m.geo.backupBlock && b < |m.disk| && b !in Blocks(p.allocation) ==>
         disk'[b] == m.disk[b])
  }

  /** What one block of the file holds afterwards. */
  lemma StoredBlock(m: Mem, disk': seq<Block>, req: Request, p: Plan, i: nat)
    requires Vol(m) && Planned(m, req, p) && ImagesStored(m, disk', req, p)
    requires i < |Blocks(p.inode.extents)|
    ensures StoredAt(m.disk, disk', req, p.prior.size, Kept(req, Blocks(p.prior.extents)), Blocks(p.inode.extents)[i], i)
    ensures disk'[Blocks(p.inode.extents)[i]].Data? && |disk'[Blocks(p.inode.extents)[i]].bytes| == BLOCK_SIZE
  {
    hide LiveInodes, Blocks, Vol, NewBlocks, BlockImage, OldBlock, Retired, Acceptable, Replaced;
    PriorOwned(m, req, p);
    MovedBits(m, req, p);
    VolSizes(m);
    var prior, blocks, taken := Kept(req, Blocks(p.prior.extents)), Blocks(p.inode.extents), Blocks(p.allocation);
    var r := Replaced(req, p.prior.size);
    RangeIsOrdered(req, p.prior.size);
    NewBlockCount(req, p.prior.size, Blocks(p.prior.extents), taken);
    assert blocks[i] in blocks;
    NewBlockSource(prior, taken, r, i);
    if i < r.first || r.end <= i {
      assert prior[i] in prior;
    } else {
      assert |BlockImage(req, p.prior.size, OldBlock(m.disk, prior, i), i)| == BLOCK_SIZE;
    }
  }

  lemma StoredOnDisk(m: Mem, disk': seq<Block>, req: Request, p: Plan)
    requires Vol(m) && Planned(m, req, p) && ImagesStored(m, disk', req, p)
    ensures Stored(m.disk, disk', req, p.prior.size, Kept(req, Blocks(p.prior.extents)), Blocks(p.inode.extents))
    ensures |Blocks(p.inode.extents)| == CeilDiv(req.finalSize, BLOCK_SIZE)
    ensures FileOk(disk', p.inode)
  {
    hide LiveInodes, Blocks, Vol, NewBlocks, Retired, Acceptable, Replaced, Inodes, Fresh, Kept;
    var taken := Blocks(p.allocation);
    PriorOwned(m, req, p);
    NewBlockCount(req, p.prior.size, Blocks(p.prior.extents), taken);
    assert |Blocks(p.inode.extents)| == CeilDiv(req.finalSize, BLOCK_SIZE) by { MovedBits(m, req, p); }
    forall i | 0 <= i < |Blocks(p.inode.extents)|
      ensures StoredAt(m.disk, disk', req, p.prior.size, Kept(req, Blocks(p.prior.extents)), Blocks(p.inode.extents)[i], i)
      ensures Blocks(p.inode.extents)[i] < |disk'|
      ensures disk'[Blocks(p.inode.extents)[i]].Data? && |disk'[Blocks(p.inode.extents)[i]].bytes| == BLOCK_SIZE
    {
      StoredBlock(m, disk', req, p, i);
    }
  }

  lemma VolSizes(m: Mem)
    requires Vol(m)
    ensures GeometryOk(m.geo) && m.geo.totalBlocks <= |m.disk|
    ensures m.geo.totalBlocks <= |m.blockBitmap| && m.geo.inodeCount <= |m.inodeBitmap|
  {
  }

  /** What the written file holds. */
  lemma WrittenBytes(m: Mem, disk': seq<Block>, req: Request, p: Plan)
    requires Vol(m) && Planned(m, req, p) && ImagesStored(m, disk', req, p) && p.inode.size == req.finalSize
    ensures Bytes(FileBytes(disk', p.inode), Slack(disk', p.inode)) == Rewritten(FileBytes(m.disk, p.prior), Slack(m.disk, p.prior), req)
  {
    hide LiveInodes, Blocks, Vol, Planned, ImagesStored, Stored, FileOk, Replaced, NewByte, FileByte, Acceptable, CeilDiv;
    StoredOnDisk(m, disk', req, p);
    assert Spliced(req, p) by { PlannedIsSpliced(m, req, p); }
    var after := Blocks(p.inode.extents);
    var r := Rewritten(FileBytes(m.disk, p.prior), Slack(m.disk, p.prior), req);
    forall i | 0 <= i < |after| * BLOCK_SIZE
      ensures FileByte(disk', after, i) == NewByte(FileBytes(m.disk, p.prior), Slack(m.disk, p.prior), req, i)
    {
      ByteReadsBack(m.disk, disk', req, p.prior, after, i);
    }
    assert FileBytes(disk', p.inode) == r.bytes;
    assert Slack(disk', p.inode) == r.slack;
  }

  lemma PlannedIsSpliced(m: Mem, req: Request, p: Plan)
    requires Planned(m, req, p)
    ensures Spliced(req, p)
  {
  }

  // ---------------------------------------------------------------- the file step

  /** The volume after a file write: everything but directories. */
  ghost predicate FileWritten(m: Mem, m': Mem, req: Request, p: Plan) {
    && 0 < p.number <= |m.inodeBitmap|
    && m'.geo == m.geo
    && m'.inodeBitmap == m.inodeBitmap[p.number - 1 := true]
    && m'.blockBitmap == Moved(m.blockBitmap, p)
    && m'.freeBlocks == m.freeBlocks + |Blocks(p.retired)| - |Blocks(p.allocation)|
    && m'.freeInodes == m.freeInodes - (if p.number in Inodes(m) then 0 else 1)
    && RecordWritten(m.geo, m.disk, m'.disk, p.number, p.inode)
    && ImagesStored(m, m'.disk, req, p)
  }

  lemma FileInstalled(m: Mem, m': Mem, req: Request, p: Plan)
    requires Vol(m) && Planned(m, req, p) && FileWritten(m, m', req, p)
    ensures Vol(m') && Inodes(m') == Inodes(m)[p.number := p.inode]
    ensures Nodes(m'.disk, Inodes(m')) == Nodes(m.disk, Inodes(m))[p.number := NodeOf(m'.disk, p.inode)]
  {
    hide LiveInodes, Blocks, Vol, Nodes, NodeOf, FreeList, Distinct, BitsMoved, OldBlocks, FileOk, Moved, Spliced, RecordWritten;
    MovedBits(m, req, p);
    MovedCount(m, req, p);
    StoredOnDisk(m, m'.disk, req, p);
    VolSizes(m);
    InodeCount(m, p.number);
    OthersKept(m, m'.disk, req, p);
    FileInodeOk(m, m'.disk, req, p);
    assert Installed(m, m', p.number, p.inode) by { MovedLength(m.blockBitmap, p); }
    Install(m, m', p.number, p.inode);
  }

  lemma MovedLength(bits: seq<bool>, p: Plan)
    ensures |Moved(bits, p)| == |bits|
  {
  }

  lemma InodeCount(m: Mem, n: nat)
    requires Vol(m) && 0 < n <= m.geo.inodeCount
    ensures n <= |m.inodeBitmap|
    ensures |FreeList(m.inodeBitmap[n - 1 := true], 0, m.geo.inodeCount)| == m.freeInodes - (if n in Inodes(m) then 0 else 1)
  {
    hide LiveInodes, FreeList, OwnedOnce, BitsMatch, InodeOk;
    FlipOne(m.inodeBitmap, 0, m.geo.inodeCount, n - 1, true);
    assert n in Inodes(m) <==> m.inodeBitmap[n - 1];
  }

  /** Blocks of other inodes are not among the fresh ones. */
  lemma OthersKept(m: Mem, disk': seq<Block>, req: Request, p: Plan)
    requires Vol(m) && Planned(m, req, p) && ImagesStored(m, disk', req, p)
    ensures forall k: nat, b: nat :: k != p.number && Owns(Inodes(m), k, b) && b < |m.disk| ==> disk'[b] == m.disk[b]
  {
    hide LiveInodes, Blocks, Consistent, Spliced, Distinct, Replaced;
    forall k: nat, b: nat | k != p.number && Owns(Inodes(m), k, b) && b < |m.disk|
      ensures disk'[b] == m.disk[b]
    {
      OwnedInArea(m, k, b);
    }
  }

  lemma FileInodeOk(m: Mem, disk': seq<Block>, req: Request, p: Plan)
    requires Vol(m) && Planned(m, req, p) && ImagesStored(m, disk', req, p)
    ensures InodeOk(m.geo, disk', Inodes(m)[p.number := p.inode], p.number)
    ensures p.number in Inodes(m) ==> Inodes(m)[p.number].kind == p.inode.kind
  {
    hide LiveInodes, Blocks, Vol, FileOk, ImagesStored, NewBlocks, Retired, Acceptable, Replaced;
    StoredOnDisk(m, disk', req, p);
    MovedBits(m, req, p);
  }

  // ---------------------------------------------------------------- the directory step

  /** Directory slots with an entry put into slot `k`, which may be one past the end. */
  function Linked(slots: seq<Dirent>, k: nat, entry: Dirent): seq<Dirent>
    requires k <= |slots|
  {
    if k < |slots| then slots[k := entry] else slots + [entry]
  }

  /** `disk'` is `disk` with `entry` in slot `k` of the directory that owns `blocks`. */
  ghost predicate EntryWritten(disk: seq<Block>, disk': seq<Block>, blocks: seq<nat>, k: nat, entry: Dirent) {
    && k / SLOTS_PER_BLOCK < |blocks|
    && var b := blocks[k / SLOTS_PER_BLOCK];
    && b < |disk| && disk[b].Entries? && |disk[b].entries| == SLOTS_PER_BLOCK
    && disk' == disk[b := Entries(disk[b].entries[k % SLOTS_PER_BLOCK := entry])]
  }

  lemma OneSlotChanged(disk: seq<Block>, disk': seq<Block>, blocks: seq<nat>, k: nat, entry: Dirent, j: nat)
    requires EntryWritten(disk, disk', blocks, k, entry) && Distinct(blocks) && j / SLOTS_PER_BLOCK < |blocks|
    ensures DirSlot(disk', blocks, j) == if j == k then entry else DirSlot(disk, blocks, j)
  {
    assert j != k ==> j / SLOTS_PER_BLOCK != k / SLOTS_PER_BLOCK || j % SLOTS_PER_BLOCK != k % SLOTS_PER_BLOCK;
  }

  /** A directory that grew by at most one block still has its slots. */
  ghost predicate GrownFrom(disk: seq<Block>, before: Inode, dir: Inode, k: nat) {
    && before.kind.Directory? && dir.kind.Directory? && before.size % DIRENT_SIZE == 0
    && Blocks(before.extents) <= Blocks(dir.extents)
    && dir.size == (if before.size < (k + 1) * DIRENT_SIZE then (k + 1) * DIRENT_SIZE else before.size)
    && k <= before.size / DIRENT_SIZE
    && before.size <= |Blocks(before.extents)| * BLOCK_SIZE
    && dir.size <= |Blocks(dir.extents)| * BLOCK_SIZE
    && forall b :: b in Blocks(dir.extents) ==> b < |disk| && disk[b].Entries? && |disk[b].entries| == SLOTS_PER_BLOCK
  }

  lemma EntryAdded(disk: seq<Block>, disk': seq<Block>, before: Inode, dir: Inode, k: nat, entry: Dirent)
    requires GrownFrom(disk, before, dir, k) && Distinct(Blocks(dir.extents))
    requires EntryWritten(disk, disk', Blocks(dir.extents), k, entry)
    ensures k <= |DirSlots(disk, before)|
    ensures DirSlots(disk', dir) == Linked(DirSlots(disk, before), k, entry)
    ensures forall b :: b in Blocks(dir.extents) ==> b < |disk'| && disk'[b].Entries? && |disk'[b].entries| == SLOTS_PER_BLOCK
  {
    hide Blocks, Distinct, DirSlot;
    var blocks, prior := Blocks(dir.extents), Blocks(before.extents);
    var slots, slots' := DirSlots(disk, before), DirSlots(disk', dir);
    forall j | 0 <= j < |slots'|
      ensures slots'[j] == Linked(slots, k, entry)[j]
    {
      OneSlotChanged(disk, disk', blocks, k, entry, j);
      if j < |slots| {
        assert DirSlot(disk, blocks, j) == DirSlot(disk, prior, j) by { SameSlot(disk, blocks, prior, j); }
      }
    }
  }

  lemma SameSlot(disk: seq<Block>, blocks: seq<nat>, prior: seq<nat>, j: nat)
    requires prior <= blocks && j / SLOTS_PER_BLOCK < |prior|
    ensures DirSlot(disk, blocks, j) == DirSlot(disk, prior, j)
  {
  }

  /** A new entry for inode `n` goes into slot `k` of directory `d`, whose inode becomes `dir`,
      grown by the blocks `more`. */
  datatype Link = Link(d: nat, dir: Inode, more: seq<nat>, k: nat, n: nat, name: Name)

  ghost predicate Linkable(m: Mem, l: Link) {
    && l.d in Inodes(m) && l.n in Inodes(m)
    && var before := Inodes(m)[l.d];
    && GrownFrom(m.disk, before, l.dir, l.k)
    && Blocks(l.dir.extents) == Blocks(before.extents) + l.more
    && |l.dir.extents| <= INLINE_EXTENTS && Chained(l.dir.extents, 0)
    && |l.more| <= 1 && Fresh(m, l.more)
  }

  /** The volume after the entry has been written. */
  ghost predicate EntryStored(m: Mem, m': Mem, mid: seq<Block>, l: Link) {
    && l.d > 0
    && EntryWritten(m.disk, mid, Blocks(l.dir.extents), l.k, Entry(l.n, l.name))
    && RecordWritten(m.geo, mid, m'.disk, l.d, l.dir)
    && (forall b :: 0 <= b < |mid| && !(m.geo.inodeTableStart <= b < m.geo.dataStart) ==> m'.disk[b] == mid[b])
    && m'.geo == m.geo && m'.inodeBitmap == m.inodeBitmap && m'.freeInodes == m.freeInodes
    && m'.blockBitmap == Marked(m.blockBitmap, l.more, true)
    && m'.freeBlocks == m.freeBlocks - |l.more|
  }

  lemma LinkInstalled(m: Mem, m': Mem, mid: seq<Block>, l: Link)
    requires Vol(m) && Linkable(m, l) && EntryStored(m, m', mid, l)
    ensures Vol(m') && Inodes(m') == Inodes(m)[l.d := l.dir]
    ensures l.k <= |DirSlots(m.disk, Inodes(m)[l.d])|
    ensures DirSlots(m'.disk, l.dir) == Linked(DirSlots(m.disk, Inodes(m)[l.d]), l.k, Entry(l.n, l.name))
    ensures Nodes(m'.disk, Inodes(m')) == Nodes(m.disk, Inodes(m))[l.d := NodeOf(m'.disk, l.dir)]
  {
    hide LiveInodes, Blocks, Vol, Nodes, NodeOf, FreeList, Distinct, BitsMoved, GrownFrom, EntryWritten, DirSlots, InodeOk, Fresh, OldBlocks, RecordWritten;
    GrownBits(m, l);
    LinkCount(m, l);
    LinkDisk(m, m', mid, l);
    LinkInodeOk(m, m', mid, l);
    Install(m, m', l.d, l.dir);
  }

  lemma GrownBits(m: Mem, l: Link)
    requires Vol(m) && Linkable(m, l)
    ensures BitsMoved(m.geo, m.blockBitmap, Marked(m.blockBitmap, l.more, true), OldBlocks(Inodes(m), l.d), Blocks(l.dir.extents))
    ensures Distinct(Blocks(l.dir.extents)) && InArea(m.geo, l.dir.extents)
    ensures forall b :: b in Blocks(l.dir.extents) ==>
      b in OldBlocks(Inodes(m), l.d) || (b < |m.blockBitmap| && !m.blockBitmap[b])
  {
    hide LiveInodes, TableOk, FreeList, GeometryOk, BlocksOf, ChainedOf, GrownFrom, Marked;
    assert InodeOk(m.geo, m.disk, Inodes(m), l.d);
    forall b | b in Blocks(Inodes(m)[l.d].extents)
      ensures m.geo.dataStart <= b < m.geo.backupBlock && m.blockBitmap[b]
    {
      assert Owns(Inodes(m), l.d, b);
    }
    assert forall i :: 0 <= i < |l.more| ==> l.more[i] in l.more;
    assert forall i :: 0 <= i < |Blocks(Inodes(m)[l.d].extents)| ==> Blocks(Inodes(m)[l.d].extents)[i] in Blocks(Inodes(m)[l.d].extents);
  }

  lemma LinkCount(m: Mem, l: Link)
    requires Vol(m) && Linkable(m, l)
    ensures 0 < l.d <= m.geo.inodeCount <= |m.inodeBitmap| && m.inodeBitmap[l.d - 1 := true] == m.inodeBitmap
    ensures m.geo.dataStart <= m.geo.backupBlock < |m.blockBitmap|
    ensures |FreeList(Marked(m.blockBitmap, l.more, true), m.geo.dataStart, m.geo.backupBlock)| == m.freeBlocks - |l.more|
    ensures m.freeInodes == |FreeList(m.inodeBitmap, 0, m.geo.inodeCount)|
  {
    hide FreeList, Blocks, TableOk, InodeOk, OwnedOnce, GrownFrom, BlocksOf;
    assert forall i :: 0 <= i < |l.more| ==> l.more[i] in l.more;
    FlipMany(m.blockBitmap, m.geo.dataStart, m.geo.backupBlock, l.more, |l.more|, true);
    assert l.more[..|l.more|] == l.more;
  }

  /** Writing the entry and the record changes no block of another inode. */
  lemma LinkDisk(m: Mem, m': Mem, mid: seq<Block>, l: Link)
    requires Vol(m) && Linkable(m, l) && EntryStored(m, m', mid, l)
    ensures RecordWritten(m.geo, m.disk, m'.disk, l.d, l.dir)
    ensures forall k: nat, b: nat :: k != l.d && Owns(Inodes(m), k, b) && b < |m.disk| ==> m'.disk[b] == m.disk[b]
    ensures forall b :: b in Blocks(l.dir.extents) ==> b < |m'.disk| && m'.disk[b] == mid[b]
    ensures |m'.disk| == |m.disk| == |mid|
  {
    hide Inodes, Blocks, Consistent, Fresh, Distinct, GrownFrom, TableOk, BitsMoved, Marked, GeometryOk;
    GrownBits(m, l);
    VolSizes(m);
    var blocks := Blocks(l.dir.extents);
    var slot := blocks[l.k / SLOTS_PER_BLOCK];
    assert slot in blocks;
    forall k: nat, b: nat | k != l.d && Owns(Inodes(m), k, b) && b < |m.disk|
      ensures m'.disk[b] == m.disk[b]
    {
      OwnedInArea(m, k, b);
      if b == slot {
        NotBoth(m, l, k, b);
      }
    }
  }

  lemma NotBoth(m: Mem, l: Link, k: nat, b: nat)
    requires Vol(m) && Linkable(m, l) && k != l.d && Owns(Inodes(m), k, b)
    ensures b !in Blocks(l.dir.extents)
  {
    hide LiveInodes, Blocks, GrownFrom, Distinct, Consistent;
    OwnedInArea(m, k, b);
    OwnedAlone(m, k, l.d, b);
  }

  lemma OwnedAlone(m: Mem, k: nat, n: nat, b: nat)
    requires Vol(m) && k != n && Owns(Inodes(m), k, b)
    ensures !Owns(Inodes(m), n, b)
  {
    hide LiveInodes, Blocks, FreeList;
  }

  lemma LinkInodeOk(m: Mem, m': Mem, mid: seq<Block>, l: Link)
    requires Vol(m) && Linkable(m, l) && EntryStored(m, m', mid, l)
    ensures InodeOk(m.geo, m'.disk, Inodes(m)[l.d := l.dir], l.d)
    ensures Inodes(m)[l.d].kind == l.dir.kind
    ensures l.k <= |DirSlots(m.disk, Inodes(m)[l.d])|
    ensures DirSlots(m'.disk, l.dir) == Linked(DirSlots(m.disk, Inodes(m)[l.d]), l.k, Entry(l.n, l.name))
  {
    hide LiveInodes, Blocks, Vol, Distinct, EntryWritten, DirSlot, NodeOf, RecordWritten;
    var inodes := Inodes(m);
    GrownBits(m, l);
    LinkDisk(m, m', mid, l);
    EntryAdded(m.disk, mid, inodes[l.d], l.dir, l.k, Entry(l.n, l.name));
    assert DirSlots(m'.disk, l.dir) == DirSlots(mid, l.dir) by { SameDirectory(mid, m'.disk, l.dir); }
    VolDirectory(m, l.d);
    LinkedOk(inodes, DirSlots(m.disk, inodes[l.d]), l.k, l.n, l.name, l.d, l.dir);
    assert forall j :: 0 <= j < l.dir.size / DIRENT_SIZE ==>
      DirSlots(m'.disk, l.dir)[j] == DirSlot(m'.disk, Blocks(l.dir.extents), j);
  }

  lemma SameDirectory(disk: seq<Block>, disk': seq<Block>, dir: Inode)
    requires |disk'| == |disk| && forall b :: b in Blocks(dir.extents) ==> b < |disk| && disk'[b] == disk[b]
    ensures DirSlots(disk', dir) == DirSlots(disk, dir)
  {
    hide Blocks;
    var blocks := Blocks(dir.extents);
    assert forall i :: 0 <= i < |blocks| ==> blocks[i] in blocks;
  }

  lemma VolDirectory(m: Mem, d: nat)
    requires Vol(m) && d in Inodes(m) && Inodes(m)[d].kind.Directory?
    ensures var slots := DirSlots(m.disk, Inodes(m)[d]);
      forall j :: 0 <= j < |slots| ==> slots[j] != Broken && (slots[j].Entry? ==> slots[j].inode in Inodes(m))
  {
    hide LiveInodes, Blocks;
    assert InodeOk(m.geo, m.disk, Inodes(m), d);
  }

  lemma LinkedOk(inodes: map<nat, Inode>, slots: seq<Dirent>, k: nat, n: nat, name: Name, d: nat, dir: Inode)
    requires k <= |slots| && n in inodes
    requires forall j :: 0 <= j < |slots| ==> slots[j] != Broken && (slots[j].Entry? ==> slots[j].inode in inodes)
    ensures var after := Linked(slots, k, Entry(n, name));
      forall j :: 0 <= j < |after| ==> after[j] != Broken && (after[j].Entry? ==> after[j].inode in inodes[d := dir])
  {
  }

  // ---------------------------------------------------------------- from volume to mounted state

  /** Writing a free block changes nothing the volume says. */
  lemma FreeWrite(m: Mem, b: nat, data: Block)
    requires Sound(m) && m.geo.dataStart <= b < m.geo.backupBlock && b < |m.blockBitmap| && !m.blockBitmap[b]
    ensures b < |m.disk|
    ensures var m' := m.(disk := m.disk[b := data]); Sound(m') && Logical(m') == Logical(m) && Inodes(m') == Inodes(m)
  {
    hide LiveInodes, Nodes, Consistent, CachedSet, CacheOk, WroteThrough, Chunk;
    ConsistentGeometry(m);
    var m' := m.(disk := m.disk[b := data]);
    forall n: nat, x: nat | Owns(Inodes(m), n, x)
      ensures x != b
    {
      OwnedInArea(m, n, x);
    }
    FrameConsistent(m, m'.disk);
    FreshNotCached(m, b);
    UncachedWriteKeeps(m.cache, m.disk, m.groupActive, b, data);
    forall x | x in CachedSet(m'.cache)
      ensures IsMetadata(m', x)
    {
      assert IsMetadata(m, x);
    }
  }

  lemma FreshNotCached(m: Mem, b: nat)
    requires Sound(m) && m.geo.dataStart <= b < m.geo.backupBlock && b < |m.blockBitmap| && !m.blockBitmap[b]
    ensures b !in CachedSet(m.cache)
  {
    hide LiveInodes, Consistent, CachedSet;
    if b in CachedSet(m.cache) {
      assert IsMetadata(m, b);
      var n :| Owns(Inodes(m), n, b) && Inodes(m)[n].kind.Directory?;
      OwnedInArea(m, n, b);
    }
  }

  /** Bitmap blocks whose bits changed are marked dirty, so the rest is still on disk. */
  lemma StaysSynced(disk: seq<Block>, disk': seq<Block>, start: nat, n: nat,
                    bits: seq<bool>, bits': seq<bool>, dirty: seq<bool>, dirty': seq<bool>)
    requires Synced(disk, start, n, bits, dirty)
    requires |disk'| == |disk| && |bits'| == |bits| && |dirty'| == |dirty|
    requires forall b :: start <= b < start + n ==> disk'[b] == disk[b]
    requires forall i :: 0 <= i < n && dirty[i] ==> dirty'[i]
    requires forall b :: 0 <= b < |bits| && bits'[b] != bits[b] ==> dirty'[b / BITS_PER_BLOCK]
    ensures Synced(disk', start, n, bits', dirty')
  {
    forall i | 0 <= i < n && !dirty'[i]
      ensures disk'[start + i] == Bits(Chunk(bits', i))
    {
      assert disk[start + i] == Bits(Chunk(bits, i));
      forall j | i * BITS_PER_BLOCK <= j < (i + 1) * BITS_PER_BLOCK
        ensures bits'[j] == bits[j]
      {
        assert j / BITS_PER_BLOCK == i;
      }
      assert Chunk(bits', i) == Chunk(bits, i);
    }
  }

  /** Directories keep their blocks from `m` to `m'`. */
  ghost predicate DirectoriesGrow(m: Mem, m': Mem) {
    forall n :: n in Inodes(m) && Inodes(m)[n].kind.Directory? ==>
      && n in Inodes(m') && Inodes(m')[n].kind.Directory?
      && Blocks(Inodes(m)[n].extents) <= Blocks(Inodes(m')[n].extents)
  }

  lemma MetadataStays(m: Mem, m': Mem, b: nat)
    requires m'.geo == m.geo && DirectoriesGrow(m, m') && IsMetadata(m, b)
    ensures IsMetadata(m', b)
  {
    hide LiveInodes, Blocks;
    if !(m.geo.inodeTableStart <= b < m.geo.dataStart) {
      var n :| Owns(Inodes(m), n, b) && Inodes(m)[n].kind.Directory?;
      assert Owns(Inodes(m'), n, b);
    }
  }

  /** A consistent volume with a mirroring cache, synced bitmaps and the superblocks of `m` is sound. */
  lemma Settled(m: Mem, m': Mem, more: set<nat>)
    requires Sound(m) && m.groupActive && m'.groupActive && Vol(m') && m'.geo == m.geo
    requires CacheOk(m'.cache, m'.disk, true) && WroteThrough(m'.cache, m'.disk)
    requires CachedSet(m'.cache) <= CachedSet(m.cache) + more
    requires DirectoriesGrow(m, m') && forall b :: b in more ==> IsMetadata(m', b)
    requires BitmapsSynced(m')
    requires |m'.disk| == |m.disk| && m'.disk[0] == m.disk[0]
    requires m.geo.backupBlock < |m.disk| && m'.disk[m.geo.backupBlock] == m.disk[m.geo.backupBlock]
    ensures Sound(m')
  {
    hide LiveInodes, Consistent, CachedSet, CacheOk, WroteThrough, IsMetadata, DirectoriesGrow, BitmapsSynced;
    forall x | x in CachedSet(m'.cache)
      ensures IsMetadata(m', x)
    {
      if x !in more {
        MetadataStays(m, m', x);
      }
    }
  }

  // ---------------------------------------------------------------- reserving

  /** The list with logical blocks `first..end` replaced by the allocated ones. */
  method SpliceInto(xs: seq<Extent>, allocation: seq<Extent>, first: nat, end: nat)
    returns (ok: bool, ys: seq<Extent>)
    requires Chained(xs, 0) && Chained(allocation, 0)
    requires first <= |Blocks(xs)| && first <= end && |Blocks(allocation)| == end - first
    ensures ok ==> Blocks(ys) == Slice(Blocks(xs), 0, first) + Blocks(allocation) + Slice(Blocks(xs), end, |Blocks(xs)|)
    ensures ok ==> |ys| <= INLINE_EXTENTS && Chained(ys, 0)
  {
    hide Blocks, ChainedOf, Chained;
    NoBlocks();
    var total := BlockCount(xs);
    ok, ys := AppendInodeRange([], xs, 0, first, 0);
    if !ok {
      return;
    }
    ConcatIsAssociative([], Slice(Blocks(xs), 0, first), []);
    ok, ys := AppendAllocated(ys, allocation, first, 0);
    if !ok {
      return;
    }
    ok, ys := AppendInodeRange(ys, xs, end, total, 0);
  }

  /** The extent lists a write needs, once its blocks are allocated. */
  method Splice(req: Request, prior: Inode, allocation: seq<Extent>)
    returns (ok: bool, extents: seq<Extent>, retired: seq<Extent>)
    requires Acceptable(req, prior.size) && |Blocks(prior.extents)| == CeilDiv(prior.size, BLOCK_SIZE)
    requires Chained(prior.extents, 0) && Chained(allocation, 0)
    requires |Blocks(allocation)| == Replaced(req, prior.size).end - Replaced(req, prior.size).first
    ensures ok ==> Replaced(req, prior.size).first <= |Kept(req, Blocks(prior.extents))|
    ensures ok ==> Blocks(extents) == NewBlocks(Kept(req, Blocks(prior.extents)), Blocks(allocation), Replaced(req, prior.size))
    ensures ok ==> Blocks(retired) == Retired(req, Blocks(prior.extents), Replaced(req, prior.size))
    ensures ok ==> |extents| <= INLINE_EXTENTS && Chained(extents, 0) && Chained(retired, Replaced(req, prior.size).first)
  {
    hide Blocks, ChainedOf, Chained, Acceptable, Replaced, CeilDiv, Slice;
    var r := Replaced(req, prior.size);
    var oldBlocks := CeilDiv(prior.size, BLOCK_SIZE);
    RangeFacts(req, prior.size);
    NoBlocks();
    extents, retired := [], [];
    if req.preserve {
      ok, extents := SpliceInto(prior.extents, allocation, r.first, r.end);
      if ok {
        ok, retired := AppendInodeRange([], prior.extents, r.first, if r.end < oldBlocks then r.end else oldBlocks, r.first);
      }
    } else {
      ok, extents := AppendAllocated([], allocation, 0, 0);
      if ok {
        ok, retired := AppendInodeRange([], prior.extents, 0, oldBlocks, 0);
      }
      WholeSlice(Blocks(prior.extents), Blocks(allocation), r.end);
    }
  }

  lemma WholeSlice(blocks: seq<nat>, taken: seq<nat>, end: nat)
    ensures Slice(blocks, 0, |blocks|) == blocks && NewBlocks([], taken, Range(0, end)) == taken
  {
  }

  lemma RangeFacts(req: Request, oldSize: nat)
    requires Acceptable(req, oldSize)
    ensures var r := Replaced(req, oldSize); r.first <= r.end && r.first <= CeilDiv(oldSize, BLOCK_SIZE)
    ensures !req.preserve ==> Replaced(req, oldSize).first == 0
  {
  }

  lemma NoBlocks()
    ensures Blocks([]) == [] && forall base: nat :: Chained([], base)
  {
  }

  /** The directory entry a creating plan will add. */
  ghost predicate LinkPlanned(m: Mem, p: Plan, l: Link) {
    && l.n == p.number && p.number !in Inodes(m) && l.d in Inodes(m)
    && l.dir == Inodes(m)[l.d].(extents := l.dir.extents, size := Larger(Inodes(m)[l.d].size, (l.k + 1) * DIRENT_SIZE))
    && (if l.more == [] then l.dir.extents == Inodes(m)[l.d].extents else Inodes(m)[l.d].size < (l.k + 1) * DIRENT_SIZE)
    && GrownFrom(m.disk, Inodes(m)[l.d], l.dir, l.k)
    && Blocks(l.dir.extents) == Blocks(Inodes(m)[l.d].extents) + l.more
    && |l.dir.extents| <= INLINE_EXTENTS && Chained(l.dir.extents, 0)
    && |l.more| <= 1 && Fresh(m, l.more)
    && forall b :: b in l.more ==> b !in Blocks(p.allocation)
  }

  /** Allocated blocks are fresh. */
  lemma AllocatedIsFresh(m: Mem, bits: seq<bool>, count: nat, xs: seq<Extent>)
    requires m.geo.dataStart <= m.geo.backupBlock <= |bits| == |m.blockBitmap|
    requires forall b :: 0 <= b < |bits| && m.blockBitmap[b] ==> bits[b]
    requires count <= |FreeList(bits, m.geo.dataStart, m.geo.backupBlock)|
    requires Blocks(xs) == FreeList(bits, m.geo.dataStart, m.geo.backupBlock)[..count]
    ensures Fresh(m, Blocks(xs)) && forall b :: b in Blocks(xs) ==> !bits[b]
  {
    hide Blocks, FreeList;
    FreeListMembers(bits, m.geo.dataStart, m.geo.backupBlock);
  }

  /** One more block behind a directory's extents, as `rmfs_expand_directory` adds it. */
  method GrowExtents(xs: seq<Extent>, block: nat) returns (ok: bool, ys: seq<Extent>)
    requires Chained(xs, 0) && |xs| <= INLINE_EXTENTS
    ensures ok <==> |xs| < INLINE_EXTENTS || Joins(xs, block, 1)
    ensures ok ==> Blocks(ys) == Blocks(xs) + [block] && Chained(ys, 0) && |ys| <= INLINE_EXTENTS
  {
    hide BlocksOf, ChainedOf;
    var logical := BlockCount(xs);
    AddBlockMeaning(xs, block);
    EndOfChain(xs);
    ys := xs;
    if |xs| != 0 {
      var last := xs[|xs| - 1];
      if last.physical + last.count == block && last.logical + last.count == logical && last.count != UINT32_MAX {
        ys := xs[|xs| - 1 := last.(count := last.count + 1)];
      } else if |xs| < INLINE_EXTENTS {
        ys := xs + [Extent(logical, block, 1)];
      } else {
        return false, xs;
      }
    } else {
      ys := [Extent(0, block, 1)];
      assert ys == xs + [Extent(0, block, 1)];
    }
    ok := true;
  }

  lemma EndOfChain(xs: seq<Extent>)
    requires Chained(xs, 0)
    ensures xs != [] ==> xs[|xs| - 1].logical + xs[|xs| - 1].count == |Blocks(xs)| && xs[|xs| - 1].count <= UINT32_MAX
    ensures xs == [] ==> |Blocks(xs)| == 0
  {
  }

  /** The state in which a transaction starts to commit: its plan is made and its bits are taken. */
  ghost predicate Reserved(m: Mem, inodeBitmap: seq<bool>, blockBitmap: seq<bool>, req: Request, p: Plan, creating: bool, l: Link) {
    && Planned(m, req, p) && p.number <= |m.inodeBitmap|
    && (creating <==> p.number !in Inodes(m))
    && (if creating then LinkPlanned(m, p, l) else l.more == [])
    && inodeBitmap == (if creating then m.inodeBitmap[p.number - 1 := true] else m.inodeBitmap)
    && blockBitmap == Marked(Marked(m.blockBitmap, Blocks(p.allocation), true), l.more, true)
    && Chained(p.allocation, 0) && Chained(p.retired, Replaced(req, p.prior.size).first)
    && p.inode == p.prior.(size := req.finalSize, extents := p.inode.extents)
  }

  /** The link of a directory with an unused slot. */
  lemma LinkIntoSlot(m: Mem, d: nat, name: Name, r: DirResult, p: Plan)
    requires Vol(m) && d in Inodes(m) && Inodes(m)[d].kind.Directory? && p.number !in Inodes(m)
    requires Searched(DirSlots(m.disk, Inodes(m)[d]), Blocks(Inodes(m)[d].extents), name, r) && !r.found && r.freeFound
    ensures var dir := Inodes(m)[d];
      LinkPlanned(m, p, Link(d, dir.(size := Larger(dir.size, (r.logical + 1) * DIRENT_SIZE)), [], r.logical, p.number, name))
    ensures Vacant(DirSlots(m.disk, Inodes(m)[d]), r.logical)
  {
    hide LiveInodes, Lookup, DirSlots, BlocksOf, ChainedOf;
    assert InodeOk(m.geo, m.disk, Inodes(m), d);
    var dir := Inodes(m)[d];
    assert |DirSlots(m.disk, dir)| == dir.size / DIRENT_SIZE;
    assert Blocks(dir.extents) + [] == Blocks(dir.extents);
  }

  function Larger(a: nat, b: nat): nat {
    if a < b then b else a
  }

  /** The link of a full directory that got one more block. */
  lemma LinkIntoNewBlock(m: Mem, d: nat, name: Name, r: DirResult, p: Plan, extents: seq<Extent>, block: nat)
    requires Vol(m) && d in Inodes(m) && Inodes(m)[d].kind.Directory? && p.number !in Inodes(m)
    requires Searched(DirSlots(m.disk, Inodes(m)[d]), Blocks(Inodes(m)[d].extents), name, r) && !r.found && !r.freeFound
    requires Blocks(extents) == Blocks(Inodes(m)[d].extents) + [block] && Chained(extents, 0) && |extents| <= INLINE_EXTENTS
    requires Fresh(m, [block]) && block !in Blocks(p.allocation)
    requires block < |m.disk| && m.disk[block].Entries? && |m.disk[block].entries| == SLOTS_PER_BLOCK
    ensures var dir := Inodes(m)[d]; var k := dir.size / DIRENT_SIZE;
      && LinkPlanned(m, p, Link(d, dir.(extents := extents, size := Larger(dir.size, (k + 1) * DIRENT_SIZE)), [block], k, p.number, name))
      && k == |Blocks(dir.extents)| * SLOTS_PER_BLOCK
    ensures Vacant(DirSlots(m.disk, Inodes(m)[d]), Inodes(m)[d].size / DIRENT_SIZE)
  {
    hide LiveInodes, Lookup, DirSlots, BlocksOf, ChainedOf, Fresh;
    assert InodeOk(m.geo, m.disk, Inodes(m), d);
    var dir := Inodes(m)[d];
    assert |DirSlots(m.disk, dir)| == dir.size / DIRENT_SIZE;
  }

  // ---------------------------------------------------------------- publishing

  /** Blocks outside the inode table and the fresh ones. */
  ghost predicate SameElsewhere(g: Geometry, disk: seq<Block>, disk': seq<Block>, taken: seq<nat>) {
    && |disk'| == |disk|
    && forall b :: 0 <= b < |disk| && !(g.inodeTableStart <= b < g.dataStart) && b !in taken ==> disk'[b] == disk[b]
  }

  /** The disk after data and inode (`file`), after the directory entry (`linked`) and after the
      directory's own record. */
  ghost predicate Published(m: Mem, file: seq<Block>, linked: seq<Block>, disk': seq<Block>,
                            req: Request, p: Plan, creating: bool, l: Link)
  {
    && p.number > 0 && (creating ==> l.d > 0)
    && RecordWritten(m.geo, m.disk, file, p.number, p.inode) && ImagesStored(m, file, req, p)
    && SameElsewhere(m.geo, m.disk, file, Blocks(p.allocation))
    && if creating then
         && EntryWritten(file, linked, Blocks(l.dir.extents), l.k, Entry(l.n, l.name))
         && RecordWritten(m.geo, linked, disk', l.d, l.dir)
         && SameElsewhere(m.geo, linked, disk', [])
       else disk' == file
  }

  /** Data written, then the record: the file step on disk. */
  lemma FileOnDisk(m: Mem, data: seq<Block>, file: seq<Block>, req: Request, p: Plan)
    requires Vol(m) && Planned(m, req, p) && ImagesStored(m, data, req, p)
    requires forall b :: 0 <= b < |data| && b !in Blocks(p.allocation) ==> b < |m.disk| && data[b] == m.disk[b]
    requires RecordWritten(m.geo, data, file, p.number, p.inode)
    requires SameElsewhere(m.geo, data, file, [])
    ensures RecordWritten(m.geo, m.disk, file, p.number, p.inode) && ImagesStored(m, file, req, p)
    ensures SameElsewhere(m.geo, m.disk, file, Blocks(p.allocation))
  {
    hide LiveInodes, Blocks, Consistent, BlockImage, NewBlocks, Retired, Replaced, Acceptable, Distinct;
    VolSizes(m);
    MovedBits(m, req, p);
    assert forall b :: m.geo.inodeTableStart <= b < m.geo.dataStart ==> b !in Blocks(p.allocation);
    var blocks := Blocks(p.inode.extents);
    assert forall i :: 0 <= i < |blocks| ==> blocks[i] in blocks;
  }

  /** A record the table already holds need not be written. */
  lemma SameRecord(g: Geometry, disk: seq<Block>, n: nat, inode: Inode)
    requires GeometryOk(g) && 0 < n <= g.inodeCount && InodeSlotAt(g, disk, n) == Readable(inode)
    ensures RecordWritten(g, disk, disk, n, inode)
  {
    var t := TableBlock(g, n);
    if t < |disk| && disk[t].InodeTable? && |disk[t].slots| == 16 {
      assert disk[t].slots[(n - 1) % 16 := Readable(inode)] == disk[t].slots;
    }
  }

  lemma OtherRecord(g: Geometry, disk: seq<Block>, disk': seq<Block>, n: nat, inode: Inode, k: nat)
    requires GeometryOk(g) && 0 < n <= g.inodeCount && 0 < k <= g.inodeCount && k != n
    requires RecordWritten(g, disk, disk', n, inode)
    ensures InodeSlotAt(g, disk', k) == InodeSlotAt(g, disk, k)
  {
    assert g.inodeTableStart <= TableBlock(g, k) < g.dataStart;
    assert TableBlock(g, k) != TableBlock(g, n) || (k - 1) % 16 != (n - 1) % 16;
  }

  /** The counters and bitmaps a finished transaction leaves. */
  function Finished(m: Mem, disk': seq<Block>, p: Plan, creating: bool, l: Link): Mem
    requires 0 < p.number <= |m.inodeBitmap|
    requires m.freeBlocks + |Blocks(p.retired)| >= |Blocks(p.allocation)| + |l.more| && (creating ==> m.freeInodes > 0)
  {
    m.(disk := disk',
       inodeBitmap := if creating then m.inodeBitmap[p.number - 1 := true] else m.inodeBitmap,
       blockBitmap := Marked(Marked(Marked(m.blockBitmap, Blocks(p.allocation), true), l.more, true), Blocks(p.retired), false),
       freeBlocks := m.freeBlocks + |Blocks(p.retired)| - (|Blocks(p.allocation)| + |l.more|),
       freeInodes := if creating then m.freeInodes - 1 else m.freeInodes,
       sequence := m.sequence + 1)
  }

  /** What the volume says after a transaction. */
  ghost predicate Outcome(m: Mem, m': Mem, p: Plan, creating: bool, l: Link) {
    var nodes := Nodes(m.disk, Inodes(m));
    && p.number in Inodes(m') && Inodes(m')[p.number] == p.inode
    && if creating then
         && l.d in Inodes(m) && l.d in Inodes(m') && l.k <= |DirSlots(m.disk, Inodes(m)[l.d])|
         && Inodes(m')[l.d] == l.dir
         && DirSlots(m'.disk, l.dir) == Linked(DirSlots(m.disk, Inodes(m)[l.d]), l.k, Entry(l.n, l.name))
         && Nodes(m'.disk, Inodes(m')) == nodes[p.number := NodeOf(m'.disk, p.inode)][l.d := NodeOf(m'.disk, l.dir)]
       else Nodes(m'.disk, Inodes(m')) == nodes[p.number := NodeOf(m'.disk, p.inode)]
  }

  /** A published replacement. */
  lemma PublishedFile(m: Mem, file: seq<Block>, req: Request, p: Plan, l: Link)
    requires Sound(m) && l.more == [] && Planned(m, req, p) && p.number in Inodes(m) && p.number <= |m.inodeBitmap|
    requires RecordWritten(m.geo, m.disk, file, p.number, p.inode) && ImagesStored(m, file, req, p)
    ensures m.freeBlocks + |Blocks(p.retired)| >= |Blocks(p.allocation)|
    ensures var m' := Finished(m, file, p, false, l);
      Vol(m') && Outcome(m, m', p, false, l) && DirectoriesGrow(m, m')
  {
    hide LiveInodes, Blocks, Consistent, Nodes, NodeOf, FreeList, RecordWritten, ImagesStored, Spliced, Fresh;
    assert Vol(m);
    MovedCount(m, req, p);
    var m' := Finished(m, file, p, false, l);
    assert Marked(Marked(m.blockBitmap, Blocks(p.allocation), true), [], true) == Marked(m.blockBitmap, Blocks(p.allocation), true);
    assert m.inodeBitmap[p.number - 1];
    assert m'.inodeBitmap == m.inodeBitmap[p.number - 1 := true];
    FileInstalled(m, m', req, p);
  }

  /** The volume between the two steps of creating a file: the inode exists, no entry names it yet. */
  function Unlinked(m: Mem, file: seq<Block>, p: Plan): Mem
    requires 0 < p.number <= |m.inodeBitmap|
    requires m.freeBlocks >= |Blocks(p.allocation)| && m.freeInodes > 0
  {
    m.(disk := file,
       inodeBitmap := m.inodeBitmap[p.number - 1 := true],
       blockBitmap := Marked(m.blockBitmap, Blocks(p.allocation), true),
       freeBlocks := m.freeBlocks - |Blocks(p.allocation)|,
       freeInodes := m.freeInodes - 1)
  }

  lemma UnlinkedFile(m: Mem, file: seq<Block>, req: Request, p: Plan)
    requires Vol(m) && Planned(m, req, p) && p.number !in Inodes(m)
    requires RecordWritten(m.geo, m.disk, file, p.number, p.inode) && ImagesStored(m, file, req, p)
    ensures Blocks(p.retired) == [] && 0 < p.number <= |m.inodeBitmap|
    ensures m.freeBlocks >= |Blocks(p.allocation)| && m.freeInodes > 0
    ensures var m1 := Unlinked(m, file, p);
      && Vol(m1) && Inodes(m1) == Inodes(m)[p.number := p.inode]
      && Nodes(m1.disk, Inodes(m1)) == Nodes(m.disk, Inodes(m))[p.number := NodeOf(m1.disk, p.inode)]
  {
    hide LiveInodes, Consistent, Nodes, NodeOf, FreeList, RecordWritten, ImagesStored, Fresh, BlocksOf, NewBlocks, Acceptable;
    VolSizes(m);
    MovedCount(m, req, p);
    InodeCount(m, p.number);
    NoBlocks();
    assert Blocks(p.prior.extents) == [];
    assert Blocks(p.retired) == [];
    assert Moved(m.blockBitmap, p) == Marked(m.blockBitmap, Blocks(p.allocation), true);
    FileInstalled(m, Unlinked(m, file, p), req, p);
  }

  /** After the file step the planned link can be made. */
  lemma LinkStillPossible(m: Mem, file: seq<Block>, req: Request, p: Plan, l: Link)
    requires Vol(m) && Planned(m, req, p) && LinkPlanned(m, p, l)
    requires RecordWritten(m.geo, m.disk, file, p.number, p.inode) && ImagesStored(m, file, req, p)
    requires SameElsewhere(m.geo, m.disk, file, Blocks(p.allocation))
    requires 0 < p.number <= |m.inodeBitmap| && m.freeBlocks >= |Blocks(p.allocation)| && m.freeInodes > 0
    requires Inodes(Unlinked(m, file, p)) == Inodes(m)[p.number := p.inode]
    ensures Linkable(Unlinked(m, file, p), l)
    ensures DirSlots(file, Inodes(m)[l.d]) == DirSlots(m.disk, Inodes(m)[l.d])
  {
    hide Inodes, Consistent, RecordWritten, ImagesStored, Blocks, ChainedOf, Spliced, Distinct, Marked, DirSlots;
    var m1 := Unlinked(m, file, p);
    VolSizes(m);
    forall b | b in Blocks(l.dir.extents)
      ensures b < |m.disk| && file[b] == m.disk[b]
    {
      LinkBlockKept(m, p, l, b);
    }
    assert forall b :: b in Blocks(Inodes(m)[l.d].extents) ==> b in Blocks(l.dir.extents);
    SameDirectory(m.disk, file, Inodes(m)[l.d]);
    FreshAfter(m, m1, Blocks(p.allocation), l.more);
  }

  /** The blocks of the directory are neither fresh nor in the inode table. */
  lemma LinkBlockKept(m: Mem, p: Plan, l: Link, b: nat)
    requires Vol(m) && LinkPlanned(m, p, l) && Fresh(m, Blocks(p.allocation)) && b in Blocks(l.dir.extents)
    ensures m.geo.dataStart <= b < |m.disk| && b !in Blocks(p.allocation)
  {
    hide LiveInodes, Consistent, Blocks, Distinct, Chained;
    VolSizes(m);
    if b in Blocks(Inodes(m)[l.d].extents) {
      assert Owns(Inodes(m), l.d, b);
      OwnedInArea(m, l.d, b);
    } else {
      assert b in l.more;
    }
  }

  lemma FreshAfter(m: Mem, m': Mem, taken: seq<nat>, more: seq<nat>)
    requires Fresh(m, more) && m'.geo == m.geo && m'.blockBitmap == Marked(m.blockBitmap, taken, true)
    requires forall b :: b in more ==> b !in taken
    ensures Fresh(m', more)
  {
  }

  /** A published creation. */
  lemma PublishedLink(m: Mem, file: seq<Block>, linked: seq<Block>, disk': seq<Block>, req: Request, p: Plan, l: Link)
    requires Sound(m) && Planned(m, req, p) && LinkPlanned(m, p, l)
    requires Published(m, file, linked, disk', req, p, true, l)
    ensures 0 < p.number <= |m.inodeBitmap|
    ensures m.freeBlocks + |Blocks(p.retired)| >= |Blocks(p.allocation)| + |l.more| && m.freeInodes > 0
    ensures var m' := Finished(m, disk', p, true, l); Vol(m') && Outcome(m, m', p, true, l)
    ensures var m' := Finished(m, disk', p, true, l); Inodes(m') == Inodes(m)[p.number := p.inode][l.d := l.dir]
    ensures NodeOf(disk', p.inode) == NodeOf(file, p.inode)
  {
    hide LiveInodes, Blocks, Vol, Nodes, NodeOf, RecordWritten, ImagesStored, Spliced, Fresh, GrownFrom, EntryWritten, DirSlots, Chained, Linkable, Marked, Coherent, BitmapsSynced, SuperSound, EntryStored, SameElsewhere, Published, Outcome, Inodes;
    assert Vol(m) by { ConsistentIsVol(m); }
    FilePublishedToo(m, file, linked, disk', req, p, l);
    UnlinkedFile(m, file, req, p);
    LinkStillPossible(m, file, req, p, l);
    var m1 := Unlinked(m, file, p);
    LinkedCount(m1, l);
    var m' := Finished(m, disk', p, true, l);
    EntryIsStored(m, file, linked, disk', req, p, l);
    LinkInstalled(m1, m', linked, l);
    FileKept(m1, m', p, l);
    CreationOutcome(m, m1, m', p, l);
  }

  lemma CreationOutcome(m: Mem, m1: Mem, m': Mem, p: Plan, l: Link)
    requires p.number !in Inodes(m) && l.d in Inodes(m) && l.d != p.number
    requires Inodes(m1) == Inodes(m)[p.number := p.inode] && Inodes(m') == Inodes(m1)[l.d := l.dir]
    requires Nodes(m1.disk, Inodes(m1)) == Nodes(m.disk, Inodes(m))[p.number := NodeOf(m1.disk, p.inode)]
    requires Nodes(m'.disk, Inodes(m')) == Nodes(m1.disk, Inodes(m1))[l.d := NodeOf(m'.disk, l.dir)]
    requires l.k <= |DirSlots(m1.disk, Inodes(m1)[l.d])| && DirSlots(m1.disk, Inodes(m)[l.d]) == DirSlots(m.disk, Inodes(m)[l.d])
    requires DirSlots(m'.disk, l.dir) == Linked(DirSlots(m1.disk, Inodes(m1)[l.d]), l.k, Entry(l.n, l.name))
    requires NodeOf(m'.disk, p.inode) == NodeOf(m1.disk, p.inode)
    ensures Outcome(m, m', p, true, l)
  {
    hide Inodes, Nodes, NodeOf, DirSlots, Linked;
  }

  lemma FilePublishedToo(m: Mem, file: seq<Block>, linked: seq<Block>, disk': seq<Block>, req: Request, p: Plan, l: Link)
    requires Published(m, file, linked, disk', req, p, true, l)
    ensures p.number > 0 && RecordWritten(m.geo, m.disk, file, p.number, p.inode) && ImagesStored(m, file, req, p)
    ensures SameElsewhere(m.geo, m.disk, file, Blocks(p.allocation))
  {
    hide RecordWritten, ImagesStored, SameElsewhere, Blocks, EntryWritten;
  }

  lemma EntryIsStored(m: Mem, file: seq<Block>, linked: seq<Block>, disk': seq<Block>, req: Request, p: Plan, l: Link)
    requires Published(m, file, linked, disk', req, p, true, l) && 0 < p.number <= |m.inodeBitmap| && Blocks(p.retired) == []
    requires m.freeBlocks >= |Blocks(p.allocation)| + |l.more| && m.freeInodes > 0
    ensures EntryStored(Unlinked(m, file, p), Finished(m, disk', p, true, l), linked, l)
  {
    hide RecordWritten, ImagesStored, Blocks, EntryWritten, Marked;
    MarkedNothing(Marked(Marked(m.blockBitmap, Blocks(p.allocation), true), l.more, true));
  }

  lemma ConsistentIsVol(m: Mem)
    requires Sound(m)
    ensures Vol(m)
  {
  }

  lemma MarkedNothing(bits: seq<bool>)
    ensures Marked(bits, [], true) == bits && Marked(bits, [], false) == bits
  {
  }

  lemma LinkedCount(m: Mem, l: Link)
    requires Vol(m) && Linkable(m, l)
    ensures m.freeBlocks >= |l.more|
  {
    LinkCount(m, l);
  }

  /** Linking leaves the new file's node alone. */
  lemma FileKept(m: Mem, m': Mem, p: Plan, l: Link)
    requires p.number in Inodes(m) && p.number != l.d && l.d in Inodes(m)
    requires Inodes(m') == Inodes(m)[l.d := l.dir]
    requires Nodes(m'.disk, Inodes(m')) == Nodes(m.disk, Inodes(m))[l.d := NodeOf(m'.disk, l.dir)]
    ensures NodeOf(m'.disk, Inodes(m)[p.number]) == NodeOf(m.disk, Inodes(m)[p.number])
  {
    hide LiveInodes, NodeOf;
    assert Nodes(m'.disk, Inodes(m'))[p.number] == NodeOf(m'.disk, Inodes(m')[p.number]);
    assert Nodes(m.disk, Inodes(m))[p.number] == NodeOf(m.disk, Inodes(m)[p.number]);
  }

  lemma LinkGrows(m: Mem, m': Mem, p: Plan, l: Link)
    requires LinkPlanned(m, p, l) && Inodes(m') == Inodes(m)[p.number := p.inode][l.d := l.dir]
    ensures DirectoriesGrow(m, m')
  {
    hide LiveInodes, Blocks, Chained;
  }

  // ---------------------------------------------------------------- what a write says

  /** `n` is the lowest free inode number. */
  ghost predicate NewNumber(inodeBitmap: seq<bool>, n: nat) {
    && 0 < n <= |inodeBitmap| && !inodeBitmap[n - 1]
    && forall j :: 0 <= j < n - 1 ==> inodeBitmap[j]
  }

  /** File `n`, and nothing else, was replaced; its attributes stay, its size is the requested one and it holds what
      the request makes of its old contents. */
  ghost predicate Replaces(s: Snapshot, s': Snapshot, n: nat, req: Request) {
    && n in s.nodes && s.nodes[n].content.Bytes? && Acceptable(req, |s.nodes[n].content.bytes|)
    && s'.nodes == s.nodes[n := s.nodes[n].(size := req.finalSize, content := Rewritten(s.nodes[n].content.bytes, s.nodes[n].content.slack, req))]
    && s'.sequence == s.sequence + 1 && s'.freeInodes == s.freeInodes && s'.inodeBitmap == s.inodeBitmap
  }

  /** A file with the buffer's bytes was created under the lowest free number and entered in the
      first unused slot of directory `d`. */
  ghost predicate Created(s: Snapshot, s': Snapshot, d: nat, name: Name, n: nat, k: nat, req: Request) {
    && n !in s.nodes && NewNumber(s.inodeBitmap, n)
    && d in s.nodes && s.nodes[d].content.Names? && Vacant(s.nodes[d].content.slots, k)
    && s'.nodes == s.nodes[n := Node(Regular, NEW_FILE_PERMISSIONS, d, req.finalSize, Bytes(req.buffer, Zeros(SlackSize(req.finalSize))))]
                          [d := s.nodes[d].(size := Larger(s.nodes[d].size, (k + 1) * DIRENT_SIZE),
                                            content := Names(Linked(s.nodes[d].content.slots, k, Entry(n, name))))]
    && s'.sequence == s.sequence + 1 && s'.freeInodes + 1 == s.freeInodes
    && s'.inodeBitmap == s.inodeBitmap[n - 1 := true]
  }

  /** What a successful write through `path` did: replaced the file the path names, or created one
      in the directory the path names. */
  ghost predicate Answers(s: Snapshot, s': Snapshot, root: nat, path: seq<Name>, req: Request) {
    match Walk(s.nodes, root, path)
    case Reached(n) =>
      if req.preserve && req.buffer == [] then s' == s && n in s.nodes && s.nodes[n].size == req.finalSize
      else Replaces(s, s', n, req)
    case Missing =>
      && !req.preserve && path != []
      && var parent := Walk(s.nodes, root, path[..|path| - 1]);
      && parent.Reached?
      && CreatesIn(s, s', parent.inode, path[|path| - 1], req)
  }

  ghost predicate CreatesIn(s: Snapshot, s': Snapshot, d: nat, name: Name, req: Request) {
    exists n, k :: Created(s, s', d, name, n, k, req)
  }

  lemma OutcomeOfReplacing(m: Mem, m': Mem, req: Request, p: Plan, l: Link)
    requires p.number in Inodes(m) && Inodes(m)[p.number] == p.prior && p.prior.kind.Regular?
    requires Outcome(m, m', p, false, l) && p.inode == p.prior.(size := req.finalSize, extents := p.inode.extents)
    requires m'.sequence == m.sequence + 1 && m'.freeInodes == m.freeInodes && m'.inodeBitmap == m.inodeBitmap
    requires Bytes(FileBytes(m'.disk, p.inode), Slack(m'.disk, p.inode)) == Rewritten(FileBytes(m.disk, p.prior), Slack(m.disk, p.prior), req)
    requires Acceptable(req, p.prior.size)
    ensures Replaces(Logical(m), Logical(m'), p.number, req)
  {
    hide LiveInodes, Blocks, Rewritten, Acceptable;
  }

  lemma OutcomeOfCreating(m: Mem, m': Mem, req: Request, p: Plan, l: Link)
    requires p.number !in Inodes(m) && l.n == p.number && l.d in Inodes(m) && l.d != p.number
    requires Inodes(m)[l.d].kind.Directory? && l.dir.kind.Directory? && Vacant(DirSlots(m.disk, Inodes(m)[l.d]), l.k)
    requires l.dir == Inodes(m)[l.d].(extents := l.dir.extents, size := Larger(Inodes(m)[l.d].size, (l.k + 1) * DIRENT_SIZE))
    requires Outcome(m, m', p, true, l) && NewNumber(m.inodeBitmap, p.number)
    requires p.inode == Inode(Regular, NEW_FILE_PERMISSIONS, req.finalSize, l.d, p.inode.extents)
    requires Bytes(FileBytes(m'.disk, p.inode), Slack(m'.disk, p.inode)) == Bytes(req.buffer, Zeros(SlackSize(req.finalSize)))
    requires m'.sequence == m.sequence + 1 && m'.freeInodes + 1 == m.freeInodes && m'.inodeBitmap == m.inodeBitmap[p.number - 1 := true]
    ensures Created(Logical(m), Logical(m'), l.d, l.name, p.number, l.k, req)
  {
    hide LiveInodes, Blocks, Vacant;
  }

  /** The finished transaction's bitmaps are on disk except where marked. */
  lemma FinishedSynced(m: Mem, m': Mem, p: Plan, creating: bool, l: Link)
    requires BitmapsSynced(m) && m.groupActive && GeometryOk(m.geo) && m.geo.totalBlocks <= |m.disk|
    requires 0 < p.number <= |m.inodeBitmap|
    requires m.freeBlocks + |Blocks(p.retired)| >= |Blocks(p.allocation)| + |l.more| && (creating ==> m.freeInodes > 0)
    requires m' == Finished(m, m'.disk, p, creating, l).(inodeDirty := m'.inodeDirty, blockDirty := m'.blockDirty, cache := m'.cache)
    requires |m'.disk| == |m.disk| && forall b :: 0 < b < m.geo.inodeTableStart ==> m'.disk[b] == m.disk[b]
    requires Marks(m.inodeDirty, m'.inodeDirty, if creating then [p.number - 1] else [])
    requires Marks(m.blockDirty, m'.blockDirty, Blocks(p.allocation) + l.more + Blocks(p.retired))
    ensures BitmapsSynced(m')
  {
    hide Blocks, Synced;
    var g := m.geo;
    SyncedSizes(m.disk, g.inodeBitmapStart, g.inodeBitmapBlocks, m.inodeBitmap, m.inodeDirty);
    SyncedSizes(m.disk, g.blockBitmapStart, g.blockBitmapBlocks, m.blockBitmap, m.blockDirty);
    assert creating ==> p.number - 1 in [p.number - 1];
    StaysSynced(m.disk, m'.disk, g.inodeBitmapStart, g.inodeBitmapBlocks, m.inodeBitmap, m'.inodeBitmap, m.inodeDirty, m'.inodeDirty);
    forall b | 0 <= b < |m.blockBitmap| && m'.blockBitmap[b] != m.blockBitmap[b]
      ensures m'.blockDirty[b / BITS_PER_BLOCK]
    {
      assert b in Blocks(p.allocation) + l.more + Blocks(p.retired);
    }
    StaysSynced(m.disk, m'.disk, g.blockBitmapStart, g.blockBitmapBlocks, m.blockBitmap, m'.blockBitmap, m.blockDirty, m'.blockDirty);
  }

  lemma SyncedSizes(disk: seq<Block>, start: nat, n: nat, bits: seq<bool>, dirty: seq<bool>)
    requires Synced(disk, start, n, bits, dirty)
    ensures start + n <= |disk| && |bits| == n * BITS_PER_BLOCK && |dirty| == n
  {
  }

  /** The metadata blocks a transaction fetches to write. */
  ghost function Touched(g: Geometry, p: Plan, creating: bool, l: Link): set<nat>
    requires p.number > 0 && (creating ==> l.d > 0 && l.k / SLOTS_PER_BLOCK < |Blocks(l.dir.extents)|)
  {
    {TableBlock(g, p.number)} +
      if creating then {Blocks(l.dir.extents)[l.k / SLOTS_PER_BLOCK], TableBlock(g, l.d)} else {}
  }

  lemma LinkFacts(m: Mem, req: Request, p: Plan, creating: bool, l: Link)
    requires Sound(m) && Planned(m, req, p) && (if creating then LinkPlanned(m, p, l) else l.more == [])
    ensures p.number > 0 && |l.more| <= 1 && GeometryOk(m.geo)
    ensures creating ==> l.d in Inodes(m) && 0 < l.d <= m.geo.inodeCount && l.k / SLOTS_PER_BLOCK < |Blocks(l.dir.extents)|
    ensures creating ==> Chained(l.dir.extents, 0) && p.number != l.d
    ensures creating ==> forall b :: b in Blocks(l.dir.extents) ==> m.geo.dataStart <= b
    ensures creating ==> (l.dir.size == Inodes(m)[l.d].size ==> l.dir == Inodes(m)[l.d])
  {
    hide Blocks, Coherent, BitmapsSynced, SuperSound;
    if creating {
      forall b | b in Blocks(l.dir.extents)
        ensures m.geo.dataStart <= b
      {
        LinkBlockKept(m, p, l, b);
      }
    }
  }

  /** Only the inode table and owned or fresh blocks were written. */
  lemma PublishedElsewhere(m: Mem, file: seq<Block>, linked: seq<Block>, disk': seq<Block>,
                           req: Request, p: Plan, creating: bool, l: Link)
    requires Sound(m) && Planned(m, req, p) && (if creating then LinkPlanned(m, p, l) else l.more == [])
    requires Published(m, file, linked, disk', req, p, creating, l)
    ensures |disk'| == |m.disk| && 0 < m.geo.inodeTableStart < m.geo.backupBlock < |m.disk|
    ensures forall b :: 0 <= b < m.geo.inodeTableStart ==> disk'[b] == m.disk[b]
    ensures disk'[m.geo.backupBlock] == m.disk[m.geo.backupBlock]
  {
    hide LiveInodes, Blocks, Consistent, RecordWritten, ImagesStored, Spliced, GrownFrom, Chained, Distinct;
    assert Vol(m);
    VolSizes(m);
    if creating {
      LinkFacts(m, req, p, creating, l);
      var b := Blocks(l.dir.extents)[l.k / SLOTS_PER_BLOCK];
      assert b in Blocks(l.dir.extents);
      LinkBlockKept(m, p, l, b);
      LinkBlockBelow(m, p, l, b);
    }
  }

  lemma LinkBlockBelow(m: Mem, p: Plan, l: Link, b: nat)
    requires Vol(m) && LinkPlanned(m, p, l) && b in Blocks(l.dir.extents)
    ensures b < m.geo.backupBlock
  {
    hide LiveInodes, Consistent, Blocks, Distinct, Chained;
    if b in Blocks(Inodes(m)[l.d].extents) {
      assert Owns(Inodes(m), l.d, b);
      OwnedInArea(m, l.d, b);
    } else {
      assert b in l.more;
    }
  }

  /** The state a finished transaction leaves is sound. */
  lemma FinishedSound(m: Mem, m': Mem, file: seq<Block>, linked: seq<Block>, req: Request, p: Plan, creating: bool, l: Link)
    requires Sound(m) && m.groupActive && Planned(m, req, p) && (if creating then LinkPlanned(m, p, l) else l.more == [])
    requires creating <==> p.number !in Inodes(m)
    requires Published(m, file, linked, m'.disk, req, p, creating, l) && 0 < p.number <= |m.inodeBitmap|
    requires m.freeBlocks + |Blocks(p.retired)| >= |Blocks(p.allocation)| + |l.more| && (creating ==> m.freeInodes > 0)
    requires m' == Finished(m, m'.disk, p, creating, l).(inodeDirty := m'.inodeDirty, blockDirty := m'.blockDirty, cache := m'.cache)
    requires Marks(m.inodeDirty, m'.inodeDirty, if creating then [p.number - 1] else [])
    requires Marks(m.blockDirty, m'.blockDirty, Blocks(p.allocation) + l.more + Blocks(p.retired))
    requires CacheOk(m'.cache, m'.disk, true) && WroteThrough(m'.cache, m'.disk)
    requires creating ==> l.d > 0 && l.k / SLOTS_PER_BLOCK < |Blocks(l.dir.extents)|
    requires CachedSet(m'.cache) <= CachedSet(m.cache) + Touched(m.geo, p, creating, l)
    ensures Sound(m') && Outcome(m, m', p, creating, l)
    ensures NodeOf(m'.disk, p.inode) == NodeOf(file, p.inode)
  {
    hide LiveInodes, Blocks, Consistent, RecordWritten, ImagesStored, Planned, LinkPlanned, Published, NodeOf, CacheOk, WroteThrough, CachedSet, Marks, BitmapsSynced, Outcome, DirectoriesGrow, Coherent, SuperSound;
    var bare := Finished(m, m'.disk, p, creating, l);
    assert Vol(m);
    VolSizes(m);
    PublishedElsewhere(m, file, linked, m'.disk, req, p, creating, l);
    if creating {
      PublishedLink(m, file, linked, m'.disk, req, p, l);
      LinkGrows(m, bare, p, l);
    } else {
      FilePublished(m, file, linked, m'.disk, req, p, l);
      PublishedFile(m, file, req, p, l);
    }
    SameFields(m, bare, m', p, creating, l);
    assert BitmapsSynced(m') by {
      assert BitmapsSynced(m);
      FinishedSynced(m, m', p, creating, l);
    }
    forall b | b in Touched(m.geo, p, creating, l)
      ensures IsMetadata(m', b)
    {
      TouchedIsMetadata(m, m', req, p, creating, l, b);
    }
    Settled(m, m', Touched(m.geo, p, creating, l));
  }

  lemma FilePublished(m: Mem, file: seq<Block>, linked: seq<Block>, disk': seq<Block>, req: Request, p: Plan, l: Link)
    requires Published(m, file, linked, disk', req, p, false, l)
    ensures p.number > 0 && disk' == file
    ensures RecordWritten(m.geo, m.disk, file, p.number, p.inode) && ImagesStored(m, file, req, p)
  {
  }

  /** Dirty marks and cache entries do not matter to what the volume says. */
  lemma SameFields(m: Mem, bare: Mem, m': Mem, p: Plan, creating: bool, l: Link)
    requires m' == bare.(inodeDirty := m'.inodeDirty, blockDirty := m'.blockDirty, cache := m'.cache)
    requires Vol(bare) && Outcome(m, bare, p, creating, l) && DirectoriesGrow(m, bare)
    ensures Vol(m') && Outcome(m, m', p, creating, l) && DirectoriesGrow(m, m') && Inodes(m') == Inodes(bare)
  {
    hide LiveInodes, Consistent, Blocks, NodeOf;
  }

  lemma TouchedIsMetadata(m: Mem, m': Mem, req: Request, p: Plan, creating: bool, l: Link, b: nat)
    requires Vol(m) && Planned(m, req, p) && (if creating then LinkPlanned(m, p, l) else l.more == [])
    requires Outcome(m, m', p, creating, l) && m'.geo == m.geo
    requires creating ==> l.d > 0 && l.k / SLOTS_PER_BLOCK < |Blocks(l.dir.extents)|
    requires p.number > 0 && b in Touched(m.geo, p, creating, l)
    ensures IsMetadata(m', b)
  {
    hide Blocks, Consistent, Nodes, NodeOf, DirSlots, Spliced, Chained, Distinct;
    VolSizes(m);
    if creating && b == Blocks(l.dir.extents)[l.k / SLOTS_PER_BLOCK] {
      assert Owns(Inodes(m'), l.d, b);
    }
  }
}
