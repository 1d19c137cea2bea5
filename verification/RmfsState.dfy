/** The mounted file system in memory (the `kernel_rmfs` record of kernel/rmfs.c), what
    must hold of it between operations, and what a mount after a crash would see. */
module RmfsState {
  import opened RmfsExtents
  import opened RmfsAllocator
  import opened RmfsVolume
  import opened RmfsUpdate

  const CACHE_ENTRIES: nat := 64
  const GROUP_COMMIT_LIMIT: nat := 32

  datatype CacheEntry = CacheEntry(valid: bool, dirty: bool, block: nat, age: nat, data: Block)

  // ---------------------------------------------------------------- metadata cache

  /** Entry `i` caches block `b`. */
  predicate Holds(cache: seq<CacheEntry>, i: nat, b: nat) {
    i < |cache| && cache[i].valid && cache[i].block == b
  }

  /** Valid entries form a prefix and cache different blocks. */
  ghost predicate CacheShape(cache: seq<CacheEntry>) {
    && |cache| == CACHE_ENTRIES
    && (forall i, j :: 0 <= i < j < |cache| && cache[j].valid ==> cache[i].valid)
    && (forall i, j :: 0 <= i < j < |cache| && cache[i].valid && cache[j].valid ==> cache[i].block != cache[j].block)
  }

  /** The entry among the first `n` that caches `b`, or `n` itself. */
  ghost function Find(cache: seq<CacheEntry>, b: nat, n: nat): (i: nat)
    requires n <= |cache|
    ensures i <= n
    ensures i < n ==> Holds(cache, i, b)
    ensures i == n ==> forall j :: 0 <= j < n ==> !Holds(cache, j, b)
  {
    if n == 0 then 0
    else
      var i := Find(cache, b, n - 1);
      if i < n - 1 || Holds(cache, n - 1, b) then i else n
  }

  /** What a reader of block `b` gets: the cached copy if there is one. */
  ghost function View(cache: seq<CacheEntry>, disk: seq<Block>, b: nat): Block
    requires b < |disk|
  {
    var i := Find(cache, b, |cache|);
    if i < |cache| then cache[i].data else disk[b]
  }

  /** Clean entries equal the disk; nothing is dirty outside a group; block 0 is never cached. */
  ghost predicate CacheOk(cache: seq<CacheEntry>, disk: seq<Block>, groupActive: bool) {
    && CacheShape(cache)
    && forall i :: 0 <= i < |cache| && cache[i].valid ==>
         && 0 < cache[i].block < |disk|
         && (cache[i].dirty ==> groupActive)
         && (!cache[i].dirty ==> cache[i].data == disk[cache[i].block])
  }

  /** Every cached block equals the disk. */
  ghost predicate WroteThrough(cache: seq<CacheEntry>, disk: seq<Block>) {
    forall i :: 0 <= i < |cache| && cache[i].valid ==>
      cache[i].block < |disk| && cache[i].data == disk[cache[i].block]
  }

  ghost function CachedSet(cache: seq<CacheEntry>): set<nat> {
    set i | 0 <= i < |cache| && cache[i].valid :: cache[i].block
  }

  /** One entry changed to hold `b`: the cache still mirrors the disk and caches no other new block. */
  lemma FetchKeeps(cache: seq<CacheEntry>, disk: seq<Block>, cache': seq<CacheEntry>, index: nat, b: nat)
    requires |cache'| == |cache| && index < |cache| && b < |disk|
    requires WroteThrough(cache, disk)
    requires forall i :: 0 <= i < |cache| && i != index ==> cache'[i] == cache[i]
    requires Holds(cache', index, b) && cache'[index].data == disk[b]
    ensures WroteThrough(cache', disk)
    ensures CachedSet(cache') <= CachedSet(cache) + {b}
  {
    forall x | x in CachedSet(cache')
      ensures x in CachedSet(cache) + {b}
    {
      var i :| 0 <= i < |cache'| && cache'[i].valid && cache'[i].block == x;
      assert i != index ==> cache[i].valid && cache[i].block == x;
    }
  }

  /** Storing the same contents in one entry and on disk keeps the cache a mirror. */
  lemma StoreKeeps(cache: seq<CacheEntry>, disk: seq<Block>, groupActive: bool, index: nat, data: Block)
    requires CacheOk(cache, disk, groupActive) && WroteThrough(cache, disk)
    requires index < |cache| && cache[index].valid
    ensures var b := cache[index].block; var cache' := cache[index := cache[index].(data := data)];
      && CacheOk(cache', disk[b := data], groupActive)
      && WroteThrough(cache', disk[b := data])
      && CachedSet(cache') == CachedSet(cache)
  {
    var cache' := cache[index := cache[index].(data := data)];
    assert CacheShape(cache');
    assert forall i :: 0 <= i < |cache| ==> cache'[i].valid == cache[i].valid && cache'[i].block == cache[i].block;
  }

  /** Writing a block nobody caches keeps the cache a mirror. */
  lemma UncachedWriteKeeps(cache: seq<CacheEntry>, disk: seq<Block>, groupActive: bool, b: nat, data: Block)
    requires CacheOk(cache, disk, groupActive) && WroteThrough(cache, disk)
    requires b < |disk| && b !in CachedSet(cache)
    ensures CacheOk(cache, disk[b := data], groupActive) && WroteThrough(cache, disk[b := data])
  {
    forall i | 0 <= i < |cache| && cache[i].valid
      ensures cache[i].block != b
    {
      assert cache[i].block in CachedSet(cache);
    }
  }

  lemma ThroughView(cache: seq<CacheEntry>, disk: seq<Block>, b: nat)
    requires WroteThrough(cache, disk) && b < |disk|
    ensures View(cache, disk, b) == disk[b]
  {
  }

  lemma ViewOf(cache: seq<CacheEntry>, disk: seq<Block>, i: nat, b: nat)
    requires CacheShape(cache) && Holds(cache, i, b) && b < |disk|
    ensures View(cache, disk, b) == cache[i].data
  {
    var j := Find(cache, b, |cache|);
    assert Holds(cache, j, b);
  }

  /** The scan of `rmfs_metadata_block`: the entry that caches `block`, otherwise the first unused
      entry, otherwise the first of the least recently used ones. */
  method ChooseEntry(cache: seq<CacheEntry>, block: nat) returns (hit: bool, index: nat)
    requires CacheShape(cache)
    ensures index < |cache|
    ensures hit <==> exists i :: Holds(cache, i, block)
    ensures hit ==> Holds(cache, index, block)
    ensures !hit && !cache[index].valid ==> forall i :: 0 <= i < index ==> cache[i].valid
    ensures !hit && cache[index].valid ==>
      forall i :: 0 <= i < |cache| ==> cache[i].valid && cache[index].age <= cache[i].age
  {
    index := 0;
    var i := 0;
    while i < CACHE_ENTRIES
      invariant 0 <= i <= CACHE_ENTRIES
      invariant forall j :: 0 <= j < i ==> cache[j].valid && !Holds(cache, j, block)
      invariant i == 0 ==> index == 0
      invariant i > 0 ==> index < i
      invariant forall j :: 0 <= j < i ==> cache[index].age <= cache[j].age
    {
      if cache[i].valid && cache[i].block == block {
        assert Holds(cache, i, block);
        return true, i;
      }
      if !cache[i].valid || i == 0 || cache[i].age < cache[index].age {
        index := i;
        if !cache[i].valid {
          break;
        }
      }
      i := i + 1;
    }
    hit := false;
  }

  /** Refilling entry `v` with block `b`: every block still reads the same, if the entry's old
      contents were on disk. */
  lemma RefillKeepsView(cache: seq<CacheEntry>, disk: seq<Block>, groupActive: bool, v: nat, entry: CacheEntry, b: nat)
    requires CacheOk(cache, disk, groupActive) && v < |cache|
    requires forall i :: 0 <= i < |cache| ==> !Holds(cache, i, entry.block)
    requires cache[v].valid ==> cache[v].data == disk[cache[v].block]
    requires !cache[v].valid ==> forall i :: 0 <= i < v ==> cache[i].valid
    requires entry.valid && 0 < entry.block < |disk| && entry.data == disk[entry.block] && (entry.dirty ==> groupActive)
    requires b < |disk|
    ensures CacheOk(cache[v := entry], disk, groupActive)
    ensures View(cache[v := entry], disk, b) == View(cache, disk, b)
  {
    hide Find;
    var after := cache[v := entry];
    forall k | 0 <= k < |cache| && cache[k].valid
      ensures cache[k].block != entry.block
    {
      assert !Holds(cache, k, entry.block);
    }
    assert CacheShape(after);
    var i, j := Find(cache, b, |cache|), Find(after, b, |after|);
    if j < |after| && j != v {
      assert Holds(cache, j, b);
      ViewOf(cache, disk, j, b);
    }
    assert i < |cache| && i != v ==> Holds(after, i, b);
    assert j == v ==> b == entry.block;
  }

  // ---------------------------------------------------------------- bitmaps on disk

  /** The bits of a bitmap block; no other block is ever stored where a bitmap is read. */
  function BitsIn(block: Block): seq<bool> {
    if block.Bits? then block.bits else seq(BITS_PER_BLOCK, _ => false)
  }

  /** The bitmap stored in `n` blocks from `start`. */
  function LoadedBits(disk: seq<Block>, start: nat, n: nat): seq<bool>
    requires start + n <= |disk|
  {
    if n == 0 then [] else LoadedBits(disk, start, n - 1) + BitsIn(disk[start + n - 1])
  }

  function Chunk(bits: seq<bool>, i: nat): seq<bool>
    requires (i + 1) * BITS_PER_BLOCK <= |bits|
  {
    bits[i * BITS_PER_BLOCK..(i + 1) * BITS_PER_BLOCK]
  }

  /** The bitmap blocks not marked dirty are on disk as they are in memory. */
  ghost predicate Synced(disk: seq<Block>, start: nat, n: nat, bits: seq<bool>, dirty: seq<bool>) {
    && start + n <= |disk|
    && |bits| == n * BITS_PER_BLOCK && |dirty| == n
    && forall i :: 0 <= i < n && !dirty[i] ==> disk[start + i] == Bits(Chunk(bits, i))
  }

  ghost predicate NoneDirty(dirty: seq<bool>) {
    forall i :: 0 <= i < |dirty| ==> !dirty[i]
  }

  lemma {:induction false} SyncedIsLoaded(disk: seq<Block>, start: nat, m: nat, bits: seq<bool>, dirty: seq<bool>, n: nat)
    requires Synced(disk, start, m, bits, dirty) && NoneDirty(dirty) && n <= m
    ensures LoadedBits(disk, start, n) == bits[..n * BITS_PER_BLOCK]
  {
    if n > 0 {
      SyncedIsLoaded(disk, start, m, bits, dirty, n - 1);
      assert disk[start + (n - 1)] == Bits(Chunk(bits, n - 1));
      assert bits[..n * BITS_PER_BLOCK] == bits[..(n - 1) * BITS_PER_BLOCK] + Chunk(bits, n - 1);
    }
  }

  // ---------------------------------------------------------------- mount

  /** The checks `kernel_rmfs_mount` makes: a CLEAN primary superblock with a sane layout,
      an identical backup and a readable root directory. */
  ghost predicate Mountable(disk: seq<Block>) {
    && |disk| > 0 && disk[0].Super?
    && var s := disk[0].superblock; var g := s.geometry;
    && s.state == Clean
    && 0 < g.totalBlocks <= |disk|
    && GeometryOk(g)
    && s.freeBlocks <= g.totalBlocks && s.freeInodes <= g.inodeCount
    && disk[g.backupBlock] == disk[0]
    && var root := InodeSlotAt(g, disk, g.rootInode);
    && root.Readable? && Decodable(g, root.inode) && root.inode.kind.Directory?
  }

  /** What a mount of `disk` finds. */
  ghost function DiskSnapshot(disk: seq<Block>): Snapshot
    requires Mountable(disk)
  {
    var s := disk[0].superblock; var g := s.geometry;
    var inodeBits := LoadedBits(disk, g.inodeBitmapStart, g.inodeBitmapBlocks);
    var blockBits := LoadedBits(disk, g.blockBitmapStart, g.blockBitmapBlocks);
    Snapshot(s.freeBlocks, s.freeInodes, s.sequence, inodeBits, blockBits,
             Nodes(disk, LiveInodes(g, disk, inodeBits)))
  }

  /** Whole bitmap blocks are stored from `start` on. */
  ghost predicate BitsStored(disk: seq<Block>, start: nat, n: nat) {
    && start + n <= |disk|
    && forall b :: start <= b < start + n ==> disk[b].Bits? && |disk[b].bits| == BITS_PER_BLOCK
  }

  /** The volume on a mountable disk is consistent. */
  ghost predicate DiskConsistent(disk: seq<Block>)
    requires Mountable(disk)
  {
    var s := disk[0].superblock; var g := s.geometry;
    && BitsStored(disk, g.inodeBitmapStart, g.inodeBitmapBlocks)
    && BitsStored(disk, g.blockBitmapStart, g.blockBitmapBlocks)
    && Consistent(g, disk, LoadedBits(disk, g.inodeBitmapStart, g.inodeBitmapBlocks),
               LoadedBits(disk, g.blockBitmapStart, g.blockBitmapBlocks), s.freeBlocks, s.freeInodes)
  }

  /** A disk that either refuses to mount or shows a committed, consistent state. */
  ghost predicate SafeDisk(disk: seq<Block>, commits: set<Snapshot>) {
    Mountable(disk) ==> DiskSnapshot(disk) in commits && DiskConsistent(disk)
  }

  /** Every disk content there has been is safe. */
  ghost predicate CrashSafe(history: seq<seq<Block>>, commits: set<Snapshot>) {
    forall i :: 0 <= i < |history| ==> SafeDisk(history[i], commits)
  }

  // ---------------------------------------------------------------- the mounted state

  /** The mutable part of `kernel_rmfs`, with the disk behind it. */
  datatype Mem = Mem(
    geo: Geometry, freeBlocks: nat, freeInodes: nat, sequence: nat,
    inodeBitmap: seq<bool>, blockBitmap: seq<bool>,
    inodeDirty: seq<bool>, blockDirty: seq<bool>,
    cache: seq<CacheEntry>, groupActive: bool, disk: seq<Block>)

  ghost function Inodes(m: Mem): map<nat, Inode> {
    LiveInodes(m.geo, m.disk, m.inodeBitmap)
  }

  /** What the mounted volume says, whether or not it is on disk yet. */
  ghost function Logical(m: Mem): Snapshot {
    Snapshot(m.freeBlocks, m.freeInodes, m.sequence, m.inodeBitmap, m.blockBitmap, Nodes(m.disk, Inodes(m)))
  }

  function Record(m: Mem, state: State): Block {
    Super(Superblock(state, m.geo, m.freeBlocks, m.freeInodes, m.sequence))
  }

  /** Inode table blocks and directory blocks: all that is ever cached. */
  ghost predicate IsMetadata(m: Mem, b: nat) {
    || m.geo.inodeTableStart <= b < m.geo.dataStart
    || exists n :: Owns(Inodes(m), n, b) && Inodes(m)[n].kind.Directory?
  }

  /** Every cached block is metadata and equals the disk: writes go through. */
  ghost predicate Coherent(m: Mem) {
    && CacheOk(m.cache, m.disk, m.groupActive)
    && WroteThrough(m.cache, m.disk)
    && forall b :: b in CachedSet(m.cache) ==> IsMetadata(m, b)
  }

  ghost predicate BitmapsSynced(m: Mem) {
    && Synced(m.disk, m.geo.inodeBitmapStart, m.geo.inodeBitmapBlocks, m.inodeBitmap, m.inodeDirty)
    && Synced(m.disk, m.geo.blockBitmapStart, m.geo.blockBitmapBlocks, m.blockBitmap, m.blockDirty)
    && (!m.groupActive ==> NoneDirty(m.inodeDirty) && NoneDirty(m.blockDirty))
  }

  predicate SaysDirty(block: Block) {
    block.Super? && block.superblock.state == Dirty
  }

  /** While a group is open both superblocks say DIRTY; otherwise both copies are the CLEAN
      record of the present counters. */
  ghost predicate SuperSound(m: Mem) {
    && |m.disk| > m.geo.backupBlock
    && if m.groupActive then SaysDirty(m.disk[0]) && SaysDirty(m.disk[m.geo.backupBlock])
       else m.disk[0] == Record(m, Clean) && m.disk[m.geo.backupBlock] == Record(m, Clean)
  }

  /** What holds of a mounted volume between operations. */
  ghost predicate Sound(m: Mem) {
    && Consistent(m.geo, m.disk, m.inodeBitmap, m.blockBitmap, m.freeBlocks, m.freeInodes)
    && Coherent(m)
    && BitmapsSynced(m)
    && SuperSound(m)
  }

  lemma {:induction false} FreeListBound(bits: seq<bool>, lo: nat, hi: nat)
    requires lo <= hi <= |bits|
    ensures |FreeList(bits, lo, hi)| <= hi - lo
    decreases hi
  {
    if lo < hi {
      FreeListBound(bits, lo, hi - 1);
    }
  }

  /** A closed group is a commit: mounting the disk finds exactly the state in memory. */
  lemma ClosedGroupIsOnDisk(m: Mem)
    requires Sound(m) && !m.groupActive
    ensures Mountable(m.disk) && DiskSnapshot(m.disk) == Logical(m) && DiskConsistent(m.disk)
  {
    hide LiveInodes, Nodes, Coherent, OwnedOnce, BitsMatch, FreeList, LoadedBits;
    var g := m.geo;
    FreeListBound(m.blockBitmap, g.dataStart, g.backupBlock);
    FreeListBound(m.inodeBitmap, 0, g.inodeCount);
    SyncedIsLoaded(m.disk, g.inodeBitmapStart, g.inodeBitmapBlocks, m.inodeBitmap, m.inodeDirty, g.inodeBitmapBlocks);
    SyncedIsLoaded(m.disk, g.blockBitmapStart, g.blockBitmapBlocks, m.blockBitmap, m.blockDirty, g.blockBitmapBlocks);
    WholeBitmap(m.disk, g.inodeBitmapStart, g.inodeBitmapBlocks, m.inodeBitmap, m.inodeDirty);
    WholeBitmap(m.disk, g.blockBitmapStart, g.blockBitmapBlocks, m.blockBitmap, m.blockDirty);
    assert InodeOk(g, m.disk, Inodes(m), g.rootInode);
  }

  lemma WholeBitmap(disk: seq<Block>, start: nat, n: nat, bits: seq<bool>, dirty: seq<bool>)
    requires Synced(disk, start, n, bits, dirty) && NoneDirty(dirty)
    ensures bits[..n * BITS_PER_BLOCK] == bits
    ensures BitsStored(disk, start, n)
  {
    forall b | start <= b < start + n
      ensures disk[b].Bits? && |disk[b].bits| == BITS_PER_BLOCK
    {
      assert disk[start + (b - start)] == Bits(Chunk(bits, b - start));
    }
  }

  /** A bitmap read from its blocks is in step with them. */
  lemma {:induction false} LoadedIsSynced(disk: seq<Block>, start: nat, n: nat)
    requires BitsStored(disk, start, n)
    ensures Synced(disk, start, n, LoadedBits(disk, start, n), seq(n, _ => false))
  {
    if n > 0 {
      LoadedIsSynced(disk, start, n - 1);
      var less, bits := LoadedBits(disk, start, n - 1), LoadedBits(disk, start, n);
      forall i | 0 <= i < n
        ensures disk[start + i] == Bits(Chunk(bits, i))
      {
        if i < n - 1 {
          assert !seq(n - 1, _ => false)[i];
          assert Chunk(bits, i) == Chunk(less, i);
        } else {
          assert Chunk(bits, i) == disk[start + i].bits;
        }
      }
    }
  }

  /** Only the inode table and the owned blocks matter to a volume. */
  lemma FrameConsistent(m: Mem, disk': seq<Block>)
    requires Consistent(m.geo, m.disk, m.inodeBitmap, m.blockBitmap, m.freeBlocks, m.freeInodes)
    requires |disk'| == |m.disk|
    requires forall b :: m.geo.inodeTableStart <= b < m.geo.dataStart ==> disk'[b] == m.disk[b]
    requires forall n: nat, b: nat :: Owns(Inodes(m), n, b) && b < |m.disk| ==> disk'[b] == m.disk[b]
    ensures Consistent(m.geo, disk', m.inodeBitmap, m.blockBitmap, m.freeBlocks, m.freeInodes)
    ensures Inodes(m.(disk := disk')) == Inodes(m)
    ensures Logical(m.(disk := disk')) == Logical(m)
  {
    hide LiveInodes, Nodes, OwnedOnce, BitsMatch, FreeList, InodeOk, NodeOf, TableOk;
    OutsideTable(m.geo, m.disk, disk', m.inodeBitmap);
    var inodes := Inodes(m);
    forall n | n in inodes
      ensures InodeOk(m.geo, disk', inodes, n)
      ensures NodeOf(disk', inodes[n]) == NodeOf(m.disk, inodes[n])
    {
      assert forall b :: b in Blocks(inodes[n].extents) ==> Owns(inodes, n, b);
      SameInodeOk(m.geo, m.disk, disk', inodes, inodes, n);
      SameNode(m.disk, disk', inodes[n]);
    }
    assert Nodes(disk', inodes) == Nodes(m.disk, inodes);
  }

  /** Owned blocks lie in the data area. */
  lemma OwnedInArea(m: Mem, n: nat, b: nat)
    requires Consistent(m.geo, m.disk, m.inodeBitmap, m.blockBitmap, m.freeBlocks, m.freeInodes)
    requires Owns(Inodes(m), n, b)
    ensures m.geo.dataStart <= b < m.geo.backupBlock && b < |m.disk| && m.blockBitmap[b]
  {
    hide LiveInodes, Blocks, OwnedOnce, FreeList;
    assert InodeOk(m.geo, m.disk, Inodes(m), n);
    assert InArea(m.geo, Inodes(m)[n].extents);
  }

  /** Cached blocks lie between the start of the inode table and the backup block. */
  lemma CachedInArea(m: Mem, b: nat)
    requires Sound(m) && b in CachedSet(m.cache)
    ensures m.geo.inodeTableStart <= b < m.geo.backupBlock
  {
    hide LiveInodes, Consistent, CachedSet, BitmapsSynced, SuperSound, CacheOk, WroteThrough;
    assert IsMetadata(m, b);
    assert GeometryOk(m.geo) by { ConsistentGeometry(m); }
    if !(m.geo.inodeTableStart <= b < m.geo.dataStart) {
      var n :| Owns(Inodes(m), n, b) && Inodes(m)[n].kind.Directory?;
      OwnedInArea(m, n, b);
    }
  }

  lemma ConsistentGeometry(m: Mem)
    requires Consistent(m.geo, m.disk, m.inodeBitmap, m.blockBitmap, m.freeBlocks, m.freeInodes)
    ensures GeometryOk(m.geo) && m.geo.totalBlocks <= |m.disk|
    ensures m.geo.totalBlocks <= |m.blockBitmap| && m.geo.inodeCount <= |m.inodeBitmap|
    ensures TableOk(m.geo, m.disk, m.inodeBitmap)
  {
  }

  /** The same volume with other superblocks, bitmap blocks on disk, dirty marks or cache flags. */
  ghost predicate SameVolume(m: Mem, m': Mem) {
    && m'.geo == m.geo && m'.freeBlocks == m.freeBlocks && m'.freeInodes == m.freeInodes && m'.sequence == m.sequence
    && m'.inodeBitmap == m.inodeBitmap && m'.blockBitmap == m.blockBitmap
    && |m'.disk| == |m.disk|
    && forall b :: m.geo.inodeTableStart <= b < m.geo.backupBlock && b < |m.disk| ==> m'.disk[b] == m.disk[b]
  }

  lemma FrameSound(m: Mem, m': Mem)
    requires Sound(m) && SameVolume(m, m')
    requires CachedSet(m'.cache) == CachedSet(m.cache)
    requires CacheOk(m'.cache, m'.disk, m'.groupActive) && WroteThrough(m'.cache, m'.disk)
    requires BitmapsSynced(m') && SuperSound(m')
    ensures Sound(m') && Logical(m') == Logical(m)
  {
    hide LiveInodes, Nodes, Consistent, CachedSet, BitmapsSynced, SuperSound, CacheOk, WroteThrough;
    ConsistentGeometry(m);
    forall n: nat, b: nat | Owns(Inodes(m), n, b)
      ensures b < |m.disk| ==> m'.disk[b] == m.disk[b]
    {
      OwnedInArea(m, n, b);
    }
    FrameConsistent(m, m'.disk);
    assert Inodes(m') == Inodes(m);
    forall b | b in CachedSet(m'.cache)
      ensures IsMetadata(m', b)
    {
      assert IsMetadata(m, b);
    }
  }

  /** Writing blocks outside the metadata and data areas leaves the cache a mirror. */
  lemma FrameCache(m: Mem, disk': seq<Block>, groupActive': bool)
    requires Sound(m) && SameVolume(m, m.(disk := disk'))
    requires m.groupActive ==> groupActive' || forall i :: 0 <= i < |m.cache| ==> !m.cache[i].dirty || !m.cache[i].valid
    ensures CacheOk(m.cache, disk', groupActive') && WroteThrough(m.cache, disk')
  {
    hide LiveInodes, Consistent, BitmapsSynced, SuperSound, CacheShape;
    ConsistentGeometry(m);
    forall i | 0 <= i < |m.cache| && m.cache[i].valid
      ensures disk'[m.cache[i].block] == m.disk[m.cache[i].block]
    {
      assert m.cache[i].block in CachedSet(m.cache);
      CachedInArea(m, m.cache[i].block);
    }
  }

  /** Both superblocks replaced: opening a group, or closing it once nothing is dirty. */
  lemma ReplaceSupers(m: Mem, state: State)
    requires Sound(m)
    requires state == Clean ==> NoneDirty(m.inodeDirty) && NoneDirty(m.blockDirty)
    requires state == Clean ==> forall i :: 0 <= i < |m.cache| ==> !m.cache[i].dirty || !m.cache[i].valid
    ensures 0 < m.geo.backupBlock < |m.disk|
    ensures var m' := m.(groupActive := state == Dirty,
                         disk := m.disk[0 := Record(m, state)][m.geo.backupBlock := Record(m, state)]);
      Sound(m') && Logical(m') == Logical(m)
  {
    hide LiveInodes, Nodes, Consistent, CachedSet, CacheOk, WroteThrough, Coherent, Chunk;
    ConsistentGeometry(m);
    var m' := m.(groupActive := state == Dirty,
                 disk := m.disk[0 := Record(m, state)][m.geo.backupBlock := Record(m, state)]);
    FrameCache(m, m'.disk, m'.groupActive);
    FrameSound(m, m');
  }

  /** Caching one more metadata block changes nothing else. */
  lemma FetchSound(m: Mem, cache': seq<CacheEntry>, b: nat)
    requires Sound(m) && IsMetadata(m, b)
    requires CacheOk(cache', m.disk, m.groupActive) && WroteThrough(cache', m.disk)
    requires CachedSet(cache') <= CachedSet(m.cache) + {b}
    ensures Sound(m.(cache := cache')) && Logical(m.(cache := cache')) == Logical(m)
  {
    hide Consistent, CacheOk, WroteThrough, CachedSet, LiveInodes, BitmapsSynced, SuperSound;
    var m' := m.(cache := cache');
    assert BitmapsSynced(m') && SuperSound(m') by { SameButCache(m, cache'); }
    assert Inodes(m') == Inodes(m);
    forall x | x in CachedSet(cache')
      ensures IsMetadata(m', x)
    {
      assert x == b || x in CachedSet(m.cache);
      assert IsMetadata(m, x);
    }
  }

  lemma SameButCache(m: Mem, cache': seq<CacheEntry>)
    requires BitmapsSynced(m) && SuperSound(m)
    ensures BitmapsSynced(m.(cache := cache')) && SuperSound(m.(cache := cache'))
  {
  }
}
