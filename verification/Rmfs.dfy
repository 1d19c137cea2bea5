/** The RMFS driver (kernel/rmfs.c): block device access, write-back metadata cache, group
    commit and the copy-on-write transaction.

    The device may fail any request; a failed write may or may not have landed. `history`
    lists every content the disk has had and `commits` every state a group commit made
    durable, so crash safety is an invariant of the two. */
module Rmfs {
  import opened RmfsExtents
  import opened RmfsAllocator
  import opened RmfsVolume
  import opened RmfsUpdate
  import opened RmfsPatch
  import opened RmfsState
  import opened RmfsDirectory
  import opened RmfsTransaction

  class FileSystem {
    var mounted: bool
    var geo: Geometry
    var freeBlocks: nat
    var freeInodes: nat
    var sequence: nat
    var inodeBitmap: seq<bool>
    var blockBitmap: seq<bool>
    var inodeDirty: seq<bool>
    var blockDirty: seq<bool>
    var cache: seq<CacheEntry>
    var cacheAge: nat
    var pending: nat
    var groupActive: bool
    var disk: seq<Block>
    ghost var history: seq<seq<Block>>
    ghost var commits: set<Snapshot>

    ghost function Now(): Mem
      reads this
    {
      Mem(geo, freeBlocks, freeInodes, sequence, inodeBitmap, blockBitmap, inodeDirty, blockDirty,
          cache, groupActive, disk)
    }

    /** The log ends in the present disk, and every disk in it is safe to crash into. */
    ghost predicate Logged()
      reads `history, `commits, `disk
    {
      && history != [] && history[|history| - 1] == disk
      && CrashSafe(history, commits)
    }

    ghost predicate MarkedDirty()
      reads `disk
    {
      |disk| > 0 && SaysDirty(disk[0])
    }

    // -------------------------------------------------------------- block device

    method ReadBlock(block: nat) returns (ok: bool, data: Block)
      requires geo.totalBlocks <= |disk|
      ensures ok ==> block < geo.totalBlocks && data == disk[block]
    {
      if block < geo.totalBlocks {
        if * {
          return true, disk[block];
        }
      }
      return false, Data([]);
    }

    method WriteBlock(block: nat, data: Block) returns (ok: bool)
      requires geo.totalBlocks <= |disk| && Logged()
      requires block < geo.totalBlocks ==> SafeDisk(disk[block := data], commits)
      modifies `disk, `history
      ensures Logged()
      ensures ok ==> block < geo.totalBlocks
      ensures disk == old(disk) || (block < geo.totalBlocks && disk == old(disk)[block := data])
      ensures ok ==> disk == old(disk)[block := data]
      ensures old(history) <= history
    {
      hide SafeDisk;
      ok := false;
      if block < geo.totalBlocks {
        if * {
          disk := disk[block := data];
          history := history + [disk];
          if * { ok := true; }
        }
      }
    }

    method FlushDevice() returns (ok: bool)
    {
      ok := *;
    }

    // -------------------------------------------------------------- metadata cache

    /** Returns the cache entry for `block`, reading it in place of the first unused or the least
        recently used entry; a dirty victim is written back first, only inside a group. */
    method MetadataBlock(block: nat, dirty: bool) returns (ok: bool, index: nat)
      requires geo.totalBlocks <= |disk| && Logged() && 0 < block
      requires CacheOk(cache, disk, groupActive)
      requires groupActive ==> MarkedDirty()
      requires dirty ==> groupActive
      modifies `cache, `cacheAge, `disk, `history
      ensures old(history) <= history
      ensures Logged() && CacheOk(cache, disk, groupActive)
      ensures |disk| == |old(disk)| && (forall b :: 0 <= b < |disk| ==> View(cache, disk, b) == old(View(cache, disk, b)))
      ensures groupActive ==> MarkedDirty()
      ensures old(WroteThrough(cache, disk)) ==> disk == old(disk)
      ensures !ok ==> cache == old(cache)
      ensures ok ==> Holds(cache, index, block) && block < |disk| && cache[index].data == old(View(cache, disk, block))
      ensures ok && dirty ==> cache[index].dirty
      ensures ok ==> forall i :: 0 <= i < |cache| && i != index ==> cache[i] == old(cache[i])
      ensures ok && old(cache[index].valid && cache[index].block != block) ==>
        forall i :: 0 <= i < |cache| ==> old(cache[i].valid) && old(cache[index].age) <= old(cache[i].age)
    {
      hide View, SafeDisk, CacheShape;
      var hit, victim := ChooseEntry(cache, block);
      if hit {
        cacheAge := cacheAge + 1;
        TouchEntry(cache, disk, groupActive, victim, cacheAge, dirty);
        ViewOf(cache, disk, victim, block);
        cache := cache[victim := cache[victim].(age := cacheAge, dirty := cache[victim].dirty || dirty)];
        return true, victim;
      }
      index := victim;
      if cache[victim].valid && cache[victim].dirty {
        if !groupActive {
          return false, victim;
        }
        DirtyIsSafe(disk, cache[victim].block, cache[victim].data, commits);
        WriteBackKeepsView(cache, disk, groupActive, victim);
        ok := WriteBlock(cache[victim].block, cache[victim].data);
        if !ok {
          return;
        }
      }
      var data;
      ok, data := ReadBlock(block);
      if !ok {
        return;
      }
      cacheAge := cacheAge + 1;
      var entry := CacheEntry(true, dirty, block, cacheAge, data);
      forall b | 0 <= b < |disk|
        ensures CacheOk(cache[victim := entry], disk, groupActive)
        ensures View(cache[victim := entry], disk, b) == View(cache, disk, b)
      {
        RefillKeepsView(cache, disk, groupActive, victim, entry, b);
      }
      assert View(cache, disk, block) == data by { NotCached(cache, disk, block); }
      cache := cache[victim := entry];
    }

    /** What operations on a mounted volume keep at every moment. */
    ghost predicate Ready()
      reads this
    {
      && geo.totalBlocks <= |disk| && Logged()
      && CacheOk(cache, disk, groupActive) && WroteThrough(cache, disk)
      && (groupActive ==> MarkedDirty())
    }

    /** A cached metadata block; the disk behind it does not change. */
    method Fetch(block: nat, dirty: bool) returns (ok: bool, index: nat)
      requires Ready() && 0 < block && (dirty ==> groupActive)
      modifies `cache, `cacheAge, `disk, `history
      ensures old(history) <= history
      ensures Ready() && disk == old(disk)
      ensures CachedSet(cache) <= old(CachedSet(cache)) + {block}
      ensures !ok ==> cache == old(cache)
      ensures ok ==> Holds(cache, index, block) && block < |disk| && cache[index].data == disk[block]
      ensures ok && dirty ==> cache[index].dirty
    {
      hide View, Logged, CachedSet;
      ghost var before := cache;
      ok, index := MetadataBlock(block, dirty);
      if ok {
        ThroughView(before, disk, block);
        FetchKeeps(before, disk, cache, index, block);
      }
    }

    /** Replaces the contents of a fetched block in the cache and on disk. */
    method Store(index: nat, data: Block) returns (ok: bool)
      requires Ready() && groupActive && index < |cache| && cache[index].valid
      modifies `cache, `disk, `history
      ensures old(history) <= history
      ensures Logged()
      ensures ok ==> Ready() && CachedSet(cache) == old(CachedSet(cache))
      ensures ok ==> old(cache[index].block) < |disk| && disk == old(disk)[old(cache[index].block) := data]
    {
      hide Logged, CachedSet, WroteThrough, CacheShape, SafeDisk;
      StoreKeeps(cache, disk, groupActive, index, data);
      DirtyIsSafe(disk, cache[index].block, data, commits);
      cache := cache[index := cache[index].(data := data)];
      ok := WriteBlock(cache[index].block, data);
    }

    // -------------------------------------------------------------- group commit

    /** Writes every dirty cached block back and marks it clean; no reader sees a change. */
    method FlushMetadataCache() returns (ok: bool)
      requires geo.totalBlocks <= |disk| && Logged() && MarkedDirty()
      requires CacheOk(cache, disk, groupActive)
      modifies `cache, `disk, `history
      ensures old(history) <= history
      ensures Logged()
      ensures ok ==> CacheOk(cache, disk, groupActive) && |disk| == |old(disk)| && MarkedDirty()
      ensures ok ==> forall i :: 0 <= i < |cache| ==> !cache[i].dirty || !cache[i].valid
      ensures ok ==> forall b :: 0 <= b < |disk| ==> View(cache, disk, b) == old(View(cache, disk, b))
      ensures ok ==> CachedSet(cache) == old(CachedSet(cache))
      ensures ok && old(WroteThrough(cache, disk)) ==> disk == old(disk) && WroteThrough(cache, disk)
    {
      hide View, Logged, CachedSet, SafeDisk, CacheShape;
      var i := 0;
      assert |cache| == CACHE_ENTRIES by { ShapeLength(cache); }
      while i < CACHE_ENTRIES
        invariant 0 <= i <= CACHE_ENTRIES == |cache|
        invariant Logged() && MarkedDirty() && |disk| == |old(disk)| && old(history) <= history
        invariant CacheOk(cache, disk, groupActive)
        invariant forall j :: 0 <= j < i ==> !cache[j].dirty || !cache[j].valid
        invariant forall b :: 0 <= b < |disk| ==> View(cache, disk, b) == old(View(cache, disk, b))
        invariant CachedSet(cache) == old(CachedSet(cache))
        invariant old(WroteThrough(cache, disk)) ==> disk == old(disk) && WroteThrough(cache, disk)
      {
        if cache[i].valid && cache[i].dirty {
          DirtyIsSafe(disk, cache[i].block, cache[i].data, commits);
          WriteBackKeepsView(cache, disk, groupActive, i);
          ok := WriteBlock(cache[i].block, cache[i].data);
          if !ok {
            return;
          }
          CleanEntry(cache, disk, groupActive, i);
          cache := cache[i := cache[i].(dirty := false)];
        }
        i := i + 1;
      }
      ok := true;
    }

    /** Writes the dirty blocks of one bitmap; afterwards the whole bitmap is on disk. */
    method FlushBitmap(start: nat, blocks: nat, bits: seq<bool>, dirty: seq<bool>) returns (ok: bool, cleaned: seq<bool>)
      requires geo.totalBlocks <= |disk| && Logged() && MarkedDirty()
      requires 0 < start && start + blocks <= geo.totalBlocks
      requires Synced(disk, start, blocks, bits, dirty)
      modifies `disk, `history
      ensures old(history) <= history
      ensures Logged()
      ensures ok ==> Synced(disk, start, blocks, bits, cleaned) && NoneDirty(cleaned)
      ensures ok ==> |disk| == |old(disk)|
      ensures ok ==> forall b :: 0 <= b < |disk| && !(start <= b < start + blocks) ==> disk[b] == old(disk[b])
    {
      hide Logged, SafeDisk, Chunk;
      cleaned := dirty;
      var i := 0;
      while i < blocks
        invariant 0 <= i <= blocks
        invariant Logged() && MarkedDirty() && |disk| == |old(disk)| && old(history) <= history
        invariant Synced(disk, start, blocks, bits, cleaned)
        invariant forall j :: 0 <= j < i ==> !cleaned[j]
        invariant forall b :: 0 <= b < |disk| && !(start <= b < start + blocks) ==> disk[b] == old(disk[b])
      {
        if cleaned[i] {
          DirtyIsSafe(disk, start + i, Bits(Chunk(bits, i)), commits);
          ok := WriteBlock(start + i, Bits(Chunk(bits, i)));
          if !ok {
            return;
          }
          cleaned := cleaned[i := false];
        }
        i := i + 1;
      }
      ok := true;
    }

    /** Writes the superblock record to the primary and then to the backup block. */
    method WriteSuper(state: State) returns (ok: bool)
      requires geo.totalBlocks <= |disk| && Logged()
      requires 0 < geo.backupBlock < geo.totalBlocks
      requires SafeDisk(disk[0 := Record(Now(), state)], commits)
      requires SafeDisk(disk[0 := Record(Now(), state)][geo.backupBlock := Record(Now(), state)], commits)
      modifies `disk, `history
      ensures old(history) <= history
      ensures Logged()
      ensures ok ==> disk == old(disk)[0 := Record(old(Now()), state)][geo.backupBlock := Record(old(Now()), state)]
    {
      hide Logged, SafeDisk;
      var record := Super(Superblock(state, geo, freeBlocks, freeInodes, sequence));
      ok := WriteBlock(0, record);
      if ok {
        ok := WriteBlock(geo.backupBlock, record);
      }
    }

    /** The class invariant: crash safety always, soundness while mounted; outside a group what
        the volume says has been committed. */
    ghost predicate Steady()
      reads this
    {
      && Logged()
      && (mounted ==> Sound(Now()))
      && (mounted && !groupActive ==> Logical(Now()) in commits)
    }

    /** ... and fewer transactions are pending than a group may hold. */
    ghost predicate Valid()
      reads this
    {
      Steady() && (mounted ==> pending < GROUP_COMMIT_LIMIT)
    }

    /** Opens a group by marking both superblocks DIRTY. `base` is the volume without the
        reservations the running transaction has made in the bitmaps. */
    method BeginGroup(ghost base: Mem) returns (ok: bool)
      requires Logged() && mounted && Sound(base) && pending < GROUP_COMMIT_LIMIT
      requires Now() == base.(inodeBitmap := inodeBitmap, blockBitmap := blockBitmap)
      modifies `mounted, `groupActive, `pending, `disk, `history
      ensures old(history) <= history
      ensures Logged() && (!ok ==> !mounted)
      ensures ok ==> mounted && groupActive && pending < GROUP_COMMIT_LIMIT
      ensures ok ==> var m := base.(groupActive := true, disk := disk);
        Sound(m) && Logical(m) == Logical(base) && Inodes(m) == Inodes(base)
      ensures ok ==> |disk| == |old(disk)|
      ensures ok ==> forall b :: geo.inodeTableStart <= b < geo.backupBlock && b < |disk| ==> disk[b] == old(disk[b])
    {
      hide Logged, Sound, Logical, SafeDisk, LiveInodes;
      if groupActive {
        return true;
      }
      SoundGeometry(base);
      OutsideTable(base.geo, base.disk, base.disk[0 := Record(base, Dirty)][base.geo.backupBlock := Record(base, Dirty)], base.inodeBitmap);
      ReplaceSupers(base, Dirty);
      DirtyRecordIsSafe(base, commits);
      SoundGeometry(base);
      ok := WriteSuper(Dirty);
      if ok {
        ok := FlushDevice();
      }
      if !ok {
        mounted := false;
        return;
      }
      groupActive := true;
      pending := 0;
    }

    /** Writes the CLEAN superblocks of a volume with nothing dirty; this is the commit point. */
    method WriteCommit() returns (ok: bool)
      requires Logged() && Sound(Now()) && groupActive
      requires NoneDirty(inodeDirty) && NoneDirty(blockDirty)
      requires forall i :: 0 <= i < |cache| ==> !cache[i].dirty || !cache[i].valid
      modifies `disk, `history, `commits
      ensures old(history) <= history
      ensures Logged() && commits == old(commits) + {old(Logical(Now()))}
      ensures ok ==> var m := Now().(groupActive := false); Sound(m) && Logical(m) == old(Logical(Now()))
    {
      hide Sound, Logical, SafeDisk, CrashSafe;
      ghost var m := Now();
      SoundGeometry(m);
      ghost var closed := m.(groupActive := false,
                             disk := m.disk[0 := Record(m, Clean)][m.geo.backupBlock := Record(m, Clean)]);
      ReplaceSupers(m, Clean);
      MoreCommits(history, commits, Logical(m));
      commits := commits + {Logical(m)};
      HalfCleanIsSafe(m, commits);
      CommittedIsSafe(closed, commits);
      ok := WriteSuper(Clean);
    }

    /** Closes the group: cached metadata, then the bitmaps, then CLEAN superblocks. */
    method SyncLocked() returns (ok: bool)
      requires Steady() && (mounted && !groupActive ==> pending < GROUP_COMMIT_LIMIT)
      modifies this
      ensures old(history) <= history
      ensures Valid() && geo == old(geo)
      ensures !old(mounted) ==> !ok
      ensures ok ==> mounted && !groupActive && Logical(Now()) == old(Logical(Now()))
      ensures !ok ==> !mounted
      ensures if ok && old(groupActive) then commits == old(commits) + {old(Logical(Now()))}
              else old(commits) <= commits <= old(commits) + {old(Logical(Now()))}
    {
      hide Sound, Logical, Logged;
      if !mounted {
        return false;
      }
      if !groupActive {
        return true;
      }
      ok := CommitGroup();
      if !ok {
        mounted := false;
        return;
      }
      groupActive := false;
      pending := 0;
    }

    /** Everything the group holds back goes to disk, then the CLEAN superblocks. */
    method CommitGroup() returns (ok: bool)
      requires Steady() && mounted && groupActive
      modifies `cache, `inodeDirty, `blockDirty, `disk, `history, `commits
      ensures old(history) <= history && Logged()
      ensures ok ==> var m := Now().(groupActive := false); Sound(m) && Logical(m) == old(Logical(Now()))
      ensures if ok then commits == old(commits) + {old(Logical(Now()))}
              else old(commits) <= commits <= old(commits) + {old(Logical(Now()))}
    {
      hide Sound, Logical, Logged, NoneDirty;
      ok := FlushForCommit();
      if !ok {
        return;
      }
      ok := WriteCommit();
      if ok {
        ok := FlushDevice();
      }
    }

    /** The flushes of `SyncLocked` before the superblocks: afterwards nothing is dirty. */
    method FlushForCommit() returns (ok: bool)
      requires Steady() && mounted && groupActive
      modifies `cache, `inodeDirty, `blockDirty, `disk, `history
      ensures old(history) <= history
      ensures Logged()
      ensures ok ==> Sound(Now()) && Logical(Now()) == old(Logical(Now()))
      ensures ok ==> NoneDirty(inodeDirty) && NoneDirty(blockDirty)
      ensures ok ==> forall i :: 0 <= i < |cache| ==> !cache[i].dirty || !cache[i].valid
    {
      hide Logged, SafeDisk, View, CachedSet, Synced, Consistent, Logical, CacheShape;
      ghost var m0 := Now();
      SoundGeometry(m0);
      ok := FlushMetadataCache();
      if !ok {
        return;
      }
      ghost var m1 := Now();
      FrameSound(m0, m1);
      var cleaned;
      ok, cleaned := FlushBitmap(geo.inodeBitmapStart, geo.inodeBitmapBlocks, inodeBitmap, inodeDirty);
      if !ok {
        return;
      }
      inodeDirty := cleaned;
      FlushedInodes(m1, Now());
      ghost var m2 := Now();
      ok, cleaned := FlushBitmap(geo.blockBitmapStart, geo.blockBitmapBlocks, blockBitmap, blockDirty);
      if !ok {
        return;
      }
      blockDirty := cleaned;
      FlushedBlocks(m2, Now());
    }

    // -------------------------------------------------------------- lookup

    /** Reads a metadata block through the cache. */
    method ReadMeta(block: nat) returns (ok: bool, data: Block)
      requires Valid() && mounted && IsMetadata(Now(), block)
      modifies `cache, `cacheAge, `disk, `history
      ensures Valid() && Now() == old(Now()).(cache := cache) && old(history) <= history
      ensures ok ==> block < |disk| && data == disk[block]
    {
      hide Sound, Logical, Logged, IsMetadata, CacheOk, WroteThrough, CachedSet;
      ghost var m := Now();
      SoundGeometry(m);
      MetadataIsData(m, block);
      var index;
      ok, index := Fetch(block, false);
      FetchSound(m, cache, block);
      data := if ok then cache[index].data else Data([]);
    }

    /** Reads and decodes inode record `n`. */
    method ReadRecord(n: nat) returns (ok: bool, inode: Inode)
      requires Ready() && GeometryOk(geo)
      modifies `cache, `cacheAge, `disk, `history
      ensures Ready() && disk == old(disk) && old(history) <= history
      ensures 0 < n <= geo.inodeCount ==> CachedSet(cache) <= old(CachedSet(cache)) + {TableBlock(geo, n)}
      ensures !(0 < n <= geo.inodeCount) ==> cache == old(cache)
      ensures ok ==> InodeSlotAt(geo, disk, n) == Readable(inode) && Decodable(geo, inode)
    {
      hide Logged, Decodable, CacheOk, WroteThrough, CachedSet;
      ok, inode := false, Inode(Other, 0, 0, 0, []);
      if n == 0 || n > geo.inodeCount {
        return;
      }
      var index;
      ok, index := Fetch(geo.inodeTableStart + (n - 1) / 16, false);
      if !ok {
        return;
      }
      var slot := SlotIn(cache[index].data, (n - 1) % 16);
      if slot.Unreadable? {
        return false, inode;
      }
      inode := slot.inode;
      ok := DecodeInode(geo, inode);
    }

    /** Reads an inode of the mounted volume. */
    method ReadInode(n: nat) returns (ok: bool, inode: Inode)
      requires Valid() && mounted
      modifies `cache, `cacheAge, `disk, `history
      ensures Valid() && Now() == old(Now()).(cache := cache) && old(history) <= history
      ensures ok ==> InodeSlotAt(geo, disk, n) == Readable(inode) && Decodable(geo, inode)
    {
      hide Sound, Logical, Logged, Decodable, CacheOk, WroteThrough, CachedSet;
      ghost var m := Now();
      SoundGeometry(m);
      ok, inode := ReadRecord(n);
      if 0 < n <= geo.inodeCount {
        assert IsMetadata(m, TableBlock(geo, n));
        FetchSound(m, cache, TableBlock(geo, n));
      }
    }

    /** The blocks of one directory extent, slot by slot, from slot number `from` on. */
    method SearchExtent(x: Extent, total: nat, from: nat, name: Name, r0: DirResult, ghost d: nat, ghost e: nat)
      returns (ok: bool, scanned: nat, r: DirResult)
      requires Valid() && mounted && d in Inodes(Now()) && Inodes(Now())[d].kind.Directory?
      requires e < |Inodes(Now())[d].extents| && x == Inodes(Now())[d].extents[e]
      requires total == Inodes(Now())[d].size / DIRENT_SIZE
      requires from == Least(|BlocksOf(Inodes(Now())[d].extents, e)| * SLOTS_PER_BLOCK, total)
      requires !r0.found
      requires Searching(DirSlots(disk, Inodes(Now())[d]), Blocks(Inodes(Now())[d].extents), name, from, r0)
      modifies `cache, `cacheAge, `disk, `history
      ensures Valid() && Now() == old(Now()).(cache := cache) && old(history) <= history
      ensures ok && r.found ==>
        Searched(DirSlots(disk, Inodes(Now())[d]), Blocks(Inodes(Now())[d].extents), name, r)
      ensures ok && !r.found ==>
        && scanned == Least(|BlocksOf(Inodes(Now())[d].extents, e + 1)| * SLOTS_PER_BLOCK, total)
        && Searching(DirSlots(disk, Inodes(Now())[d]), Blocks(Inodes(Now())[d].extents), name, scanned, r)
    {
      hide Sound, Logical, Logged, Blocks, BlocksOf, IsMetadata, DirSlots, Searching, Searched, LiveInodes, HoldsSlots;
      ghost var m := Now();
      ghost var inode := Inodes(m)[d];
      ghost var blocks := Blocks(inode.extents);
      ghost var slots := DirSlots(disk, inode);
      ghost var before := |BlocksOf(inode.extents, e)|;
      SearchedExtent(inode.extents, e);
      scanned, r := from, r0;
      var b := 0;
      while b < x.count && scanned < total
        invariant 0 <= b <= x.count
        invariant Valid() && Now() == m.(cache := cache) && old(history) <= history
        invariant scanned == Least((before + b) * SLOTS_PER_BLOCK, total)
        invariant !r.found && Searching(slots, blocks, name, scanned, r)
      {
        DirectoryBlock(Now(), d, e, b);
        var block;
        ok, block := ReadMeta(x.physical + b);
        if !ok {
          return;
        }
        var limit := if total - scanned < SLOTS_PER_BLOCK then total - scanned else SLOTS_PER_BLOCK;
        ok, r := SearchBlock(block.entries, limit, name, scanned, r, x.physical + b, slots, blocks, before + b);
        if !ok || r.found {
          return;
        }
        scanned := scanned + limit;
        b := b + 1;
      }
      ok := true;
    }

    /** Searches directory `d` for `name`. A miss reports the first unused slot, or the slot behind
        the last one while the allocated blocks have room. */
    method FindDirectoryEntry(directory: Inode, name: Name, ghost d: nat) returns (ok: bool, r: DirResult)
      requires Valid() && mounted && d in Inodes(Now()) && Inodes(Now())[d] == directory
      modifies `cache, `cacheAge, `disk, `history
      ensures Valid() && Now() == old(Now()).(cache := cache) && old(history) <= history
      ensures ok ==> 0 < |name| <= NAME_MAX && directory.kind.Directory?
      ensures ok ==> Searched(DirSlots(disk, directory), Blocks(directory.extents), name, r)
    {
      hide Sound, Logical, Logged, Blocks, BlocksOf, IsMetadata, DirSlots, Searching, Searched, LiveInodes, ChainedOf;
      r := DirResult(false, 0, false, 0, 0, 0);
      if |name| == 0 || |name| > NAME_MAX || !directory.kind.Directory? {
        return false, r;
      }
      ghost var m := Now();
      var xs := directory.extents;
      var total := directory.size / DIRENT_SIZE;
      var scanned := 0;
      var e := 0;
      SearchStarts(m, d, name);
      while e < |xs|
        invariant 0 <= e <= |xs|
        invariant Valid() && Now() == m.(cache := cache) && old(history) <= history
        invariant scanned == Least(|BlocksOf(xs, e)| * SLOTS_PER_BLOCK, total)
        invariant !r.found && Searching(DirSlots(disk, directory), Blocks(xs), name, scanned, r)
      {
        ok, scanned, r := SearchExtent(xs[e], total, scanned, name, r, d, e);
        if !ok || r.found {
          return;
        }
        e := e + 1;
      }
      SearchMissed(m, d, name, r);
      if !r.freeFound && |xs| != 0 {
        var count := BlockCount(xs);
        if directory.size < count * BLOCK_SIZE {
          var physical := PhysicalBlock(xs, directory.size / BLOCK_SIZE);
          r := r.(freeFound := true, freeBlock := physical,
                  freeSlot := directory.size % BLOCK_SIZE / DIRENT_SIZE, logical := total);
          if physical == 0 {
            return false, r;
          }
        }
      }
      ok := true;
    }

    ghost function Files(): map<nat, Node>
      reads this
    {
      Nodes(disk, Inodes(Now()))
    }

    /** One component further along `path`. */
    method EnterDirectory(path: seq<Name>, i: nat, from: nat, directory: Inode) returns (ok: bool, number: nat, inode: Inode)
      requires Valid() && mounted && i < |path| && Walk(Files(), geo.rootInode, path[..i]) == Reached(from)
      requires from in Inodes(Now()) && Inodes(Now())[from] == directory
      modifies `cache, `cacheAge, `disk, `history
      ensures Valid() && Now() == old(Now()).(cache := cache) && old(history) <= history
      ensures ok ==> Walk(Files(), geo.rootInode, path[..i + 1]) == Reached(number)
      ensures ok ==> number in Inodes(Now()) && Inodes(Now())[number] == inode
    {
      hide Sound, Logical, Logged, Blocks, DirSlots, Searched, LiveInodes, Walk, Decodable;
      number, inode := 0, directory;
      var r;
      ok, r := FindDirectoryEntry(directory, path[i], from);
      if !ok || !r.found {
        ok := false;
        return;
      }
      Descend(Now(), from, path[i], r);
      WalkSnoc(Files(), geo.rootInode, path, i, from);
      number := r.inode;
      ok, inode := ReadInode(number);
      if ok {
        LiveRecord(Now(), number);
      }
    }

    /** Walks `path` from the root directory. */
    method Resolve(path: seq<Name>) returns (ok: bool, number: nat, inode: Inode)
      requires Valid() && mounted
      modifies `cache, `cacheAge, `disk, `history
      ensures Valid() && Now() == old(Now()).(cache := cache) && old(history) <= history
      ensures ok ==> Walk(Files(), geo.rootInode, path) == Reached(number)
      ensures ok ==> number in Inodes(Now()) && Inodes(Now())[number] == inode
    {
      hide Sound, Logical, Logged, LiveInodes, Walk, Decodable, Nodes;
      number := geo.rootInode;
      RootIsLive(Now());
      ok, inode := ReadInode(number);
      if !ok {
        return;
      }
      LiveRecord(Now(), number);
      var i := 0;
      assert path[..0] == [];
      WalkNothing(Files(), geo.rootInode);
      while i < |path|
        invariant 0 <= i <= |path|
        invariant Valid() && Now() == old(Now()).(cache := cache) && old(history) <= history
        invariant Walk(Files(), geo.rootInode, path[..i]) == Reached(number)
        invariant number in Inodes(Now()) && Inodes(Now())[number] == inode
      {
        ok, number, inode := EnterDirectory(path, i, number, inode);
        if !ok {
          return;
        }
        i := i + 1;
      }
      assert path[..i] == path;
      ok := true;
    }

    /** Finds the directory that holds the last component of `path`. */
    method ResolveParent(path: seq<Name>) returns (ok: bool, number: nat, inode: Inode)
      requires Valid() && mounted
      modifies `cache, `cacheAge, `disk, `history
      ensures Valid() && Now() == old(Now()).(cache := cache) && old(history) <= history
      ensures ok ==> path != [] && 0 < |path[|path| - 1]| <= NAME_MAX
      ensures ok ==> Walk(Files(), geo.rootInode, path[..|path| - 1]) == Reached(number)
      ensures ok ==> number in Inodes(Now()) && Inodes(Now())[number] == inode
    {
      hide Sound, Logical, Logged, LiveInodes, Walk, Decodable;
      ok, number, inode := false, 0, Inode(Other, 0, 0, 0, []);
      if |path| == 0 || |path[|path| - 1]| == 0 || |path[|path| - 1]| > NAME_MAX {
        return;
      }
      var parents := path[..|path| - 1];
      if |parents| == 0 {
        number := geo.rootInode;
        RootIsLive(Now());
        ok, inode := ReadInode(number);
        if ok {
          LiveRecord(Now(), number);
          WalkNothing(Files(), geo.rootInode);
        }
        return;
      }
      if PathLength(parents) >= PARENT_PATH_CAPACITY {
        return;
      }
      ok, number, inode := Resolve(parents);
      ok := ok && inode.kind.Directory?;
    }

    // -------------------------------------------------------------- transaction steps

    /** Writes inode record `n` through the cache. */
    method WriteInode(n: nat, inode: Inode) returns (ok: bool)
      requires Ready() && groupActive && GeometryOk(geo) && TableTyped(geo, disk)
      modifies `cache, `cacheAge, `disk, `history
      ensures Logged() && old(history) <= history
      ensures ok ==> Ready() && TableTyped(geo, disk) && 0 < n <= geo.inodeCount
      ensures ok ==> CachedSet(cache) <= old(CachedSet(cache)) + {TableBlock(geo, n)}
      ensures ok ==> RecordWritten(geo, old(disk), disk, n, inode)
      ensures ok ==> SameElsewhere(geo, old(disk), disk, [])
    {
      hide Logged, CachedSet, CacheOk, WroteThrough;
      if n == 0 || n > geo.inodeCount || |inode.extents| > INLINE_EXTENTS {
        return false;
      }
      var index;
      var table := geo.inodeTableStart + (n - 1) / 16;
      ok, index := Fetch(table, true);
      if !ok {
        return;
      }
      TableEntry(geo, disk, n);
      var slots := cache[index].data.slots;
      ok := Store(index, InodeTable(slots[(n - 1) % 16 := Readable(inode)]));
    }

    /** Writes one directory entry through the cache. */
    method WriteDirent(block: nat, slot: nat, n: nat, name: Name) returns (ok: bool)
      requires Ready() && groupActive && 0 < block < |disk|
      requires disk[block].Entries? && |disk[block].entries| == SLOTS_PER_BLOCK
      modifies `cache, `cacheAge, `disk, `history
      ensures Logged() && old(history) <= history
      ensures ok ==> Ready() && slot < SLOTS_PER_BLOCK
      ensures ok ==> CachedSet(cache) <= old(CachedSet(cache)) + {block}
      ensures ok ==> disk == old(disk)[block := Entries(old(disk)[block].entries[slot := Entry(n, name)])]
    {
      hide Logged, CachedSet, CacheOk, WroteThrough;
      if slot >= SLOTS_PER_BLOCK {
        return false;
      }
      var index;
      ok, index := Fetch(block, true);
      if !ok {
        return;
      }
      ok := Store(index, Entries(cache[index].data.entries[slot := Entry(n, name)]));
    }

    /** What a replaced block held, as far as its image depends on it. */
    method OldContents(req: Request, p: Plan, i: nat, ghost base: Mem) returns (ok: bool, held: Block)
      requires geo.totalBlocks <= |disk| && Sound(base) && Planned(base, req, p) && |disk| == |base.disk|
      requires Replaced(req, p.prior.size).first <= i < Replaced(req, p.prior.size).end
      requires forall b :: 0 <= b < |disk| && b !in Blocks(p.allocation) ==> disk[b] == base.disk[b]
      ensures ok ==> BlockImage(req, p.prior.size, held, i) == BlockImage(req, p.prior.size, OldBlock(base.disk, Kept(req, Blocks(p.prior.extents)), i), i)
    {
      hide Sound, Planned, Blocks, BlockImage, ChainedOf, BlocksOf, Acceptable, LiveInodes, Replaced;
      PlanFacts(base, req, p);
      held := Data([]);
      if req.preserve && i * BLOCK_SIZE < p.prior.size {
        var from := PhysicalBlock(p.prior.extents, i);
        if from == 0 {
          return false, held;
        }
        ok, held := ReadBlock(from);
        if ok {
          PriorBlock(base, req, p, i);
        }
      } else {
        ImageIgnoresOld(req, p.prior.size, held, OldBlock(base.disk, Kept(req, Blocks(p.prior.extents)), i), i);
        ok := true;
      }
    }

    /** Writes the image of every replaced block to its new place. */
    method WriteData(req: Request, p: Plan, ghost base: Mem) returns (ok: bool)
      requires Ready() && groupActive && Sound(base) && Planned(base, req, p)
      requires disk == base.disk && geo == base.geo && cache == base.cache
      modifies `disk, `history
      ensures Logged() && old(history) <= history
      ensures ok ==> Ready() && ImagesStored(base, disk, req, p) && |disk| == |base.disk|
      ensures ok ==> forall b :: 0 <= b < |disk| && b !in Blocks(p.allocation) ==> disk[b] == old(disk[b])
    {
      hide Logged, Sound, Planned, CacheOk, WroteThrough, CachedSet, Blocks, BlockImage, SafeDisk, ChainedOf, BlocksOf, Acceptable, LiveInodes, Replaced;
      var r := Replaced(req, p.prior.size);
      var scratch := new Byte[BLOCK_SIZE](_ => 0);
      ghost var blocks, taken := Blocks(p.inode.extents), Blocks(p.allocation);
      ghost var prior := Kept(req, Blocks(p.prior.extents));
      PlanFacts(base, req, p);
      var i := r.first;
      while i < r.end
        invariant r.first <= i <= r.end
        invariant Ready() && old(history) <= history && |disk| == |base.disk|
        invariant forall b :: 0 <= b < |disk| && b !in taken ==> disk[b] == base.disk[b]
        invariant forall j :: r.first <= j < i ==>
          disk[blocks[j]] == Data(BlockImage(req, p.prior.size, OldBlock(base.disk, prior, j), j))
      {
        var held;
        ok, held := OldContents(req, p, i, base);
        if !ok {
          return;
        }
        FillBlock(req, p.prior.size, held, i, scratch);
        var to := PhysicalBlock(p.inode.extents, i);
        if to == 0 {
          return false;
        }
        FreshTarget(base, req, p, i);
        UncachedWriteKeeps(cache, disk, groupActive, to, Data(scratch[..]));
        DirtyIsSafe(disk, to, Data(scratch[..]), commits);
        ok := WriteBlock(to, Data(scratch[..]));
        if !ok {
          return;
        }
        i := i + 1;
      }
      ok := true;
    }

    /** A transaction is reserving: `base` is the volume without its reservations. */
    ghost predicate Reserving(base: Mem)
      reads this
    {
      && Logged() && Sound(base) && (base.groupActive || Logical(base) in commits)
      && Now() == base.(inodeBitmap := inodeBitmap, blockBitmap := blockBitmap)
      && |blockBitmap| == |base.blockBitmap|
      && forall b :: 0 <= b < |blockBitmap| && base.blockBitmap[b] ==> blockBitmap[b]
    }

    /** Reserving since `m`; free blocks may have been written meanwhile. */
    ghost predicate ReservingSince(m: Mem)
      reads this
    {
      var base := m.(disk := disk);
      Reserving(base) && Logical(base) == Logical(m) && Inodes(base) == Inodes(m)
    }

    /** Takes the lowest free block. */
    method TakeBlock(ghost base: Mem) returns (ok: bool, block: nat)
      requires Reserving(base)
      modifies `blockBitmap
      ensures !ok ==> blockBitmap == old(blockBitmap)
      ensures ok ==> Fresh(base, [block]) && block < |old(blockBitmap)| && !old(blockBitmap)[block]
      ensures ok ==> blockBitmap == Marked(old(blockBitmap), [block], true)
      ensures Reserving(base)
    {
      hide Logged, Sound, Logical, Blocks, FreeList, Fresh, ChainedOf, Coalesced;
      SoundGeometry(base);
      var marked, xs;
      block := 0;
      ok, marked, xs := AllocateExtents(blockBitmap, geo.dataStart, geo.backupBlock, freeBlocks, 1);
      if ok {
        AllocatedIsFresh(base, blockBitmap, 1, xs);
        OneBlock(xs);
        assert xs[0].physical in Blocks(xs);
        block := xs[0].physical;
        blockBitmap := marked;
        FreshFacts(base, block);
      }
    }

    /** Adds an empty block to directory `d`. The block is written before any group is opened, so
        it must be free in `base`. */
    method ExpandDirectory(directory: Inode, ghost d: nat, ghost base: Mem)
      returns (ok: bool, extents: seq<Extent>, block: nat)
      requires Reserving(base) && d in Inodes(base) && Inodes(base)[d] == directory && directory.kind.Directory?
      modifies `blockBitmap, `disk, `history
      ensures ReservingSince(base) && old(history) <= history
      ensures !ok ==> blockBitmap == old(blockBitmap)
      ensures ok ==> Fresh(base, [block]) && blockBitmap == Marked(old(blockBitmap), [block], true)
      ensures ok ==> block < |old(blockBitmap)| && !old(blockBitmap)[block]
      ensures ok ==> block < |disk| && disk[block] == EmptyEntries()
      ensures ok ==> Blocks(extents) == Blocks(directory.extents) + [block]
      ensures ok ==> Chained(extents, 0) && |extents| <= INLINE_EXTENTS
    {
      hide Logged, Sound, Logical, Blocks, Fresh, ChainedOf, LiveInodes, EmptyEntries;
      extents := [];
      ok, block := TakeBlock(base);
      if !ok {
        return;
      }
      ok := ClearBlock(block, base);
      if !ok {
        blockBitmap := blockBitmap[block := false];
        return;
      }
      DirectoryExtents(base, d);
      ok, extents := GrowExtents(directory.extents, block);
      if !ok {
        blockBitmap := blockBitmap[block := false];
      }
    }

    /** A block taken for a directory is written as one without entries. */
    method ClearBlock(block: nat, ghost base: Mem) returns (ok: bool)
      requires Reserving(base) && Fresh(base, [block])
      modifies `disk, `history
      ensures ReservingSince(base) && old(history) <= history
      ensures ok ==> block < |disk| && disk[block] == EmptyEntries()
    {
      hide Logged, Sound, Logical, Blocks, Fresh, LiveInodes, SafeDisk, EmptyEntries, GeometryOk;
      SoundGeometry(base);
      FreshFacts(base, block);
      FreeWrite(base, block, EmptyEntries());
      FreeWriteIsSafe(base, block, EmptyEntries(), commits);
      ok := WriteBlock(block, EmptyEntries());
    }

    /** Allocates the replacement blocks and splices the extent lists. Whatever was allocated is
        reported, so that the caller can give it back. */
    method ReserveBlocks(req: Request, prior: Inode) returns (ok: bool, p: Plan)
      requires Reserving(Now())
      requires Acceptable(req, prior.size) && |Blocks(prior.extents)| == CeilDiv(prior.size, BLOCK_SIZE)
      requires Chained(prior.extents, 0) && prior.kind.Regular?
      modifies `blockBitmap
      ensures Reserving(old(Now()))
      ensures blockBitmap == Marked(old(blockBitmap), Blocks(p.allocation), true) && Fresh(old(Now()), Blocks(p.allocation))
      ensures Chained(p.allocation, 0) && p.prior == prior && p.number == 0
      ensures ok ==> Spliced(req, p) && Chained(p.retired, Replaced(req, prior.size).first)
      ensures ok ==> p.inode == prior.(size := req.finalSize, extents := p.inode.extents)
    {
      hide Logged, Sound, Logical, Blocks, FreeList, ChainedOf, Coalesced, Acceptable, NewBlocks, Retired;
      ghost var base := Now();
      SoundGeometry(base);
      var r := Replaced(req, prior.size);
      RangeFacts(req, prior.size);
      NoBlocks();
      var allocation, extents, retired := [], [], [];
      var marked;
      ok, marked, allocation := AllocateExtents(blockBitmap, geo.dataStart, geo.backupBlock, freeBlocks, r.end - r.first);
      MarkedNothing(blockBitmap);
      if ok && r.end > r.first {
        AllocatedIsFresh(base, blockBitmap, r.end - r.first, allocation);
      }
      blockBitmap := marked;
      if ok {
        ok, extents, retired := Splice(req, prior, allocation);
      }
      p := Plan(0, prior, prior.(size := req.finalSize, extents := extents), allocation, retired);
    }

    /** Finds room for the entry of a new file: the unused slot the search met, or slot 0 of a new
        directory block. */
    method ReserveLink(d: nat, parent: Inode, entry: DirResult, name: Name, p: Plan, ghost m: Mem)
      returns (ok: bool, l: Link)
      requires Reserving(m) && Vol(m) && p.number !in Inodes(m)
      requires d in Inodes(m) && Inodes(m)[d] == parent && parent.kind.Directory?
      requires Searched(DirSlots(m.disk, parent), Blocks(parent.extents), name, entry) && !entry.found
      requires blockBitmap == Marked(m.blockBitmap, Blocks(p.allocation), true)
      modifies `blockBitmap, `disk, `history
      ensures ReservingSince(m) && old(history) <= history
      ensures !ok ==> blockBitmap == old(blockBitmap)
      ensures ok ==> LinkPlanned(m.(disk := disk), p, l) && blockBitmap == Marked(old(blockBitmap), l.more, true)
      ensures ok ==> l.d == d && l.name == name && Vacant(DirSlots(m.disk, parent), l.k)
    {
      hide Logged, Sound, Logical, Blocks, Searched, LinkPlanned, Fresh, ChainedOf, Vacant, LiveInodes, Vol, DirSlots;
      l := Link(d, parent, [], 0, p.number, name);
      if entry.freeFound {
        MarkedNothing(blockBitmap);
        LinkIntoSlot(m, d, name, entry, p);
        l := l.(dir := parent.(size := Larger(parent.size, (entry.logical + 1) * DIRENT_SIZE)), k := entry.logical);
        return true, l;
      }
      var extents, block;
      ok, extents, block := ExpandDirectory(parent, d, m);
      if ok {
        ghost var base := m.(disk := disk);
        SlotsUnchanged(m, base, d);
        ConsistentIsVol(base);
        FreshAgain(m, base, [block]);
        LinkIntoNewBlock(base, d, name, entry, p, extents, block);
        var k := parent.size / DIRENT_SIZE;
        l := l.(dir := parent.(extents := extents, size := Larger(parent.size, (k + 1) * DIRENT_SIZE)), more := [block], k := k);
      }
    }

    /** Takes an inode number and room for the directory entry of a new file, or neither. */
    method ReserveEntry(req: Request, p0: Plan, d: nat, parent: Inode, entry: DirResult, name: Name, ghost m: Mem)
      returns (ok: bool, p: Plan, l: Link)
      requires Reserving(m) && inodeBitmap == m.inodeBitmap && m.geo.inodeCount <= |m.inodeBitmap|
      requires blockBitmap == Marked(m.blockBitmap, Blocks(p0.allocation), true) && Fresh(m, Blocks(p0.allocation))
      requires d in Inodes(m) && Inodes(m)[d] == parent && parent.kind.Directory?
      requires Searched(DirSlots(m.disk, parent), Blocks(parent.extents), name, entry) && !entry.found
      requires Spliced(req, p0) && !req.preserve && p0.prior == NewFile(d)
      modifies `blockBitmap, `inodeBitmap, `disk, `history
      ensures ReservingSince(m) && old(history) <= history
      ensures !ok ==> blockBitmap == old(blockBitmap) && inodeBitmap == old(inodeBitmap)
      ensures p.allocation == p0.allocation
      ensures ok ==> p == p0.(number := p.number) && NewNumber(m.inodeBitmap, p.number) && p.number !in Inodes(m)
      ensures ok ==> Planned(m.(disk := disk), req, p) && LinkPlanned(m.(disk := disk), p, l)
      ensures ok ==> inodeBitmap == m.inodeBitmap[p.number - 1 := true]
      ensures ok ==> blockBitmap == Marked(old(blockBitmap), l.more, true)
      ensures ok ==> l.d == d && l.name == name && Vacant(DirSlots(m.disk, parent), l.k)
    {
      hide Logged, Sound, Logical, Blocks, Searched, LinkPlanned, Spliced, Fresh, Vacant, LiveInodes, DirSlots, Marked, Planned, Vol, Consistent;
      l := Link(d, parent, [], 0, 0, name);
      p := p0;
      var taken;
      taken, inodeBitmap := AllocateInode(inodeBitmap, geo.inodeCount);
      if taken == 0 {
        return false, p, l;
      }
      SplicedForAny(req, p, taken);
      p := p.(number := taken);
      PlanMade(m, req, p, true);
      ok, l := ReserveLink(d, parent, entry, name, p, m);
      if ok {
        FreshAgain(m, m.(disk := disk), Blocks(p.allocation));
        PlanMade(m.(disk := disk), req, p, true);
      } else {
        inodeBitmap := inodeBitmap[taken - 1 := false];
      }
    }

    /** Makes the reservations of a write: data blocks, and for a new file an inode number and room
        for its directory entry. A failure takes everything back. */
    method Reserve(req: Request, number: nat, prior: Inode, creating: bool, d: nat, parent: Inode, entry: DirResult, name: Name)
      returns (ok: bool, p: Plan, l: Link)
      requires Valid() && mounted && Acceptable(req, prior.size)
      requires d in Inodes(Now()) && Inodes(Now())[d] == parent
      requires creating ==> parent.kind.Directory? && !entry.found && !req.preserve && prior == NewFile(d)
      requires creating ==> Searched(DirSlots(disk, parent), Blocks(parent.extents), name, entry)
      requires !creating ==> number in Inodes(Now()) && Inodes(Now())[number] == prior && prior.kind.Regular?
      modifies `blockBitmap, `inodeBitmap, `disk, `history
      ensures ReservingSince(old(Now())) && old(history) <= history && (!creating ==> disk == old(disk))
      ensures !ok ==> blockBitmap == old(blockBitmap) && inodeBitmap == old(inodeBitmap)
      ensures ok ==> Reserved(old(Now()).(disk := disk), inodeBitmap, blockBitmap, req, p, creating, l)
      ensures ok ==> p.prior == prior && l.d == d
      ensures ok ==> if creating then l.name == name && NewNumber(old(inodeBitmap), p.number) && Vacant(old(DirSlots(disk, parent)), l.k)
                     else p.number == number
    {
      hide Logged, Sound, Logical, Blocks, Searched, LinkPlanned, Spliced, Fresh, ChainedOf, Acceptable, Vacant, LiveInodes, DirSlots, Consistent, Marked, Planned, Vol;
      ghost var m := Now();
      PriorFacts(m, number, prior, creating, d);
      ok, p := ReserveBlocks(req, prior);
      MarkedNothing(blockBitmap);
      TakenBack(m, Blocks(p.allocation));
      l := Link(d, parent, [], 0, 0, name);
      if ok {
        if creating {
          ok, p, l := ReserveEntry(req, p, d, parent, entry, name, m);
        } else {
          SplicedForAny(req, p, number);
          p := p.(number := number);
          PlanMade(m, req, p, false);
        }
      }
      if !ok {
        var released;
        blockBitmap, released := ReleaseExtents(blockBitmap, p.allocation);
      }
    }

    // -------------------------------------------------------------- commit

    /** Marks the bitmap blocks of everything reserved. */
    method MarkReserved(p: Plan, creating: bool, l: Link) returns (ok: bool)
      requires Chained(p.allocation, 0) && |l.more| <= 1 && (creating ==> p.number > 0)
      modifies `blockDirty, `inodeDirty
      ensures ok ==> Marks(old(blockDirty), blockDirty, Blocks(p.allocation) + l.more)
      ensures ok ==> Marks(old(inodeDirty), inodeDirty, if creating then [p.number - 1] else [])
    {
      hide ChainedOf, Blocks, Covers;
      ghost var before := blockDirty;
      ok, blockDirty := MarkExtentBits(blockDirty, p.allocation, 0);
      if !ok {
        return;
      }
      CoveredIsMarked(before, blockDirty, Blocks(p.allocation));
      if |l.more| != 0 {
        ok, blockDirty := MarkBitmapBit(blockDirty, l.more[0]);
        if !ok {
          return;
        }
      }
      if creating {
        ok, inodeDirty := MarkBitmapBit(inodeDirty, p.number - 1);
      }
    }

    /** Writes the directory entry of a new file and, when the directory grew, its inode. */
    method AddEntry(l: Link, parentSize: nat, ghost parent: Inode) returns (ok: bool, ghost linked: seq<Block>)
      requires Ready() && groupActive && GeometryOk(geo) && TableTyped(geo, disk) && 0 < l.d <= geo.inodeCount
      requires GrownFrom(disk, parent, l.dir, l.k) && l.k / SLOTS_PER_BLOCK < |Blocks(l.dir.extents)|
      requires Chained(l.dir.extents, 0) && forall b :: b in Blocks(l.dir.extents) ==> geo.dataStart <= b
      requires parentSize == parent.size && InodeSlotAt(geo, disk, l.d) == Readable(parent)
      requires l.dir.size == parentSize ==> l.dir == parent
      modifies `cache, `cacheAge, `disk, `history
      ensures Logged() && old(history) <= history
      ensures ok ==> Ready() && EntryWritten(old(disk), linked, Blocks(l.dir.extents), l.k, Entry(l.n, l.name))
      ensures ok ==> RecordWritten(geo, linked, disk, l.d, l.dir) && SameElsewhere(geo, linked, disk, [])
      ensures ok ==> CachedSet(cache) <= old(CachedSet(cache)) + {Blocks(l.dir.extents)[l.k / SLOTS_PER_BLOCK], TableBlock(geo, l.d)}
    {
      hide Logged, CachedSet, CacheOk, WroteThrough, Blocks, ChainedOf, RecordWritten, SafeDisk;
      linked := disk;
      var block := PhysicalBlock(l.dir.extents, l.k / SLOTS_PER_BLOCK);
      assert block in Blocks(l.dir.extents);
      ok := WriteDirent(block, l.k % SLOTS_PER_BLOCK, l.n, l.name);
      if !ok {
        return;
      }
      linked := disk;
      if parentSize < l.dir.size {
        ok := WriteInode(l.d, l.dir);
      } else {
        RecordOutside(geo, old(disk), disk, l.d);
        SameRecord(geo, disk, l.d, l.dir);
      }
    }

    /** Writes the data and the inode of a reserved transaction and marks its bitmap blocks. */
    method PublishFile(req: Request, p: Plan, creating: bool, l: Link, ghost m: Mem) returns (ok: bool)
      requires Ready() && Sound(m) && m.groupActive && Planned(m, req, p) && Chained(p.allocation, 0) && |l.more| <= 1
      requires disk == m.disk && geo == m.geo && cache == m.cache && groupActive
      modifies `blockDirty, `inodeDirty, `cache, `cacheAge, `disk, `history
      ensures Logged() && old(history) <= history
      ensures ok ==> Ready() && FileOut(m, disk, cache, req, p)
      ensures ok ==> ReservationMarked(old(blockDirty), blockDirty, old(inodeDirty), inodeDirty, p, creating, l)
    {
      hide Logged, Sound, CachedSet, CacheOk, WroteThrough, Blocks, ChainedOf, RecordWritten, ImagesStored, Planned, Marks, LiveInodes, SameElsewhere;
      TableFacts(m, req, p);
      ok := WriteData(req, p, m);
      if !ok {
        return;
      }
      ghost var data := disk;
      ok := MarkReserved(p, creating, l);
      if !ok {
        return;
      }
      StillTyped(m, data, req, p);
      ok := WriteInode(p.number, p.inode);
      if ok {
        FileOnDisk(m, data, disk, req, p);
        assert |disk| == |m.disk| by { SameLength(m.geo, m.disk, disk, Blocks(p.allocation)); }
      }
    }

    /** Writes everything a reserved transaction changes on disk: data, inode, directory. */
    method Publish(req: Request, p: Plan, creating: bool, l: Link, parentSize: nat, ghost m: Mem)
      returns (ok: bool, ghost file: seq<Block>, ghost linked: seq<Block>)
      requires Ready() && Sound(m) && m.groupActive && groupActive
      requires Planned(m, req, p) && Chained(p.allocation, 0) && (if creating then LinkPlanned(m, p, l) else l.more == [])
      requires disk == m.disk && geo == m.geo && cache == m.cache
      requires creating ==> parentSize == Inodes(m)[l.d].size
      modifies `blockDirty, `inodeDirty, `cache, `cacheAge, `disk, `history
      ensures Logged() && old(history) <= history
      ensures ok ==> Ready() && Published(m, file, linked, disk, req, p, creating, l)
      ensures ok ==> ReservationMarked(old(blockDirty), blockDirty, old(inodeDirty), inodeDirty, p, creating, l)
      ensures ok ==> CacheTouched(m, cache, p, creating, l)
    {
      hide Logged, Sound, CachedSet, CacheOk, WroteThrough, Blocks, ChainedOf, RecordWritten, ImagesStored, Planned, LinkPlanned, GrownFrom, Marks, LiveInodes, EntryWritten, SameElsewhere;
      file, linked := disk, disk;
      LinkFacts(m, req, p, creating, l);
      ok := PublishFile(req, p, creating, l, m);
      if !ok {
        return;
      }
      file, linked := disk, disk;
      if creating {
        EntryFacts(m, file, req, p, l);
        ok, linked := AddEntry(l, parentSize, Inodes(m)[l.d]);
      }
    }

    /** Returns the retired blocks, updates the counters and marks what changed: afterwards the
        volume is sound again and says what the request asked for. */
    method Settle(req: Request, p: Plan, creating: bool, l: Link, ghost m: Mem, ghost file: seq<Block>, ghost linked: seq<Block>)
      returns (ok: bool)
      requires Ready() && Sound(m) && m.groupActive && Reserved(m, inodeBitmap, blockBitmap, req, p, creating, l)
      requires Now() == m.(inodeBitmap := inodeBitmap, blockBitmap := blockBitmap, inodeDirty := inodeDirty,
                           blockDirty := blockDirty, cache := cache, disk := disk)
      requires Published(m, file, linked, disk, req, p, creating, l)
      requires ReservationMarked(m.blockDirty, blockDirty, m.inodeDirty, inodeDirty, p, creating, l)
      requires CacheTouched(m, cache, p, creating, l)
      modifies `blockBitmap, `freeBlocks, `freeInodes, `sequence, `blockDirty
      ensures ok ==> Sound(Now()) && Outcome(m, Now(), p, creating, l) && NodeOf(disk, p.inode) == NodeOf(file, p.inode)
      ensures ok ==> sequence == m.sequence + 1 && inodeBitmap == old(inodeBitmap)
      ensures ok ==> freeInodes == if creating then m.freeInodes - 1 else m.freeInodes
    {
      hide Logged, Sound, CachedSet, CacheOk, WroteThrough, Blocks, ChainedOf, Planned, LinkPlanned, Published, Marks, LiveInodes, Marked, Outcome, Touched, Covers, NodeOf;
      Counters(m, file, linked, disk, req, p, creating, l);
      var released;
      blockBitmap, released := ReleaseExtents(blockBitmap, p.retired);
      var replacement := BlockCount(p.allocation);
      freeBlocks := freeBlocks + released - (replacement + |l.more|);
      if creating {
        freeInodes := freeInodes - 1;
      }
      sequence := sequence + 1;
      ghost var before := blockDirty;
      ok, blockDirty := MarkExtentBits(blockDirty, p.retired, Replaced(req, p.prior.size).first);
      if ok {
        CoveredIsMarked(before, blockDirty, Blocks(p.retired));
        MarksAdd(m.blockDirty, before, blockDirty, Blocks(p.allocation) + l.more, Blocks(p.retired));
        FinishedSound(m, Now(), file, linked, req, p, creating, l);
      }
    }

    /** Publishes and settles a reserved transaction inside an open group. */
    method Transact(req: Request, p: Plan, creating: bool, l: Link, parentSize: nat, ghost m: Mem) returns (ok: bool)
      requires Ready() && Sound(m) && m.groupActive && Reserved(m, inodeBitmap, blockBitmap, req, p, creating, l)
      requires Now() == m.(inodeBitmap := inodeBitmap, blockBitmap := blockBitmap)
      requires Linking(m, p, creating, l, parentSize)
      modifies `blockBitmap, `freeBlocks, `freeInodes, `sequence, `blockDirty, `inodeDirty, `cache, `cacheAge, `disk, `history
      ensures Logged() && old(history) <= history
      ensures ok ==> Sound(Now()) && Says(Logical(m), Logical(Now()), p.number, creating, l, req)
    {
      hide Logged, Sound, Logical, Blocks, CachedSet, CacheOk, WroteThrough, Planned, LinkPlanned, Published, Outcome, NodeOf, Inodes, Says, Chained, Reserved, Linking, ReservationMarked, CacheTouched;
      ReservedFacts(m, inodeBitmap, blockBitmap, req, p, creating, l, parentSize);
      ghost var file, linked;
      ok, file, linked := Publish(req, p, creating, l, parentSize, m);
      if ok {
        ok := Settle(req, p, creating, l, m, file, linked);
        if ok {
          TransactionSays(m, Now(), old(blockBitmap), file, linked, req, p, creating, l, parentSize);
        }
      }
    }

    /** The commit of a reserved transaction: open a group, publish, settle, and close the group when
        enough transactions are pending. Any failure from here on unmounts the volume. */
    method Commit(req: Request, p: Plan, creating: bool, l: Link, parentSize: nat, ghost base: Mem) returns (ok: bool)
      requires Reserving(base) && mounted && pending < GROUP_COMMIT_LIMIT
      requires Reserved(base, inodeBitmap, blockBitmap, req, p, creating, l)
      requires Linking(base, p, creating, l, parentSize)
      modifies this
      ensures Valid() && geo == old(geo) && old(history) <= history && old(commits) <= commits
      ensures !ok ==> !mounted
      ensures ok ==> mounted && Says(Logical(base), Logical(Now()), p.number, creating, l, req)
      ensures forall s :: s in commits ==> s in old(commits) || Says(Logical(base), s, p.number, creating, l, req)
    {
      hide Logged, Sound, Logical, CacheOk, WroteThrough, Reserved, Linking, LiveInodes, Says;
      ok := BeginGroup(base);
      if !ok {
        return;
      }
      ghost var m := base.(groupActive := true, disk := disk);
      Rebase(base, m, inodeBitmap, blockBitmap, req, p, creating, l, parentSize);
      SoundGeometry(m);
      ok := Transact(req, p, creating, l, parentSize, m);
      if !ok {
        mounted := false;
        return;
      }
      pending := pending + 1;
      if pending >= GROUP_COMMIT_LIMIT {
        ok := SyncLocked();
      }
    }

    // -------------------------------------------------------------- writing

    /** Looks up the file a write is for: its directory, and its inode or room for a new one. */
    method Locate(path: seq<Name>, preserve: bool)
      returns (ok: bool, d: nat, parent: Inode, entry: DirResult, creating: bool, prior: Inode)
      requires Valid() && mounted
      modifies `cache, `cacheAge, `disk, `history
      ensures Valid() && Now() == old(Now()).(cache := cache) && old(history) <= history
      ensures ok ==> path != [] && d in Inodes(Now()) && Inodes(Now())[d] == parent && parent.kind.Directory?
      ensures ok ==> Walk(Files(), geo.rootInode, path[..|path| - 1]) == Reached(d)
      ensures ok ==> Searched(DirSlots(disk, parent), Blocks(parent.extents), path[|path| - 1], entry)
      ensures ok ==> creating == !entry.found
      ensures ok && creating ==> !preserve && prior == NewFile(d) && Walk(Files(), geo.rootInode, path) == Missing
      ensures ok && !creating ==> entry.inode in Inodes(Now()) && Inodes(Now())[entry.inode] == prior && prior.kind.Regular?
      ensures ok && !creating ==> Walk(Files(), geo.rootInode, path) == Reached(entry.inode)
    {
      hide Sound, Logical, Logged, Blocks, DirSlots, Searched, LiveInodes, Walk, Decodable, Nodes;
      entry, creating, prior := DirResult(false, 0, false, 0, 0, 0), false, NewFile(0);
      ok, d, parent := ResolveParent(path);
      if !ok {
        return;
      }
      var name := path[|path| - 1];
      ok, entry := FindDirectoryEntry(parent, name, d);
      if !ok {
        return;
      }
      creating := !entry.found;
      LastStep(Now(), path, d, entry);
      if entry.found {
        ok, prior := ReadInode(entry.inode);
        LiveRecord(Now(), entry.inode);
        ok := ok && prior.kind.Regular?;
      } else {
        prior := NewFile(d);
        ok := !preserve;
      }
    }

    /** The write transaction: all or nothing while the volume stays mounted. A success means the
        file the path names was replaced, or a new one created in its directory, and nothing else
        changed. */
    method WriteTransaction(path: seq<Name>, req: Request) returns (ok: bool)
      requires Valid() && mounted
      requires if req.preserve then req.offset + |req.buffer| <= req.finalSize
               else req.offset == 0 && |req.buffer| == req.finalSize
      modifies this
      ensures Valid() && geo == old(geo) && old(history) <= history && old(commits) <= commits
      ensures !ok && mounted ==> Now() == old(Now()).(cache := cache, disk := disk) && pending == old(pending)
      ensures !ok && mounted ==> Logical(Now()) == old(Logical(Now()))
      ensures ok ==> mounted
      ensures ok ==> Answers(old(Logical(Now())), Logical(Now()), geo.rootInode, path, req)
      ensures forall s :: s in commits ==> s in old(commits) || Answers(old(Logical(Now())), s, geo.rootInode, path, req)
    {
      hide Sound, Logical, Logged, Blocks, DirSlots, Searched, LiveInodes, Walk, Nodes, Reserved, Linking, Says, Answers, Vacant, NewNumber, Replaced;
      ghost var m := Now();
      var d, parent, entry, creating, prior;
      ok, d, parent, entry, creating, prior := Locate(path, req.preserve);
      CacheDoesNotMatter(m, Now());
      if !ok {
        return;
      }
      if req.preserve && req.finalSize < prior.size {
        return false;
      }
      if req.preserve && |req.buffer| == 0 {
        ok := req.finalSize == prior.size;
        if ok {
          NothingToDo(m, Now(), path, req, entry.inode);
        }
        return;
      }
      var p, l;
      ok, p, l := Reserve(req, entry.inode, prior, creating, d, parent, entry, path[|path| - 1]);
      if !ok {
        return;
      }
      ghost var base := Now().(inodeBitmap := m.inodeBitmap, blockBitmap := m.blockBitmap);
      LinkingHere(m.(cache := cache), base, p, creating, l, parent);
      ok := Commit(req, p, creating, l, parent.size, base);
      forall s | Says(Logical(base), s, p.number, creating, l, req)
        ensures Answers(Logical(m), s, m.geo.rootInode, path, req)
      {
        Answered(m, base, s, path, req, d, p, creating, l);
      }
    }

    /** Replaces the whole file at `path`, or creates it. */
    method WriteFile(path: seq<Name>, buffer: seq<Byte>, readOnly: bool) returns (ok: bool)
      requires Valid()
      modifies this
      ensures Valid() && geo == old(geo) && old(history) <= history && old(commits) <= commits
      ensures ok ==> old(mounted) && mounted && !readOnly
      ensures !ok && mounted ==> Now() == old(Now()).(cache := cache, disk := disk) && Logical(Now()) == old(Logical(Now()))
      ensures ok ==> Answers(old(Logical(Now())), Logical(Now()), geo.rootInode, path, Request(0, buffer, |buffer|, false))
      ensures forall s :: s in commits ==> s in old(commits) || Answers(old(Logical(Now())), s, geo.rootInode, path, Request(0, buffer, |buffer|, false))
    {
      hide Sound, Logical, Logged, Answers;
      if !mounted || readOnly {
        return false;
      }
      var req := Request(0, buffer, |buffer|, false);
      ok := WriteTransaction(path, req);
    }

    /** Writes `buffer` at `offset` of an existing file and sets its size to `finalSize`. */
    method WriteRange(path: seq<Name>, offset: nat, buffer: seq<Byte>, finalSize: nat, readOnly: bool) returns (ok: bool)
      requires Valid()
      modifies this
      ensures Valid() && geo == old(geo) && old(history) <= history && old(commits) <= commits
      ensures ok ==> old(mounted) && mounted && !readOnly && offset + |buffer| <= finalSize
      ensures !ok && mounted ==> Now() == old(Now()).(cache := cache, disk := disk) && Logical(Now()) == old(Logical(Now()))
      ensures ok ==> Answers(old(Logical(Now())), Logical(Now()), geo.rootInode, path, Request(offset, buffer, finalSize, true))
      ensures forall s :: s in commits ==> s in old(commits) || Answers(old(Logical(Now())), s, geo.rootInode, path, Request(offset, buffer, finalSize, true))
    {
      hide Sound, Logical, Logged, Answers;
      if !mounted || readOnly || offset > finalSize || |buffer| > finalSize - offset {
        return false;
      }
      ok := WriteTransaction(path, Request(offset, buffer, finalSize, true));
    }

    // -------------------------------------------------------------- reading

    /** Copies the bytes of a file from `offset`, block by block, at most `capacity` of them. */
    method ReadInodeRange(inode: Inode, offset: nat, capacity: nat) returns (ok: bool, output: seq<Byte>)
      requires geo.totalBlocks <= |disk| && Decodable(geo, inode)
      ensures ok ==> output == Window(FileBytes(disk, inode), offset, capacity)
    {
      hide Blocks, ChainedOf, BlocksOf, InArea, FileByte, FileBytes, ByteIn;
      output := [];
      if capacity == 0 || offset >= inode.size {
        return true, [];
      }
      var amount := if inode.size - offset > capacity then capacity else inode.size - offset;
      ghost var bytes := FileBytes(disk, inode);
      while |output| < amount
        invariant |output| <= amount
        invariant output == bytes[offset..offset + |output|]
        decreases amount - |output|
      {
        var at := offset + |output|;
        var physical := PhysicalBlock(inode.extents, at / BLOCK_SIZE);
        if physical == 0 {
          return false, output;
        }
        var block;
        ok, block := ReadBlock(physical);
        if !ok {
          return;
        }
        var inside := at % BLOCK_SIZE;
        var chunk := if BLOCK_SIZE - inside > amount - |output| then amount - |output| else BLOCK_SIZE - inside;
        var piece := CopyBytes(block, inside, chunk);
        PieceOfFile(disk, inode, at, chunk, piece);
        output := output + piece;
      }
      ok := true;
    }

    /** Reads part of the regular file at `path`. */
    method ReadRange(path: seq<Name>, offset: nat, capacity: nat) returns (ok: bool, output: seq<Byte>)
      requires Valid()
      modifies `cache, `cacheAge, `disk, `history
      ensures Valid() && Now() == old(Now()).(cache := cache) && old(history) <= history
      ensures ok ==> mounted
      ensures ok ==> var target := Walk(Files(), geo.rootInode, path);
        && target.Reached? && target.inode in Files() && Files()[target.inode].content.Bytes?
        && output == Window(Files()[target.inode].content.bytes, offset, capacity)
    {
      hide Sound, Logical, Logged, Walk, LiveInodes, Decodable, FileBytes, Window;
      output := [];
      if !mounted {
        return false, [];
      }
      var number, inode;
      ok, number, inode := Resolve(path);
      if !ok || !inode.kind.Regular? {
        return false, [];
      }
      SoundGeometry(Now());
      LiveIsDecodable(Now(), number);
      ok, output := ReadInodeRange(inode, offset, capacity);
    }

    /** Makes every pending transaction durable. */
    method Sync() returns (ok: bool)
      requires Valid()
      modifies this
      ensures Valid() && geo == old(geo) && old(history) <= history && old(commits) <= commits
      ensures ok <==> mounted
      ensures ok ==> !groupActive && Logical(Now()) == old(Logical(Now())) && Logical(Now()) in commits
      ensures commits <= old(commits) + {old(Logical(Now()))}
      ensures ok ==> Mountable(disk) && DiskSnapshot(disk) == Logical(Now())
    {
      hide Sound, Logical, Logged, Mountable, DiskSnapshot;
      ok := SyncLocked();
      if ok {
        ClosedGroupIsOnDisk(Now());
      }
    }

    /** Between groups the disk says what memory says, so the log of disks and commits may start anew here. */
    ghost method StartLog()
      requires Valid() && mounted && !groupActive
      modifies `history, `commits
      ensures Valid() && history == [disk] && commits == {Logical(Now())}
    {
      hide Sound, Logical, Mountable, DiskSnapshot, DiskConsistent, CrashSafe;
      ClosedGroupIsOnDisk(Now());
      history, commits := [disk], {Logical(Now())};
      SoleCommit(disk, commits);
    }

    // -------------------------------------------------------------- mounting

    /** Reads a bitmap from its blocks. */
    method LoadBitmap(start: nat, blocks: nat) returns (ok: bool, bits: seq<bool>)
      requires geo.totalBlocks <= |disk|
      ensures ok ==> start + blocks <= |disk| && bits == LoadedBits(disk, start, blocks)
    {
      hide BitsIn, Mountable;
      bits := [];
      var i := 0;
      while i < blocks
        invariant 0 <= i <= blocks
        invariant i > 0 ==> start + i <= |disk|
        invariant i == 0 ==> bits == []
        invariant i > 0 ==> bits == LoadedBits(disk, start, i)
      {
        var block;
        ok, block := ReadBlock(start + i);
        if !ok {
          return;
        }
        bits := bits + BitsIn(block);
        i := i + 1;
      }
      ok := start + blocks <= |disk|;
    }

    /** Reads the superblocks: the primary must be CLEAN with a sane layout and equal to the backup. */
    method ReadSuper() returns (ok: bool, s: Superblock)
      requires geo.totalBlocks == |disk|
      ensures ok ==> |disk| > 0 && disk[0] == Super(s) && s.state == Clean && GeometryOk(s.geometry)
      ensures ok ==> s.geometry.totalBlocks <= |disk| && disk[s.geometry.backupBlock] == disk[0]
      ensures ok ==> s.freeBlocks <= s.geometry.totalBlocks && s.freeInodes <= s.geometry.inodeCount
    {
      var block, backup;
      s := Superblock(Dirty, geo, 0, 0, 0);
      ok, block := ReadBlock(0);
      if !ok || !block.Super? || block.superblock.state != Clean {
        return false, s;
      }
      s := block.superblock;
      var g := s.geometry;
      if g.totalBlocks == 0 || g.totalBlocks > geo.totalBlocks || !GeometryOk(g) ||
         s.freeBlocks > g.totalBlocks || s.freeInodes > g.inodeCount {
        return false, s;
      }
      ok, backup := ReadBlock(g.backupBlock);
      ok := ok && backup == block;
    }

    /** Forgets the previous mount. */
    method Reset()
      modifies this
      ensures disk == old(disk) && !mounted && !groupActive && pending == 0 && geo.totalBlocks == |disk|
      ensures |cache| == CACHE_ENTRIES && forall i :: 0 <= i < |cache| ==> !cache[i].valid
      ensures history == [disk] && commits == if Mountable(disk) then {DiskSnapshot(disk)} else {}
    {
      hide DiskSnapshot, Mountable;
      mounted := false;
      groupActive, pending, cacheAge := false, 0, 0;
      cache := seq(CACHE_ENTRIES, _ => CacheEntry(false, false, 0, 0, Data([])));
      geo := geo.(totalBlocks := |disk|);
      history := [disk];
      commits := if Mountable(disk) then {DiskSnapshot(disk)} else {};
    }

    /** Loads counters and bitmaps. */
    method LoadBitmaps(s: Superblock) returns (ok: bool)
      requires s.geometry.totalBlocks <= |disk|
      modifies `geo, `freeBlocks, `freeInodes, `sequence, `inodeBitmap, `blockBitmap, `inodeDirty, `blockDirty
      ensures ok ==> LoadedMaps(Now(), s)
      ensures geo == s.geometry
    {
      hide LoadedBits;
      geo, freeBlocks, freeInodes, sequence := s.geometry, s.freeBlocks, s.freeInodes, s.sequence;
      var inodeBits, blockBits;
      ok, inodeBits := LoadBitmap(geo.inodeBitmapStart, geo.inodeBitmapBlocks);
      if !ok {
        return;
      }
      ok, blockBits := LoadBitmap(geo.blockBitmapStart, geo.blockBitmapBlocks);
      if !ok {
        return;
      }
      inodeBitmap, blockBitmap := inodeBits, blockBits;
      inodeDirty := seq(geo.inodeBitmapBlocks, _ => false);
      blockDirty := seq(geo.blockBitmapBlocks, _ => false);
    }

    /** Reads the root inode, which is the first block cached. */
    method ReadRoot() returns (ok: bool)
      requires GeometryOk(geo) && geo.totalBlocks <= |disk|
      requires |cache| == CACHE_ENTRIES && forall i :: 0 <= i < |cache| ==> !cache[i].valid
      modifies `cache, `cacheAge
      ensures ok ==> LoadedCache(geo, cache, disk) && RootOk(geo, disk)
    {
      hide Decodable, GeometryOk;
      RootRecord(geo, disk);
      var table := geo.inodeTableStart + (geo.rootInode - 1) / 16;
      var block;
      ok, block := ReadBlock(table);
      if !ok {
        return;
      }
      cacheAge := cacheAge + 1;
      cache := cache[0 := CacheEntry(true, false, table, cacheAge, block)];
      var slot := SlotIn(block, (geo.rootInode - 1) % 16);
      if slot.Unreadable? || !slot.inode.kind.Directory? {
        return false;
      }
      ok := DecodeInode(geo, slot.inode);
    }

    /** Reads superblock, bitmaps and root inode, and checks them. */
    method LoadVolume() returns (ok: bool)
      requires geo.totalBlocks == |disk| && !groupActive
      requires |cache| == CACHE_ENTRIES && forall i :: 0 <= i < |cache| ==> !cache[i].valid
      modifies `geo, `freeBlocks, `freeInodes, `sequence, `inodeBitmap, `blockBitmap, `inodeDirty, `blockDirty, `cache, `cacheAge
      ensures ok ==> Mountable(disk) && Logical(Now()) == DiskSnapshot(disk) && geo == disk[0].superblock.geometry
      ensures ok && DiskConsistent(disk) ==> Sound(Now())
    {
      hide Logical, DiskSnapshot, DiskConsistent, Sound, Mountable, LoadedBits, LoadedCache, RootOk, GeometryOk;
      var s;
      ok, s := ReadSuper();
      if !ok {
        return;
      }
      ok := LoadBitmaps(s);
      if !ok {
        return;
      }
      ok := ReadRoot();
      if !ok {
        return;
      }
      MountedSnapshot(Now(), s);
      if DiskConsistent(disk) {
        MountedSound(Now(), s);
      }
    }

    /** Mounts the volume on the disk. Nothing is written. A disk that fails a check is refused; an
        accepted consistent volume is sound and is what `DiskSnapshot` says. */
    method Mount() returns (ok: bool)
      modifies this
      ensures disk == old(disk) && mounted == ok && history == [disk]
      ensures ok ==> Mountable(disk) && Logical(Now()) == DiskSnapshot(disk) && commits == {Logical(Now())}
      ensures ok ==> geo == disk[0].superblock.geometry
      ensures (Mountable(disk) ==> DiskConsistent(disk)) ==> Valid()
    {
      hide Logical, DiskSnapshot, DiskConsistent, Sound, Mountable, CrashSafe;
      Reset();
      SoleCommit(disk, commits);
      ok := LoadVolume();
      mounted := ok;
    }

    /** A machine that lost power at any moment and mounts again either is refused or finds exactly
        a committed state, consistent and ready for use. */
    method Recover(image: seq<Block>) returns (ok: bool)
      requires Logged() && image in history
      modifies this
      ensures Valid() && disk == image && mounted == ok
      ensures ok ==> Logical(Now()) in old(commits)
    {
      hide Logical, DiskSnapshot, DiskConsistent, Sound, Mountable;
      ghost var i :| 0 <= i < |history| && history[i] == image;
      assert SafeDisk(image, commits);
      disk := image;
      ok := Mount();
    }
  }

  /** Data and inode record of a transaction are on disk. */
  ghost predicate FileOut(m: Mem, disk': seq<Block>, cache': seq<CacheEntry>, req: Request, p: Plan) {
    && p.number > 0 && TableTyped(m.geo, disk') && |disk'| == |m.disk|
    && RecordWritten(m.geo, m.disk, disk', p.number, p.inode) && ImagesStored(m, disk', req, p)
    && SameElsewhere(m.geo, m.disk, disk', Blocks(p.allocation))
    && CachedSet(cache') <= CachedSet(m.cache) + {TableBlock(m.geo, p.number)}
  }

  /** The bitmap blocks of what a transaction reserved are marked. */
  ghost predicate ReservationMarked(blocks: seq<bool>, blocks': seq<bool>, inodes: seq<bool>, inodes': seq<bool>,
                                    p: Plan, creating: bool, l: Link)
  {
    && p.number > 0 && Marks(blocks, blocks', Blocks(p.allocation) + l.more)
    && Marks(inodes, inodes', if creating then [p.number - 1] else [])
  }

  /** Nothing is cached but what was and what the transaction writes. */
  ghost predicate CacheTouched(m: Mem, cache': seq<CacheEntry>, p: Plan, creating: bool, l: Link) {
    && p.number > 0 && (creating ==> l.d > 0 && l.k / SLOTS_PER_BLOCK < |Blocks(l.dir.extents)|)
    && CachedSet(cache') <= CachedSet(m.cache) + Touched(m.geo, p, creating, l)
  }

  lemma SoleCommit(disk: seq<Block>, commits: set<Snapshot>)
    requires Mountable(disk) ==> commits == {DiskSnapshot(disk)}
    ensures (Mountable(disk) ==> DiskConsistent(disk)) ==> CrashSafe([disk], commits)
  {
    hide Mountable, DiskSnapshot, DiskConsistent;
  }

  lemma RootRecord(g: Geometry, disk: seq<Block>)
    requires GeometryOk(g) && g.totalBlocks <= |disk|
    ensures 0 < g.rootInode <= g.inodeCount && 0 < TableBlock(g, g.rootInode) < |disk|
    ensures g.inodeTableStart <= TableBlock(g, g.rootInode) < g.dataStart
  {
  }

  /** The counters and bitmaps in memory right after a mount. */
  ghost predicate LoadedMaps(m: Mem, s: Superblock) {
    && m.geo == s.geometry && m.freeBlocks == s.freeBlocks && m.freeInodes == s.freeInodes && m.sequence == s.sequence
    && m.geo.inodeBitmapStart + m.geo.inodeBitmapBlocks <= |m.disk| && m.geo.blockBitmapStart + m.geo.blockBitmapBlocks <= |m.disk|
    && m.inodeBitmap == LoadedBits(m.disk, m.geo.inodeBitmapStart, m.geo.inodeBitmapBlocks)
    && m.blockBitmap == LoadedBits(m.disk, m.geo.blockBitmapStart, m.geo.blockBitmapBlocks)
    && m.inodeDirty == seq(m.geo.inodeBitmapBlocks, _ => false) && m.blockDirty == seq(m.geo.blockBitmapBlocks, _ => false)
  }

  /** The cache right after a mount. */
  ghost predicate LoadedCache(g: Geometry, cache: seq<CacheEntry>, disk: seq<Block>) {
    && |cache| == CACHE_ENTRIES && (forall i :: 0 < i < |cache| ==> !cache[i].valid)
    && var entry := cache[0];
    && entry.valid && !entry.dirty && g.inodeTableStart <= entry.block < g.dataStart && 0 < entry.block < |disk|
    && entry.data == disk[entry.block]
  }

  ghost predicate RootOk(g: Geometry, disk: seq<Block>) {
    var root := InodeSlotAt(g, disk, g.rootInode);
    root.Readable? && Decodable(g, root.inode) && root.inode.kind.Directory?
  }

  /** A freshly mounted state is what the disk says. */
  lemma MountedSnapshot(m: Mem, s: Superblock)
    requires |m.disk| > 0 && m.disk[0] == Super(s) && s.state == Clean && GeometryOk(s.geometry)
    requires s.geometry.totalBlocks <= |m.disk| && m.disk[s.geometry.backupBlock] == m.disk[0]
    requires s.freeBlocks <= s.geometry.totalBlocks && s.freeInodes <= s.geometry.inodeCount
    requires LoadedMaps(m, s) && RootOk(m.geo, m.disk)
    ensures Mountable(m.disk) && Logical(m) == DiskSnapshot(m.disk)
  {
    hide LiveInodes, Decodable, LoadedBits;
  }

  /** ... and sound, if that is consistent. */
  lemma MountedSound(m: Mem, s: Superblock)
    requires Mountable(m.disk) && DiskConsistent(m.disk) && m.disk[0] == Super(s) && !m.groupActive
    requires LoadedMaps(m, s) && LoadedCache(m.geo, m.cache, m.disk)
    ensures Sound(m)
  {
    hide LiveInodes, Consistent, LoadedBits, Synced;
    LoadedIsSynced(m.disk, m.geo.inodeBitmapStart, m.geo.inodeBitmapBlocks);
    LoadedIsSynced(m.disk, m.geo.blockBitmapStart, m.geo.blockBitmapBlocks);
    assert CacheShape(m.cache);
  }

  /** Copies `count` bytes of a block. */
  method CopyBytes(block: Block, start: nat, count: nat) returns (piece: seq<Byte>)
    ensures |piece| == count && forall i :: 0 <= i < count ==> piece[i] == ByteIn(block, start + i)
  {
    piece := [];
    while |piece| < count
      invariant |piece| <= count
      invariant forall i :: 0 <= i < |piece| ==> piece[i] == ByteIn(block, start + i)
      decreases count - |piece|
    {
      piece := piece + [ByteIn(block, start + |piece|)];
    }
  }

  /** At most `capacity` elements of `bytes` from `offset` on. */
  function Window(bytes: seq<Byte>, offset: nat, capacity: nat): seq<Byte> {
    if offset >= |bytes| then []
    else if capacity < |bytes| - offset then bytes[offset..offset + capacity]
    else bytes[offset..]
  }

  /** Inside one block, file bytes are block bytes. */
  lemma PieceOfFile(disk: seq<Block>, inode: Inode, at: nat, chunk: nat, piece: seq<Byte>)
    requires var blocks := Blocks(inode.extents); at / BLOCK_SIZE < |blocks| && blocks[at / BLOCK_SIZE] < |disk|
    requires at % BLOCK_SIZE + chunk <= BLOCK_SIZE && at + chunk <= inode.size && |piece| == chunk
    requires forall i :: 0 <= i < chunk ==>
      piece[i] == ByteIn(disk[Blocks(inode.extents)[at / BLOCK_SIZE]], at % BLOCK_SIZE + i)
    ensures piece == FileBytes(disk, inode)[at..at + chunk]
  {
    hide Blocks;
    forall i | 0 <= i < chunk
      ensures piece[i] == FileBytes(disk, inode)[at + i]
    {
      assert (at + i) / BLOCK_SIZE == at / BLOCK_SIZE && (at + i) % BLOCK_SIZE == at % BLOCK_SIZE + i;
    }
  }

  lemma LiveIsDecodable(m: Mem, n: nat)
    requires Sound(m) && n in Inodes(m)
    ensures Decodable(m.geo, Inodes(m)[n])
  {
    hide LiveInodes, Decodable;
    assert InodeOk(m.geo, m.disk, Inodes(m), n);
  }

  /** A new file's number and slot are the lowest free ones. */
  ghost predicate Linking(m: Mem, p: Plan, creating: bool, l: Link, parentSize: nat) {
    creating ==>
      && l.d in Inodes(m) && parentSize == Inodes(m)[l.d].size
      && NewNumber(m.inodeBitmap, p.number) && p.prior == NewFile(l.d)
      && Vacant(DirSlots(m.disk, Inodes(m)[l.d]), l.k)
  }

  lemma CacheDoesNotMatter(m: Mem, m': Mem)
    requires m' == m.(cache := m'.cache)
    ensures Logical(m') == Logical(m) && Inodes(m') == Inodes(m)
  {
  }

  /** The last component: found, or missing. */
  lemma LastStep(m: Mem, path: seq<Name>, d: nat, r: DirResult)
    requires Sound(m) && path != [] && d in Inodes(m) && Inodes(m)[d].kind.Directory?
    requires Walk(Nodes(m.disk, Inodes(m)), m.geo.rootInode, path[..|path| - 1]) == Reached(d)
    requires Searched(DirSlots(m.disk, Inodes(m)[d]), Blocks(Inodes(m)[d].extents), path[|path| - 1], r)
    ensures r.found ==> r.inode in Inodes(m)
    ensures Walk(Nodes(m.disk, Inodes(m)), m.geo.rootInode, path) == if r.found then Reached(r.inode) else Missing
  {
    hide LiveInodes, Sound, Blocks, DirSlots, Walk;
    var nodes := Nodes(m.disk, Inodes(m));
    var i := |path| - 1;
    assert path[..i + 1] == path;
    WalkSnoc(nodes, m.geo.rootInode, path, i, d);
    WalkOne(nodes, d, path[i]);
    if r.found {
      Descend(m, d, path[i], r);
    }
  }

  lemma NothingToDo(m: Mem, m': Mem, path: seq<Name>, req: Request, n: nat)
    requires m' == m.(cache := m'.cache) && n in Inodes(m) && Inodes(m)[n].size == req.finalSize
    requires req.preserve && req.buffer == []
    requires Walk(Nodes(m.disk, Inodes(m)), m.geo.rootInode, path) == Reached(n)
    ensures Answers(Logical(m), Logical(m'), m.geo.rootInode, path, req)
  {
    hide LiveInodes, Walk;
  }

  lemma LinkingHere(m: Mem, base: Mem, p: Plan, creating: bool, l: Link, parent: Inode)
    requires base == m.(disk := base.disk) && Inodes(base) == Inodes(m) && Logical(base) == Logical(m)
    requires l.d in Inodes(m) && Inodes(m)[l.d] == parent && parent.kind.Directory? && (creating ==> p.prior == NewFile(l.d))
    requires creating ==> NewNumber(m.inodeBitmap, p.number) && Vacant(DirSlots(m.disk, parent), l.k)
    ensures Linking(base, p, creating, l, parent.size)
  {
    hide LiveInodes, Logical, DirSlots, NewNumber, Vacant;
    SlotsUnchanged(m, base, l.d);
  }

  /** A commit's result answers the request. */
  lemma Answered(m: Mem, base: Mem, s': Snapshot, path: seq<Name>, req: Request, d: nat, p: Plan, creating: bool, l: Link)
    requires Logical(base) == Logical(m) && Inodes(base) == Inodes(m) && path != [] && l.d == d
    requires Says(Logical(base), s', p.number, creating, l, req)
    requires creating ==> l.name == path[|path| - 1] && !req.preserve
    requires var nodes := Nodes(m.disk, Inodes(m));
      && Walk(nodes, m.geo.rootInode, path[..|path| - 1]) == Reached(d)
      && Walk(nodes, m.geo.rootInode, path) == if creating then Missing else Reached(p.number)
    requires !creating ==> !(req.preserve && req.buffer == []) && p.number in Inodes(m) && Inodes(m)[p.number] == p.prior
    ensures Answers(Logical(m), s', m.geo.rootInode, path, req)
  {
    hide LiveInodes, Walk, Replaces, Created, Nodes;
    assert Logical(m).nodes == Nodes(m.disk, Inodes(m));
  }

  /** What a successful write says: the file was replaced, or created. */
  ghost predicate Says(s: Snapshot, s': Snapshot, n: nat, creating: bool, l: Link, req: Request) {
    if creating then Created(s, s', l.d, l.name, n, l.k, req) else Replaces(s, s', n, req)
  }

  /** Opening the group changed nothing the plan rests on. */
  lemma Rebase(base: Mem, m: Mem, inodeBitmap: seq<bool>, blockBitmap: seq<bool>,
               req: Request, p: Plan, creating: bool, l: Link, parentSize: nat)
    requires Sound(base) && m == base.(groupActive := true, disk := m.disk) && |m.disk| == |base.disk|
    requires Logical(m) == Logical(base) && Inodes(m) == Inodes(base)
    requires forall b :: m.geo.inodeTableStart <= b < m.geo.backupBlock && b < |m.disk| ==> m.disk[b] == base.disk[b]
    requires Reserved(base, inodeBitmap, blockBitmap, req, p, creating, l) && Linking(base, p, creating, l, parentSize)
    ensures Reserved(m, inodeBitmap, blockBitmap, req, p, creating, l) && Linking(m, p, creating, l, parentSize)
  {
    hide Inodes, Sound, Logical, Blocks, Spliced, Chained, DirSlots, LinkPlanned, Marked, NewNumber, Vacant;
    if creating {
      LinkDirectoryKind(base, p, l);
      SlotsUnchanged(base, m, l.d);
      LinkRebased(base, m, p, l);
    }
  }

  lemma LinkDirectoryKind(m: Mem, p: Plan, l: Link)
    requires Sound(m) && LinkPlanned(m, p, l)
    ensures l.d in Inodes(m) && Inodes(m)[l.d].kind.Directory?
  {
    hide Sound, Inodes, Blocks, Chained;
  }

  lemma LinkRebased(base: Mem, m: Mem, p: Plan, l: Link)
    requires Sound(base) && LinkPlanned(base, p, l) && Fresh(base, Blocks(p.allocation))
    requires m == base.(groupActive := true, disk := m.disk) && |m.disk| == |base.disk| && Inodes(m) == Inodes(base)
    requires forall b :: m.geo.inodeTableStart <= b < m.geo.backupBlock && b < |m.disk| ==> m.disk[b] == base.disk[b]
    ensures LinkPlanned(m, p, l)
  {
    hide LiveInodes, Blocks, Consistent, Distinct, Chained, Coherent, BitmapsSynced, SuperSound, DirSlots;
    ConsistentIsVol(base);
    SoundGeometry(base);
    forall b | b in Blocks(l.dir.extents)
      ensures b < |base.disk| && m.disk[b] == base.disk[b]
    {
      LinkBlockKept(base, p, l, b);
      LinkBlockBelow(base, p, l, b);
    }
  }

  /** The finished state says what the request asked for. */
  lemma SaysWhat(m: Mem, m': Mem, file: seq<Block>, req: Request, p: Plan, creating: bool, l: Link)
    requires Vol(m) && Planned(m, req, p) && (creating ==> LinkPlanned(m, p, l)) && (creating <==> p.number !in Inodes(m))
    requires Outcome(m, m', p, creating, l) && ImagesStored(m, file, req, p) && NodeOf(m'.disk, p.inode) == NodeOf(file, p.inode)
    requires p.inode == p.prior.(size := req.finalSize, extents := p.inode.extents) && 0 < p.number <= |m.inodeBitmap|
    requires m'.sequence == m.sequence + 1
    requires m'.inodeBitmap == if creating then m.inodeBitmap[p.number - 1 := true] else m.inodeBitmap
    requires if creating then m'.freeInodes + 1 == m.freeInodes else m'.freeInodes == m.freeInodes
    requires creating ==> NewNumber(m.inodeBitmap, p.number) && Vacant(DirSlots(m.disk, Inodes(m)[l.d]), l.k) && p.prior == NewFile(l.d)
    ensures Says(Logical(m), Logical(m'), p.number, creating, l, req)
  {
    hide LiveInodes, Blocks, Vol, Logical, ImagesStored, Outcome, Replaces, Created, NewNumber, Vacant, DirSlots, Spliced, Fresh, GrownFrom, Chained;
    PlannedIsSpliced(m, req, p);
    SplicedFacts(req, p);
    WrittenBytes(m, file, req, p);
    assert Bytes(FileBytes(m'.disk, p.inode), Slack(m'.disk, p.inode)) == Bytes(FileBytes(file, p.inode), Slack(file, p.inode));
    if creating {
      WholeFile(FileBytes(m.disk, p.prior), Slack(m.disk, p.prior), req);
      LinkDirectory(m, p, l);
      OutcomeOfCreating(m, m', req, p, l);
    } else {
      OutcomeOfReplacing(m, m', req, p, l);
    }
  }

  lemma ReservedFacts(m: Mem, inodeBitmap: seq<bool>, blockBitmap: seq<bool>, req: Request, p: Plan, creating: bool, l: Link, parentSize: nat)
    requires Reserved(m, inodeBitmap, blockBitmap, req, p, creating, l) && Linking(m, p, creating, l, parentSize)
    ensures Planned(m, req, p) && Chained(p.allocation, 0) && (if creating then LinkPlanned(m, p, l) else l.more == [])
    ensures creating ==> l.d in Inodes(m) && parentSize == Inodes(m)[l.d].size
  {
    hide Planned, LinkPlanned, LiveInodes, Blocks, ChainedOf;
  }

  lemma TransactionSays(m: Mem, m': Mem, blockBitmap: seq<bool>, file: seq<Block>, linked: seq<Block>, req: Request, p: Plan,
                        creating: bool, l: Link, parentSize: nat)
    requires Sound(m) && Reserved(m, m'.inodeBitmap, blockBitmap, req, p, creating, l) && Linking(m, p, creating, l, parentSize)
    requires Published(m, file, linked, m'.disk, req, p, creating, l) && Outcome(m, m', p, creating, l)
    requires NodeOf(m'.disk, p.inode) == NodeOf(file, p.inode) && m'.sequence == m.sequence + 1
    requires if creating then m'.freeInodes + 1 == m.freeInodes else m'.freeInodes == m.freeInodes
    ensures Says(Logical(m), Logical(m'), p.number, creating, l, req)
  {
    hide Planned, LinkPlanned, LiveInodes, Blocks, ChainedOf, Sound, Outcome, NodeOf, Published, Says, NewNumber, Vacant, DirSlots, Marked;
    ConsistentIsVol(m);
    PublishedImages(m, file, linked, m'.disk, req, p, creating, l);
    SaysWhat(m, m', file, req, p, creating, l);
  }

  lemma PublishedImages(m: Mem, file: seq<Block>, linked: seq<Block>, disk': seq<Block>, req: Request, p: Plan, creating: bool, l: Link)
    requires Published(m, file, linked, disk', req, p, creating, l)
    ensures ImagesStored(m, file, req, p) && p.number > 0
  {
  }

  lemma SplicedFacts(req: Request, p: Plan)
    requires Spliced(req, p)
    ensures Acceptable(req, p.prior.size) && p.inode.kind.Regular?
    ensures !req.preserve ==> |req.buffer| == req.finalSize
  {
  }

  lemma LinkDirectory(m: Mem, p: Plan, l: Link)
    requires LinkPlanned(m, p, l)
    ensures Inodes(m)[l.d].kind.Directory? && l.dir.kind.Directory? && l.d != p.number
  {
  }

  /** Blocks marked in two steps. */
  lemma MarksAdd(a: seq<bool>, b: seq<bool>, c: seq<bool>, x: seq<nat>, y: seq<nat>)
    requires Marks(a, b, x) && Marks(b, c, y)
    ensures Marks(a, c, x + y)
  {
  }

  /** The counters cannot underflow and the retired blocks have bits. */
  lemma Counters(m: Mem, file: seq<Block>, linked: seq<Block>, disk': seq<Block>, req: Request, p: Plan, creating: bool, l: Link)
    requires Sound(m) && Planned(m, req, p) && p.number <= |m.inodeBitmap|
    requires (if creating then LinkPlanned(m, p, l) else l.more == []) && (creating <==> p.number !in Inodes(m))
    requires Published(m, file, linked, disk', req, p, creating, l)
    ensures p.number > 0
    ensures m.freeBlocks + |Blocks(p.retired)| >= |Blocks(p.allocation)| + |l.more| && (creating ==> m.freeInodes > 0)
    ensures forall b :: b in Blocks(p.retired) ==> b < |m.blockBitmap|
  {
    hide LiveInodes, Blocks, Consistent, RecordWritten, ImagesStored, Planned, LinkPlanned, Outcome, DirectoriesGrow, Finished;
    ConsistentIsVol(m);
    RetiredInMap(m, req, p);
    if creating {
      PublishedLink(m, file, linked, disk', req, p, l);
    } else {
      PublishedFile(m, file, req, p, l);
    }
  }

  lemma RetiredInMap(m: Mem, req: Request, p: Plan)
    requires Vol(m) && Planned(m, req, p)
    ensures forall b :: b in Blocks(p.retired) ==> b < |m.blockBitmap|
  {
    hide LiveInodes, Blocks, Consistent, NewBlocks, Acceptable;
    PriorOwned(m, req, p);
    RetiredIsPart(req, Blocks(p.prior.extents), Replaced(req, p.prior.size));
  }

  lemma SameLength(g: Geometry, disk: seq<Block>, disk': seq<Block>, taken: seq<nat>)
    requires SameElsewhere(g, disk, disk', taken)
    ensures |disk'| == |disk|
  {
  }

  lemma TableFacts(m: Mem, req: Request, p: Plan)
    requires Sound(m) && Planned(m, req, p)
    ensures p.number > 0 && Vol(m) && GeometryOk(m.geo) && TableTyped(m.geo, m.disk)
  {
    hide Blocks, Coherent, BitmapsSynced, SuperSound;
  }

  lemma StillTyped(m: Mem, data: seq<Block>, req: Request, p: Plan)
    requires Vol(m) && Planned(m, req, p) && |data| == |m.disk| && GeometryOk(m.geo) && TableTyped(m.geo, m.disk)
    requires forall b :: 0 <= b < |data| && b !in Blocks(p.allocation) ==> data[b] == m.disk[b]
    ensures TableTyped(m.geo, data)
  {
    hide Blocks, Spliced, Distinct, Consistent, LiveInodes;
    assert forall b :: m.geo.inodeTableStart <= b < m.geo.dataStart ==> b !in Blocks(p.allocation);
  }

  /** After the file step the directory is as planned and its record is in the table. */
  lemma EntryFacts(m: Mem, file: seq<Block>, req: Request, p: Plan, l: Link)
    requires Sound(m) && Planned(m, req, p) && LinkPlanned(m, p, l)
    requires RecordWritten(m.geo, m.disk, file, p.number, p.inode) && ImagesStored(m, file, req, p)
    requires SameElsewhere(m.geo, m.disk, file, Blocks(p.allocation))
    ensures GrownFrom(file, Inodes(m)[l.d], l.dir, l.k)
    ensures InodeSlotAt(m.geo, file, l.d) == Readable(Inodes(m)[l.d])
  {
    hide LiveInodes, Blocks, Consistent, ImagesStored, Spliced, RecordWritten, Nodes, NodeOf, DirSlots, InodeSlotAt;
    assert Vol(m);
    VolSizes(m);
    UnlinkedFile(m, file, req, p);
    LinkStillPossible(m, file, req, p, l);
    OtherRecord(m.geo, m.disk, file, p.number, p.inode, l.d);
    LiveRecord(m, l.d);
  }

  lemma RecordOutside(g: Geometry, disk: seq<Block>, disk': seq<Block>, n: nat)
    requires GeometryOk(g) && 0 < n <= g.inodeCount && |disk'| == |disk| && g.dataStart <= |disk|
    requires forall b :: g.inodeTableStart <= b < g.dataStart ==> disk'[b] == disk[b]
    ensures InodeSlotAt(g, disk', n) == InodeSlotAt(g, disk, n)
  {
    assert g.inodeTableStart <= TableBlock(g, n) < g.dataStart;
  }

  lemma SplicedForAny(req: Request, p: Plan, n: nat)
    requires Spliced(req, p)
    ensures Spliced(req, p.(number := n))
  {
  }

  lemma FreshAgain(m: Mem, m': Mem, taken: seq<nat>)
    requires Fresh(m, taken) && m'.geo == m.geo && m'.blockBitmap == m.blockBitmap
    ensures Fresh(m', taken)
  {
  }

  function NewFile(parent: nat): Inode {
    Inode(Regular, NEW_FILE_PERMISSIONS, 0, parent, [])
  }

  lemma PriorFacts(m: Mem, n: nat, prior: Inode, creating: bool, d: nat)
    requires Sound(m)
    requires if creating then prior == NewFile(d) else n in Inodes(m) && Inodes(m)[n] == prior && prior.kind.Regular?
    ensures |Blocks(prior.extents)| == CeilDiv(prior.size, BLOCK_SIZE) && Chained(prior.extents, 0)
    ensures m.geo.inodeCount <= |m.inodeBitmap|
    ensures Vol(m)
  {
    hide LiveInodes, Coherent, BitmapsSynced, SuperSound;
    if !creating {
      assert InodeOk(m.geo, m.disk, Inodes(m), n);
    }
  }

  lemma PlanMade(m: Mem, req: Request, p: Plan, creating: bool)
    requires Sound(m) && Spliced(req, p) && Fresh(m, Blocks(p.allocation))
    requires 0 < p.number <= |m.inodeBitmap| && p.number <= m.geo.inodeCount
    requires if creating then p.prior.extents == [] && p.prior.size == 0 && !req.preserve && !m.inodeBitmap[p.number - 1]
             else p.number in Inodes(m) && Inodes(m)[p.number] == p.prior && p.prior.kind.Regular?
    ensures Planned(m, req, p) && (creating <==> p.number !in Inodes(m)) && Vol(m)
  {
    hide Consistent, Spliced, Fresh, Coherent, BitmapsSynced, SuperSound;
  }

  lemma SlotsUnchanged(m: Mem, m': Mem, d: nat)
    requires Logical(m') == Logical(m) && Inodes(m') == Inodes(m) && d in Inodes(m) && Inodes(m)[d].kind.Directory?
    ensures DirSlots(m'.disk, Inodes(m)[d]) == DirSlots(m.disk, Inodes(m)[d])
  {
    hide LiveInodes;
    assert Nodes(m'.disk, Inodes(m))[d] == Nodes(m.disk, Inodes(m))[d];
  }

  /** Taken blocks can be given back. */
  lemma TakenBack(m: Mem, taken: seq<nat>)
    requires Fresh(m, taken)
    ensures Marked(Marked(m.blockBitmap, taken, true), taken, false) == m.blockBitmap
    ensures forall b :: b in taken ==> b < |m.blockBitmap|
  {
  }

  lemma DirectoryExtents(m: Mem, d: nat)
    requires Sound(m) && d in Inodes(m) && Inodes(m)[d].kind.Directory?
    ensures Chained(Inodes(m)[d].extents, 0) && |Inodes(m)[d].extents| <= INLINE_EXTENTS
  {
    hide LiveInodes, Sound, ChainedOf;
    LiveDirectory(m, d);
  }

  lemma FreshFacts(m: Mem, b: nat)
    requires Fresh(m, [b])
    ensures m.geo.dataStart <= b < m.geo.backupBlock && b < |m.blockBitmap| && !m.blockBitmap[b]
  {
    assert b in [b];
  }

  /** A list naming one block is one extent. */
  lemma OneBlock(xs: seq<Extent>)
    requires |Blocks(xs)| == 1 && Chained(xs, 0)
    ensures |xs| == 1 && Blocks(xs) == [xs[0].physical]
  {
    if |xs| >= 2 {
      ChainedAt(xs, 0, |xs|, 0);
      ChainedAt(xs, 0, |xs|, 1);
      BlocksAt(xs, 1, 0);
    } else if |xs| == 1 {
      ChainedAt(xs, 0, |xs|, 0);
      BlocksAt(xs, 0, 0);
    }
  }

  /** A free block may be written at any time. */
  lemma FreeWriteIsSafe(m: Mem, b: nat, data: Block, commits: set<Snapshot>)
    requires Sound(m) && m.geo.dataStart <= b < m.geo.backupBlock && b < |m.blockBitmap| && !m.blockBitmap[b]
    requires m.groupActive || Logical(m) in commits
    ensures b < |m.disk| && SafeDisk(m.disk[b := data], commits)
  {
    hide Sound, Logical, SafeDisk, LiveInodes;
    SoundGeometry(m);
    FreeWrite(m, b, data);
    if m.groupActive {
      DirtyIsSafe(m.disk, b, data, commits);
    } else {
      CommittedIsSafe(m.(disk := m.disk[b := data]), commits);
    }
  }

  /** Every block of the inode table holds sixteen records. */
  ghost predicate TableTyped(g: Geometry, disk: seq<Block>) {
    && g.dataStart <= |disk|
    && forall b :: g.inodeTableStart <= b < g.dataStart ==> disk[b].InodeTable? && |disk[b].slots| == 16
  }

  lemma TableEntry(g: Geometry, disk: seq<Block>, n: nat)
    requires GeometryOk(g) && TableTyped(g, disk) && 0 < n <= g.inodeCount
    ensures 0 < TableBlock(g, n) < |disk| && g.inodeTableStart <= TableBlock(g, n) < g.dataStart
    ensures disk[TableBlock(g, n)].InodeTable? && |disk[TableBlock(g, n)].slots| == 16
  {
    assert g.inodeTableStart <= TableBlock(g, n) < g.dataStart;
  }

  /** What the data loop needs to know of a plan. */
  lemma PlanFacts(m: Mem, req: Request, p: Plan)
    requires Sound(m) && Planned(m, req, p)
    ensures Chained(p.prior.extents, 0) && Chained(p.inode.extents, 0)
    ensures Replaced(req, p.prior.size).first <= Replaced(req, p.prior.size).end <= |Blocks(p.inode.extents)|
    ensures |Blocks(p.prior.extents)| == CeilDiv(p.prior.size, BLOCK_SIZE)
    ensures forall i :: 0 <= i < |Blocks(p.inode.extents)| ==>
      0 < Blocks(p.inode.extents)[i] < m.geo.backupBlock && Blocks(p.inode.extents)[i] < |m.disk|
    ensures forall i, j :: 0 <= i < j < |Blocks(p.inode.extents)| ==> Blocks(p.inode.extents)[i] != Blocks(p.inode.extents)[j]
  {
    hide LiveInodes, Blocks, ChainedOf, BlocksOf, NewBlocks, Consistent;
    SoundGeometry(m);
    assert Vol(m);
    MovedBits(m, req, p);
    assert forall i :: 0 <= i < |Blocks(p.inode.extents)| ==> Blocks(p.inode.extents)[i] in Blocks(p.inode.extents);
    NewBlockCount(req, p.prior.size, Blocks(p.prior.extents), Blocks(p.allocation));
    PriorChained(m, req, p);
  }

  lemma PriorChained(m: Mem, req: Request, p: Plan)
    requires Vol(m) && Planned(m, req, p)
    ensures Chained(p.prior.extents, 0)
  {
    hide LiveInodes, BlocksOf;
    if p.number in Inodes(m) {
      assert InodeOk(m.geo, m.disk, Inodes(m), p.number);
    }
  }

  /** The old block behind logical block `i` is untouched by the writes to fresh blocks. */
  lemma PriorBlock(m: Mem, req: Request, p: Plan, i: nat)
    requires Sound(m) && Planned(m, req, p) && req.preserve && i * BLOCK_SIZE < p.prior.size
    ensures var blocks := Blocks(p.prior.extents);
      && i < |blocks| && blocks[i] < |m.disk| && blocks[i] !in Blocks(p.allocation)
      && OldBlock(m.disk, Kept(req, blocks), i) == m.disk[blocks[i]]
  {
    hide LiveInodes, Blocks, Consistent, NewBlocks;
    assert Vol(m);
    PriorOwned(m, req, p);
    assert Blocks(p.prior.extents)[i] in Blocks(p.prior.extents);
  }

  /** The new block at replaced position `i` is fresh and not cached. */
  lemma FreshTarget(m: Mem, req: Request, p: Plan, i: nat)
    requires Sound(m) && Planned(m, req, p)
    requires Replaced(req, p.prior.size).first <= i < Replaced(req, p.prior.size).end
    ensures var blocks := Blocks(p.inode.extents);
      && i < |blocks| && blocks[i] in Blocks(p.allocation) && blocks[i] !in CachedSet(m.cache)
  {
    hide LiveInodes, Blocks, Consistent, NewBlocks, CachedSet, Distinct;
    PlanFacts(m, req, p);
    var taken := Blocks(p.allocation);
    var r := Replaced(req, p.prior.size);
    NewBlockSource(Kept(req, Blocks(p.prior.extents)), taken, r, i);
    assert taken[i - r.first] in taken;
    FreshNotCached(m, taken[i - r.first]);
  }

  const PARENT_PATH_CAPACITY: nat := 128

  lemma RootIsLive(m: Mem)
    requires Sound(m)
    ensures m.geo.rootInode in Inodes(m)
  {
  }

  lemma WalkNothing(nodes: map<nat, Node>, n: nat)
    ensures Walk(nodes, n, []) == Reached(n)
  {
  }

  /** The record of a live inode is that inode. */
  lemma LiveRecord(m: Mem, n: nat)
    requires n in Inodes(m)
    ensures InodeSlotAt(m.geo, m.disk, n) == Readable(Inodes(m)[n])
  {
  }

  /** An entry found in a directory names a live inode, one step down. */
  lemma Descend(m: Mem, d: nat, name: Name, r: DirResult)
    requires Sound(m) && d in Inodes(m) && Inodes(m)[d].kind.Directory? && r.found
    requires Searched(DirSlots(m.disk, Inodes(m)[d]), Blocks(Inodes(m)[d].extents), name, r)
    ensures r.inode in Inodes(m)
    ensures Walk(Nodes(m.disk, Inodes(m)), d, [name]) == Reached(r.inode)
  {
    hide LiveInodes, Sound, Decodable, Blocks;
    LiveDirectory(m, d);
    WalkOne(Nodes(m.disk, Inodes(m)), d, name);
  }

  function Least(a: nat, b: nat): nat {
    if a < b then a else b
  }

  /** A live directory is in order. */
  lemma LiveDirectory(m: Mem, d: nat)
    requires Sound(m) && d in Inodes(m) && Inodes(m)[d].kind.Directory?
    ensures Decodable(m.geo, Inodes(m)[d]) && DirOk(m.disk, Inodes(m), Inodes(m)[d])
  {
    hide LiveInodes, Decodable, DirOk;
    assert InodeOk(m.geo, m.disk, Inodes(m), d);
  }

  lemma SearchStarts(m: Mem, d: nat, name: Name)
    requires Sound(m) && d in Inodes(m) && Inodes(m)[d].kind.Directory?
    ensures var xs := Inodes(m)[d].extents;
      && |BlocksOf(xs, 0)| == 0 && BlocksOf(xs, |xs|) == Blocks(xs)
      && Inodes(m)[d].size / DIRENT_SIZE <= |Blocks(xs)| * SLOTS_PER_BLOCK
      && |DirSlots(m.disk, Inodes(m)[d])| == Inodes(m)[d].size / DIRENT_SIZE
    ensures Searching(DirSlots(m.disk, Inodes(m)[d]), Blocks(Inodes(m)[d].extents), name, 0, DirResult(false, 0, false, 0, 0, 0))
  {
    hide LiveInodes, Sound, Decodable;
    LiveDirectory(m, d);
  }

  /** The blocks of extent `e` follow those of the extents before it. */
  lemma SearchedExtent(xs: seq<Extent>, e: nat)
    requires e < |xs|
    ensures |BlocksOf(xs, e + 1)| == |BlocksOf(xs, e)| + xs[e].count
  {
  }

  /** Block `b` of extent `e` is cached metadata holding the directory's slots. */
  lemma DirectoryBlock(m: Mem, d: nat, e: nat, b: nat)
    requires Sound(m) && d in Inodes(m) && Inodes(m)[d].kind.Directory?
    requires e < |Inodes(m)[d].extents| && b < Inodes(m)[d].extents[e].count
    ensures var xs := Inodes(m)[d].extents; var logical := |BlocksOf(xs, e)| + b; var physical := xs[e].physical + b;
      && logical < |Blocks(xs)| && Blocks(xs)[logical] == physical
      && IsMetadata(m, physical) && physical < |m.disk|
      && m.disk[physical].Entries? && |m.disk[physical].entries| == SLOTS_PER_BLOCK
    ensures var xs := Inodes(m)[d].extents;
      HoldsSlots(DirSlots(m.disk, Inodes(m)[d]), |BlocksOf(xs, e)| + b, m.disk[xs[e].physical + b].entries)
  {
    hide LiveInodes, Sound, Blocks, BlocksOf, Decodable;
    LiveDirectory(m, d);
    var xs := Inodes(m)[d].extents;
    BlocksAt(xs, e, b);
    assert Owns(Inodes(m), d, xs[e].physical + b);
  }

  /** Nothing matched: either an unused slot was met, or the slot behind the last one is free, or
      the directory is full. */
  lemma SearchMissed(m: Mem, d: nat, name: Name, r: DirResult)
    requires Sound(m) && d in Inodes(m) && Inodes(m)[d].kind.Directory? && !r.found
    requires var inode := Inodes(m)[d]; var slots := DirSlots(m.disk, inode);
      Searching(slots, Blocks(inode.extents), name, |slots|, r)
    ensures var inode := Inodes(m)[d]; var slots := DirSlots(m.disk, inode); var blocks := Blocks(inode.extents);
      && Chained(inode.extents, 0)
      && (r.freeFound ==> Searched(slots, blocks, name, r))
      && (!r.freeFound && inode.size >= |blocks| * BLOCK_SIZE ==> Searched(slots, blocks, name, r))
      && (inode.extents == [] ==> |blocks| == 0)
      && (!r.freeFound && inode.size < |blocks| * BLOCK_SIZE ==>
            && inode.size / BLOCK_SIZE < |blocks| && |slots| == inode.size / DIRENT_SIZE
            && blocks[inode.size / BLOCK_SIZE] > 0
            && Searched(slots, blocks, name,
                 r.(freeFound := true, freeBlock := blocks[inode.size / BLOCK_SIZE],
                    freeSlot := inode.size % BLOCK_SIZE / DIRENT_SIZE, logical := |slots|)))
  {
    hide LiveInodes, Sound, BlocksOf, ChainedOf, Searching, Searched, DirSlot;
    LiveDirectory(m, d);
    SoundGeometry(m);
    var inode := Inodes(m)[d];
    var blocks, slots := Blocks(inode.extents), DirSlots(m.disk, inode);
    NoExtents(inode.extents);
    SearchDone(slots, blocks, name, r);
    if inode.size < |blocks| * BLOCK_SIZE {
      assert blocks[inode.size / BLOCK_SIZE] in blocks;
      assert inode.size / BLOCK_SIZE == |slots| / SLOTS_PER_BLOCK;
      assert inode.size % BLOCK_SIZE / DIRENT_SIZE == |slots| % SLOTS_PER_BLOCK;
    }
  }

  lemma NoExtents(xs: seq<Extent>)
    ensures xs == [] ==> Blocks(xs) == []
  {
  }

  lemma MetadataIsData(m: Mem, b: nat)
    requires Sound(m) && IsMetadata(m, b)
    ensures 0 < b < m.geo.backupBlock
  {
    hide LiveInodes, Consistent, Coherent, BitmapsSynced, SuperSound;
    ConsistentGeometry(m);
    if !(m.geo.inodeTableStart <= b < m.geo.dataStart) {
      var n :| Owns(Inodes(m), n, b) && Inodes(m)[n].kind.Directory?;
      OwnedInArea(m, n, b);
    }
  }

  lemma SoundGeometry(m: Mem)
    requires Sound(m)
    ensures GeometryOk(m.geo) && m.geo.totalBlocks <= |m.disk|
    ensures 0 < m.geo.backupBlock < m.geo.totalBlocks
    ensures m.groupActive ==> SaysDirty(m.disk[0])
    ensures CacheOk(m.cache, m.disk, m.groupActive) && WroteThrough(m.cache, m.disk)
    ensures BitmapsSynced(m)
  {
  }

  /** The disk of a superblock record that says DIRTY refuses to mount. */
  lemma DirtyRecordIsSafe(m: Mem, commits: set<Snapshot>)
    requires Sound(m)
    ensures 0 < m.geo.backupBlock < |m.disk|
    ensures SafeDisk(m.disk[0 := Record(m, Dirty)], commits)
    ensures SafeDisk(m.disk[0 := Record(m, Dirty)][m.geo.backupBlock := Record(m, Dirty)], commits)
  {
    SoundGeometry(m);
  }

  /** A CLEAN primary beside a DIRTY backup refuses to mount. */
  lemma HalfCleanIsSafe(m: Mem, commits: set<Snapshot>)
    requires Sound(m) && m.groupActive
    ensures 0 < m.geo.backupBlock < |m.disk|
    ensures SafeDisk(m.disk[0 := Record(m, Clean)], commits)
  {
    SoundGeometry(m);
  }

  lemma MoreCommits(history: seq<seq<Block>>, commits: set<Snapshot>, more: Snapshot)
    requires CrashSafe(history, commits)
    ensures CrashSafe(history, commits + {more})
  {
    hide Mountable, DiskSnapshot, DiskConsistent;
  }

  lemma CommittedIsSafe(m: Mem, commits: set<Snapshot>)
    requires Sound(m) && !m.groupActive && Logical(m) in commits
    ensures SafeDisk(m.disk, commits)
  {
    hide Sound, Logical, Mountable, DiskSnapshot, DiskConsistent;
    ClosedGroupIsOnDisk(m);
  }

  /** Flushing one bitmap region keeps the volume sound. */
  lemma FlushedInodes(m: Mem, m': Mem)
    requires Sound(m) && m.groupActive
    requires m' == m.(disk := m'.disk, inodeDirty := m'.inodeDirty) && |m'.disk| == |m.disk|
    requires Synced(m'.disk, m.geo.inodeBitmapStart, m.geo.inodeBitmapBlocks, m.inodeBitmap, m'.inodeDirty)
    requires forall b :: 0 <= b < |m.disk| && !(m.geo.inodeBitmapStart <= b < m.geo.inodeBitmapStart + m.geo.inodeBitmapBlocks) ==>
      m'.disk[b] == m.disk[b]
    ensures Sound(m') && Logical(m') == Logical(m)
  {
    hide Consistent, Logical, CacheOk, WroteThrough, CachedSet, Coherent, Chunk;
    SoundGeometry(m);
    FrameCache(m, m'.disk, true);
    FrameSound(m, m');
  }

  lemma FlushedBlocks(m: Mem, m': Mem)
    requires Sound(m) && m.groupActive
    requires m' == m.(disk := m'.disk, blockDirty := m'.blockDirty) && |m'.disk| == |m.disk|
    requires Synced(m'.disk, m.geo.blockBitmapStart, m.geo.blockBitmapBlocks, m.blockBitmap, m'.blockDirty)
    requires forall b :: 0 <= b < |m.disk| && !(m.geo.blockBitmapStart <= b < m.geo.blockBitmapStart + m.geo.blockBitmapBlocks) ==>
      m'.disk[b] == m.disk[b]
    ensures Sound(m') && Logical(m') == Logical(m)
  {
    hide Consistent, Logical, CacheOk, WroteThrough, CachedSet, Coherent, Chunk;
    SoundGeometry(m);
    FrameCache(m, m'.disk, true);
    FrameSound(m, m');
  }

  lemma ShapeLength(cache: seq<CacheEntry>)
    requires CacheShape(cache)
    ensures |cache| == CACHE_ENTRIES
  {
  }

  lemma CleanEntry(cache: seq<CacheEntry>, disk: seq<Block>, groupActive: bool, i: nat)
    requires CacheOk(cache, disk, groupActive) && i < |cache| && cache[i].valid
    requires cache[i].data == disk[cache[i].block]
    ensures var after := cache[i := cache[i].(dirty := false)];
      && CacheOk(after, disk, groupActive)
      && CachedSet(after) == CachedSet(cache)
      && (WroteThrough(cache, disk) ==> WroteThrough(after, disk))
      && forall b :: 0 <= b < |disk| ==> View(after, disk, b) == View(cache, disk, b)
  {
    hide Find;
    var after := cache[i := cache[i].(dirty := false)];
    assert CacheShape(after);
    assert forall j :: 0 <= j < |cache| ==> after[j].valid == cache[j].valid && after[j].block == cache[j].block;
    forall b | 0 <= b < |disk|
      ensures View(after, disk, b) == View(cache, disk, b)
    {
      var j := Find(cache, b, |cache|);
      if j < |cache| {
        assert Holds(after, j, b);
        ViewOf(after, disk, j, b);
      }
      assert Find(after, b, |after|) < |after| ==> Holds(cache, Find(after, b, |after|), b);
    }
  }

  /** Under a DIRTY primary superblock any other block may be written. */
  lemma DirtyIsSafe(disk: seq<Block>, b: nat, data: Block, commits: set<Snapshot>)
    requires 0 < b < |disk| && SaysDirty(disk[0])
    ensures SafeDisk(disk[b := data], commits)
  {
  }

  lemma NotCached(cache: seq<CacheEntry>, disk: seq<Block>, b: nat)
    requires b < |disk| && forall j :: 0 <= j < |cache| ==> !Holds(cache, j, b)
    ensures View(cache, disk, b) == disk[b]
  {
  }

  /** Writing a cached block back changes what is on disk but not what any reader sees. */
  lemma WriteBackKeepsView(cache: seq<CacheEntry>, disk: seq<Block>, groupActive: bool, v: nat)
    requires CacheOk(cache, disk, groupActive) && v < |cache| && cache[v].valid
    ensures var disk' := disk[cache[v].block := cache[v].data];
      && CacheOk(cache, disk', groupActive)
      && forall b :: 0 <= b < |disk| ==> View(cache, disk', b) == View(cache, disk, b)
  {
    hide Find;
    var disk' := disk[cache[v].block := cache[v].data];
    assert Holds(cache, v, cache[v].block);
  }

  lemma TouchEntry(cache: seq<CacheEntry>, disk: seq<Block>, groupActive: bool, i: nat, age: nat, dirty: bool)
    requires CacheOk(cache, disk, groupActive) && i < |cache| && cache[i].valid && (dirty ==> groupActive)
    ensures var after := cache[i := cache[i].(age := age, dirty := cache[i].dirty || dirty)];
      CacheOk(after, disk, groupActive) && forall b :: 0 <= b < |disk| ==> View(after, disk, b) == View(cache, disk, b)
  {
    hide Find;
    var after := cache[i := cache[i].(age := age, dirty := cache[i].dirty || dirty)];
    assert CacheShape(after);
    forall b | 0 <= b < |disk|
      ensures View(after, disk, b) == View(cache, disk, b)
    {
      var j := Find(cache, b, |cache|);
      if j < |cache| {
        assert Holds(after, j, b);
        ViewOf(after, disk, j, b);
      }
      assert Find(after, b, |after|) < |after| ==> Holds(cache, Find(after, b, |after|), b);
    }
  }
}
