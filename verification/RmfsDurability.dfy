/** What a power failure can do to writes: each is there as a whole or not at all, and what was synced stays. */
module RmfsDurability {
  import opened RmfsVolume
  import opened RmfsPatch
  import opened RmfsDirectory
  import opened RmfsTransaction
  import opened RmfsState
  import opened RmfsMeaning
  import opened Rmfs

  /** Every disk in the log that mounts at all is consistent and says `before`, or what answers the request. */
  ghost predicate BeforeOrAfter(history: seq<seq<Block>>, before: Snapshot, root: nat, path: seq<Name>, req: Request) {
    forall i :: 0 <= i < |history| && Mountable(history[i]) ==>
      DiskConsistent(history[i]) && (DiskSnapshot(history[i]) == before || Answers(before, DiskSnapshot(history[i]), root, path, req))
  }

  lemma OneOrTheOther(history: seq<seq<Block>>, commits: set<Snapshot>, before: Snapshot, root: nat, path: seq<Name>, req: Request)
    requires CrashSafe(history, commits) && forall s :: s in commits ==> s == before || Answers(before, s, root, path, req)
    ensures BeforeOrAfter(history, before, root, path, req)
  {
    hide Mountable, DiskSnapshot, DiskConsistent, Answers;
    forall i | 0 <= i < |history| && Mountable(history[i])
      ensures DiskConsistent(history[i]) && (DiskSnapshot(history[i]) == before || Answers(before, DiskSnapshot(history[i]), root, path, req))
    {
      assert SafeDisk(history[i], commits);
    }
  }

  /** A write after a sync: whatever disk the power failure leaves, during the write or after it, a mount finds the
      synced state or the state with the write done, and never anything else. */
  method AtomicWrite(fs: FileSystem, path: seq<Name>, req: Request) returns (synced: bool, ok: bool)
    requires fs.Valid() && fs.mounted
    requires if req.preserve then req.offset + |req.buffer| <= req.finalSize else req.offset == 0 && |req.buffer| == req.finalSize
    modifies fs
    ensures fs.Valid() && (ok ==> synced && fs.mounted)
    ensures synced ==> BeforeOrAfter(fs.history, old(Logical(fs.Now())), fs.geo.rootInode, path, req)
    ensures synced ==> fs.history != [] && fs.disk in fs.history
    ensures ok ==> Answers(old(Logical(fs.Now())), Logical(fs.Now()), fs.geo.rootInode, path, req)
  {
    hide Logical, Sound, CrashSafe, Answers, BeforeOrAfter;
    ok := false;
    synced := fs.Sync();
    if !synced {
      return;
    }
    fs.StartLog();
    ghost var before := Logical(fs.Now());
    ok := fs.WriteTransaction(path, req);
    OneOrTheOther(fs.history, fs.commits, before, fs.geo.rootInode, path, req);
  }

  /** A file written and synced: the disk, mounted again, gives its bytes back. */
  method DurableWrite(fs: FileSystem, path: seq<Name>, buffer: seq<Byte>, capacity: nat) returns (ok: bool, output: seq<Byte>)
    requires fs.Valid()
    modifies fs
    ensures fs.Valid()
    ensures ok ==> output == Window(buffer, 0, capacity)
  {
    hide Logical, Sound, Answers, Mountable, DiskSnapshot, DiskConsistent, Walk, Window, Nodes;
    output := [];
    ghost var before := Logical(fs.Now());
    if fs.mounted {
      SoundIsWalkable(fs.Now());
    }
    ok := fs.WriteFile(path, buffer, false);
    if !ok {
      return;
    }
    ghost var req := Request(0, buffer, |buffer|, false);
    WriteReadsBack(before, Logical(fs.Now()), fs.geo.rootInode, path, req, []);
    WholeFile(BytesAt(before.nodes, fs.geo.rootInode, path), ContentAt(before.nodes, fs.geo.rootInode, path).slack, req);
    ghost var after, root := Logical(fs.Now()), fs.geo.rootInode;
    ok := fs.Sync();
    if !ok {
      return;
    }
    ClosedGroupIsOnDisk(fs.Now());
    LayoutOnDisk(fs.Now());
    ok := fs.Mount();
    if !ok {
      return;
    }
    ghost var m := fs.Now();
    ok, output := fs.ReadRange(path, 0, capacity);
    SameFiles(m, fs.Now());
  }

  lemma LayoutOnDisk(m: Mem)
    requires Sound(m) && !m.groupActive
    ensures |m.disk| > 0 && m.disk[0].Super? && m.disk[0].superblock.geometry == m.geo
  {
    hide Consistent, Coherent, BitmapsSynced;
  }

  lemma SameFiles(m: Mem, m': Mem)
    requires m' == m.(cache := m'.cache)
    ensures Nodes(m'.disk, Inodes(m')) == Logical(m).nodes
  {
    hide LiveInodes, Nodes;
  }
}
