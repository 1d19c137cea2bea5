/** A volume on which a range write shows bytes that nobody wrote: a file of one block and a byte whose second block
    is full of sevens. A one-byte write to its first block that also asks for one byte more replaces only that block. */
module RmfsExposure {
  import opened RmfsExtents
  import opened RmfsAllocator
  import opened RmfsVolume
  import opened RmfsPatch
  import opened RmfsDirectory
  import opened RmfsTransaction
  import opened RmfsState
  import opened RmfsMeaning
  import opened Rmfs

  /** Superblock, two bitmaps, inode table, four data blocks, backup. */
  function Layout(): Geometry {
    Geometry(9, 3, 1, 1, 1, 2, 1, 3, 1, 4, 8, [])
  }

  function Root(): Inode {
    Inode(Directory, 0, DIRENT_SIZE, 1, [Extent(0, 4, 1)])
  }

  function File(): Inode {
    Inode(Regular, 0, BLOCK_SIZE + 1, 1, [Extent(0, 5, 2)])
  }

  function Table(): seq<InodeSlot> {
    [Readable(Root()), Readable(File())] + seq(14, _ => Unreadable)
  }

  function Listing(): seq<Dirent> {
    [Entry(2, "f")] + seq(15, _ => Empty)
  }

  function Filled(b: Byte): (s: seq<Byte>)
    ensures |s| == BLOCK_SIZE && forall i :: 0 <= i < |s| ==> s[i] == b
  {
    seq(BLOCK_SIZE, _ => b)
  }

  /** A bitmap block whose bits below `n` are set, and bit 8. */
  function Bitmap(n: nat): (s: seq<bool>)
    ensures |s| == BITS_PER_BLOCK && forall i :: 0 <= i < |s| ==> s[i] == (i < n || i == 8)
  {
    seq(BITS_PER_BLOCK, i => i < n || i == 8)
  }

  function Label(): Superblock {
    Superblock(Clean, Layout(), 1, 1, 0)
  }

  function Volume(): (disk: seq<Block>)
    ensures |disk| == 9 && disk[0] == Super(Label()) && disk[8] == disk[0] && disk[1] == Bits(Bitmap(2)) && disk[2] == Bits(Bitmap(7))
    ensures disk[3] == InodeTable(Table()) && disk[4] == Entries(Listing())
    ensures disk[5] == Data(Filled(0)) && disk[6] == Data(Filled(7)) && disk[7] == Data(Filled(0))
  {
    [Super(Label()), Bits(Bitmap(2)), Bits(Bitmap(7)), InodeTable(Table()), Entries(Listing()),
     Data(Filled(0)), Data(Filled(7)), Data(Filled(0)), Super(Label())]
  }

  lemma Runs()
    ensures Blocks(Root().extents) == [4] && Blocks(File().extents) == [5, 6]
    ensures Chained(Root().extents, 0) && Chained(File().extents, 0)
  {
    assert BlocksOf(Root().extents, 1) == BlocksOf(Root().extents, 0) + Run(4, 1);
    assert BlocksOf(File().extents, 1) == BlocksOf(File().extents, 0) + Run(5, 2);
  }

  lemma Maps()
    ensures LoadedBits(Volume(), 1, 1) == Bitmap(2) && LoadedBits(Volume(), 2, 1) == Bitmap(7)
    ensures BitsStored(Volume(), 1, 1) && BitsStored(Volume(), 2, 1)
  {
    hide Volume, Bitmap;
    assert LoadedBits(Volume(), 1, 0) == [] && LoadedBits(Volume(), 2, 0) == [];
  }

  ghost function Live(): map<nat, Inode> {
    LiveInodes(Layout(), Volume(), Bitmap(2))
  }

  lemma LiveAre()
    ensures Live() == map[1 := Root(), 2 := File()]
  {
    hide Volume, Bitmap;
    assert InodeSlotAt(Layout(), Volume(), 1) == Readable(Root());
    assert InodeSlotAt(Layout(), Volume(), 2) == Readable(File());
    forall n | n in Live()
      ensures n == 1 || n == 2
    {
    }
    assert Live().Keys == {1, 2};
  }

  lemma Counts()
    ensures |FreeList(Bitmap(7), 4, 8)| == 1 && |FreeList(Bitmap(2), 0, 3)| == 1
  {
    hide Bitmap;
    var b, i := Bitmap(7), Bitmap(2);
    assert FreeList(b, 4, 4) == [] && FreeList(b, 4, 5) == [] && FreeList(b, 4, 6) == [] && FreeList(b, 4, 7) == [];
    assert FreeList(i, 0, 0) == [] && FreeList(i, 0, 1) == [] && FreeList(i, 0, 2) == [];
  }

  lemma FileIsOk()
    ensures Decodable(Layout(), File()) && FileOk(Volume(), File())
  {
    hide Volume, Filled;
    Runs();
  }

  lemma RootIsOk()
    ensures Decodable(Layout(), Root()) && DirOk(Volume(), Live(), Root())
    ensures DirSlots(Volume(), Root()) == [Entry(2, "f")]
  {
    hide Volume;
    Runs();
    LiveAre();
    assert DirSlot(Volume(), [4], 0) == Entry(2, "f");
  }

  lemma Owners()
    ensures OwnedOnce(Live()) && BitsMatch(Layout(), Live(), Bitmap(7))
  {
    hide Live, Bitmap, Blocks;
    LiveAre();
    Runs();
    var inodes := Live();
    assert Owns(inodes, 1, 4) && Owns(inodes, 2, 5) && Owns(inodes, 2, 6);
    assert forall n, b :: Owns(inodes, n, b) ==> (n == 1 && b == 4) || (n == 2 && 5 <= b <= 6);
  }

  lemma TableIsOk()
    ensures TableOk(Layout(), Volume(), Bitmap(2))
  {
    hide Volume, Bitmap;
  }

  lemma GeometryIsOk()
    ensures GeometryOk(Layout())
  {
  }

  lemma InodesAreOk(n: nat)
    requires n in Live()
    ensures InodeOk(Layout(), Volume(), Live(), n)
  {
    hide Volume, Live, Decodable, DirOk, FileOk;
    LiveAre();
    FileIsOk();
    RootIsOk();
  }

  lemma VolumeMounts()
    ensures Mountable(Volume())
  {
    hide Volume, Decodable, GeometryOk;
    GeometryIsOk();
    RootIsOk();
    assert InodeSlotAt(Layout(), Volume(), 1) == Readable(Root());
  }

  lemma VolumeIsConsistent()
    ensures Consistent(Layout(), Volume(), Bitmap(2), Bitmap(7), 1, 1)
  {
    hide Volume, Bitmap, FreeList, OwnedOnce, BitsMatch, InodeOk, LiveInodes, TableOk, GeometryOk;
    GeometryIsOk();
    TableIsOk();
    LiveAre();
    Owners();
    Counts();
    forall n | n in Live()
      ensures InodeOk(Layout(), Volume(), Live(), n)
    {
      InodesAreOk(n);
    }
  }

  /** The volume mounts and is consistent. */
  lemma VolumeIsSound()
    ensures Mountable(Volume()) && DiskConsistent(Volume())
  {
    hide Volume, Bitmap, LoadedBits, Consistent, BitsStored, Mountable;
    VolumeMounts();
    Maps();
    VolumeIsConsistent();
  }

  function Question(): Request {
    Request(0, [1], BLOCK_SIZE + 2, true)
  }

  /** Before the write the path reads the file, and a seven lies past its end. */
  lemma Before()
    ensures Mountable(Volume())
    ensures
      var nodes := DiskSnapshot(Volume()).nodes;
      && EntriesLive(nodes) && 1 in nodes && |BytesAt(nodes, 1, ["f"])| == BLOCK_SIZE + 1
      && RawByte(BytesAt(nodes, 1, ["f"]), ContentAt(nodes, 1, ["f"]).slack, BLOCK_SIZE + 1) == 7
  {
    hide Volume, Walk, DiskSnapshot, Mountable, NodeOf, SlotsLive;
    VolumeMounts();
    NodesAre();
    var nodes := DiskSnapshot(Volume()).nodes;
    assert SlotsLive(nodes, [Entry(2, "f")]) by { OneEntry(nodes); }
    PathLeads(nodes);
  }

  lemma NodesAre()
    ensures Mountable(Volume())
    ensures
      var nodes := DiskSnapshot(Volume()).nodes;
      && nodes.Keys == {1, 2} && nodes[1].content == Names([Entry(2, "f")]) && nodes[2].content.Bytes?
      && |nodes[2].content.bytes| == BLOCK_SIZE + 1
      && RawByte(nodes[2].content.bytes, nodes[2].content.slack, BLOCK_SIZE + 1) == 7
  {
    hide Volume, Bitmap, LoadedBits, LiveInodes, Mountable, Filled, DirSlots;
    VolumeMounts();
    Maps();
    LiveAre();
    RootIsOk();
    Runs();
    var nodes := DiskSnapshot(Volume()).nodes;
    assert nodes == Nodes(Volume(), Live());
    assert nodes[2].content.slack[0] == FileByte(Volume(), [5, 6], BLOCK_SIZE + 1) == 7;
  }

  lemma OneEntry(nodes: map<nat, Node>)
    requires 2 in nodes
    ensures SlotsLive(nodes, [Entry(2, "f")])
  {
  }

  lemma PathLeads(nodes: map<nat, Node>)
    requires 1 in nodes && nodes[1].content == Names([Entry(2, "f")])
    ensures Walk(nodes, 1, ["f"]) == Reached(2)
  {
    LookupIs([Entry(2, "f")], "f", 0);
    assert Walk(nodes, 2, ["f"][1..]) == Reached(2);
  }

  /** Whatever state answers the write, the file does not read as its old bytes patched with the buffer. */
  lemma WriteExposes(s': Snapshot)
    requires Mountable(Volume()) && Answers(DiskSnapshot(Volume()), s', 1, ["f"], Question())
    ensures BytesAt(s'.nodes, 1, ["f"]) != Patched(BytesAt(DiskSnapshot(Volume()).nodes, 1, ["f"]), Question())
  {
    hide Answers, DiskSnapshot, Mountable, Volume, Rewritten, Patched, Walk, EntriesLive;
    Before();
    var s := DiskSnapshot(Volume());
    WriteReadsBack(s, s', 1, ["f"], Question(), []);
    var c := ContentAt(s.nodes, 1, ["f"]);
    PatchedExactly(c.bytes, c.slack, Question());
    ExposedWhen(Question(), |c.bytes|, BLOCK_SIZE + 1);
    assert Exposed(Question(), |c.bytes|, BLOCK_SIZE + 1);
  }

  /** The write itself, on the mounted volume: when it succeeds, the path reads something else. */
  method ExposureHappens(fs: FileSystem) returns (ok: bool)
    requires fs.disk == Volume()
    modifies fs
    ensures ok ==> Mountable(Volume()) && fs.Valid() && fs.mounted
    ensures ok ==> BytesAt(Logical(fs.Now()).nodes, 1, ["f"]) != Patched(BytesAt(DiskSnapshot(Volume()).nodes, 1, ["f"]), Question())
  {
    hide Answers, DiskSnapshot, Mountable, DiskConsistent, Volume, Patched, Logical, BytesAt;
    VolumeIsSound();
    ok := fs.Mount();
    if !ok {
      return;
    }
    ok := fs.WriteRange(["f"], 0, [1], BLOCK_SIZE + 2, false);
    if ok {
      WriteExposes(Logical(fs.Now()));
    }
  }
}
