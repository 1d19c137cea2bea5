/** What an RMFS volume holds and when it is consistent (include/rmfs_format.h,
    kernel/rmfs.c).

    A disk block is one of five decoded forms. A record whose checksum is wrong is
    `Unreadable` or `Broken`; the byte layout and the CRC are not modelled. */
module RmfsVolume {
  import opened RmfsExtents
  import opened RmfsAllocator

  const BLOCK_SIZE: nat := 4096
  const DIRENT_SIZE: nat := 256
  const SLOTS_PER_BLOCK: nat := 16
  const NAME_MAX: nat := 239
  const INIT_INODE: nat := 3
  const MAX_INODE_COUNT: nat := 262144
  const NEW_FILE_PERMISSIONS: nat := 420

  type Byte = x: int | 0 <= x < 256

  datatype Kind = Regular | Directory | Other

  datatype Inode = Inode(kind: Kind, permissions: nat, size: nat, parent: nat, extents: seq<Extent>)

  datatype InodeSlot = Unreadable | Readable(inode: Inode)

  datatype Dirent = Empty | Broken | Entry(inode: nat, name: seq<char>)

  datatype State = Clean | Dirty

  datatype Geometry = Geometry(
    totalBlocks: nat, inodeCount: nat, rootInode: nat,
    inodeBitmapStart: nat, inodeBitmapBlocks: nat,
    blockBitmapStart: nat, blockBitmapBlocks: nat,
    inodeTableStart: nat, inodeTableBlocks: nat,
    dataStart: nat, backupBlock: nat, uuid: seq<Byte>)

  datatype Superblock = Superblock(state: State, geometry: Geometry, freeBlocks: nat, freeInodes: nat, sequence: nat)

  datatype Block =
    | Data(bytes: seq<Byte>)
    | InodeTable(slots: seq<InodeSlot>)
    | Entries(entries: seq<Dirent>)
    | Bits(bits: seq<bool>)
    | Super(superblock: Superblock)

  /** A block of zeros, read as a directory block. */
  function EmptyEntries(): (r: Block)
    ensures r.Entries? && |r.entries| == SLOTS_PER_BLOCK && forall k :: 0 <= k < SLOTS_PER_BLOCK ==> r.entries[k] == Empty
  {
    Entries(seq(SLOTS_PER_BLOCK, _ => Empty))
  }

  function CeilDiv(n: nat, d: nat): nat
    requires d > 0
  {
    n / d + if n % d != 0 then 1 else 0
  }

  /** The layout `kernel_rmfs_mount` insists on. */
  predicate GeometryOk(g: Geometry) {
    && 0 < g.rootInode <= g.inodeCount
    && INIT_INODE <= g.inodeCount <= MAX_INODE_COUNT
    && g.inodeBitmapStart == 1
    && g.inodeBitmapBlocks == (g.inodeCount + BITS_PER_BLOCK - 1) / BITS_PER_BLOCK
    && g.blockBitmapStart == g.inodeBitmapStart + g.inodeBitmapBlocks
    && g.blockBitmapBlocks == (g.totalBlocks + BITS_PER_BLOCK - 1) / BITS_PER_BLOCK
    && g.inodeTableStart == g.blockBitmapStart + g.blockBitmapBlocks
    && g.inodeTableBlocks == (g.inodeCount + 15) / 16
    && g.dataStart == g.inodeTableStart + g.inodeTableBlocks
    && g.totalBlocks > 0 && g.backupBlock == g.totalBlocks - 1
    && g.dataStart < g.backupBlock
  }

  // ---------------------------------------------------------------- inodes

  function TableBlock(g: Geometry, n: nat): nat
    requires n > 0
  {
    g.inodeTableStart + (n - 1) / 16
  }

  function SlotIn(block: Block, k: nat): InodeSlot {
    if block.InodeTable? && k < |block.slots| then block.slots[k] else Unreadable
  }

  /** Inode record `n` of the inode table. */
  function InodeSlotAt(g: Geometry, disk: seq<Block>, n: nat): InodeSlot {
    if 0 < n <= g.inodeCount && TableBlock(g, n) < |disk| then SlotIn(disk[TableBlock(g, n)], (n - 1) % 16)
    else Unreadable
  }

  ghost predicate InArea(g: Geometry, xs: seq<Extent>) {
    forall b :: b in Blocks(xs) ==> g.dataStart <= b < g.backupBlock
  }

  /** What `rmfs_decode_inode` accepts. */
  ghost predicate Decodable(g: Geometry, inode: Inode) {
    && |inode.extents| <= INLINE_EXTENTS
    && Chained(inode.extents, 0)
    && InArea(g, inode.extents)
    && CeilDiv(inode.size, BLOCK_SIZE) <= |Blocks(inode.extents)|
  }

  /** The checks of `rmfs_decode_inode`, extent by extent. A count above 32 bits cannot be
      stored, so it is refused here. */
  method DecodeInode(g: Geometry, inode: Inode) returns (ok: bool)
    ensures ok <==> Decodable(g, inode)
  {
    var xs := inode.extents;
    if |xs| > INLINE_EXTENTS {
      return false;
    }
    var next := 0;
    var i := 0;
    while i < |xs|
      invariant 0 <= i <= |xs|
      invariant next == |BlocksOf(xs, i)|
      invariant ChainedOf(xs, 0, i)
      invariant forall b :: b in BlocksOf(xs, i) ==> g.dataStart <= b < g.backupBlock
    {
      if xs[i].count == 0 || xs[i].count > UINT32_MAX || xs[i].logical != next ||
         xs[i].physical < g.dataStart || xs[i].physical >= g.backupBlock ||
         xs[i].count > g.backupBlock - xs[i].physical {
        if Decodable(g, inode) {
          DecodableExtent(g, inode, i);
        }
        return false;
      }
      next := next + xs[i].count;
      i := i + 1;
    }
    ok := next >= CeilDiv(inode.size, BLOCK_SIZE);
  }

  lemma DecodableExtent(g: Geometry, inode: Inode, i: nat)
    requires Decodable(g, inode) && i < |inode.extents|
    ensures var x := inode.extents[i];
      && 0 < x.count <= UINT32_MAX && x.logical == |BlocksOf(inode.extents, i)|
      && g.dataStart <= x.physical < g.backupBlock && x.count <= g.backupBlock - x.physical
  {
    hide BlocksOf, ChainedOf;
    var xs := inode.extents;
    ChainedAt(xs, 0, |xs|, i);
    BlocksAt(xs, i, 0);
    BlocksAt(xs, i, xs[i].count - 1);
    assert Blocks(xs)[|BlocksOf(xs, i)|] in Blocks(xs);
    assert Blocks(xs)[|BlocksOf(xs, i)| + xs[i].count - 1] in Blocks(xs);
  }

  /** The live inodes: the readable records whose bitmap bit is set. */
  ghost function LiveInodes(g: Geometry, disk: seq<Block>, inodeBitmap: seq<bool>): (r: map<nat, Inode>)
    ensures forall n :: n in r <==>
      0 < n <= g.inodeCount && n <= |inodeBitmap| && inodeBitmap[n - 1] && InodeSlotAt(g, disk, n).Readable?
    ensures forall n :: n in r ==> r[n] == InodeSlotAt(g, disk, n).inode
  {
    map n | 0 < n <= g.inodeCount && n <= |inodeBitmap| && inodeBitmap[n - 1] && InodeSlotAt(g, disk, n).Readable?
      :: InodeSlotAt(g, disk, n).inode
  }

  // ---------------------------------------------------------------- contents

  function ByteIn(block: Block, k: nat): Byte {
    if block.Data? && k < |block.bytes| then block.bytes[k] else 0
  }

  function EntryIn(block: Block, k: nat): Dirent {
    if block.Entries? && k < |block.entries| then block.entries[k] else Broken
  }

  /** Byte `p` of a file: the byte its block holds there. */
  function FileByte(disk: seq<Block>, blocks: seq<nat>, p: nat): Byte {
    if p / BLOCK_SIZE < |blocks| && blocks[p / BLOCK_SIZE] < |disk|
    then ByteIn(disk[blocks[p / BLOCK_SIZE]], p % BLOCK_SIZE) else 0
  }

  function FileBytes(disk: seq<Block>, inode: Inode): (r: seq<Byte>)
    ensures |r| == inode.size
    ensures forall p :: 0 <= p < |r| ==> r[p] == FileByte(disk, Blocks(inode.extents), p)
  {
    seq(inode.size, p requires 0 <= p => FileByte(disk, Blocks(inode.extents), p))
  }

  /** How many bytes of its last block a file of this size leaves over. */
  function SlackSize(size: nat): (n: nat)
    ensures n < BLOCK_SIZE && size + n == CeilDiv(size, BLOCK_SIZE) * BLOCK_SIZE
  {
    CeilDiv(size, BLOCK_SIZE) * BLOCK_SIZE - size
  }

  /** What lies in the last block past the end of the file. */
  function Slack(disk: seq<Block>, inode: Inode): (r: seq<Byte>)
    ensures |r| == SlackSize(inode.size)
    ensures forall i :: 0 <= i < |r| ==> r[i] == FileByte(disk, Blocks(inode.extents), inode.size + i)
  {
    seq(SlackSize(inode.size), i requires 0 <= i => SlackByte(disk, inode, i))
  }

  function SlackByte(disk: seq<Block>, inode: Inode, i: nat): Byte {
    FileByte(disk, Blocks(inode.extents), inode.size + i)
  }

  /** Directory slot `k`. */
  function DirSlot(disk: seq<Block>, blocks: seq<nat>, k: nat): Dirent {
    if k / SLOTS_PER_BLOCK < |blocks| && blocks[k / SLOTS_PER_BLOCK] < |disk|
    then EntryIn(disk[blocks[k / SLOTS_PER_BLOCK]], k % SLOTS_PER_BLOCK) else Broken
  }

  function DirSlots(disk: seq<Block>, inode: Inode): (r: seq<Dirent>)
    ensures |r| == inode.size / DIRENT_SIZE
    ensures forall k :: 0 <= k < |r| ==> r[k] == DirSlot(disk, Blocks(inode.extents), k)
  {
    seq(inode.size / DIRENT_SIZE, k requires 0 <= k => DirSlot(disk, Blocks(inode.extents), k))
  }

  /** A file has bytes, and slack that no reader sees until the file grows over it. */
  datatype Content = Bytes(bytes: seq<Byte>, slack: seq<Byte>) | Names(slots: seq<Dirent>) | Nothing

  /** An inode's attributes and what it holds. */
  datatype Node = Node(kind: Kind, permissions: nat, parent: nat, size: nat, content: Content)

  function NodeOf(disk: seq<Block>, inode: Inode): Node {
    Node(inode.kind, inode.permissions, inode.parent, inode.size,
         match inode.kind
         case Regular => Bytes(FileBytes(disk, inode), Slack(disk, inode))
         case Directory => Names(DirSlots(disk, inode))
         case Other => Nothing)
  }

  /** Everything a volume says: counters, bitmaps and every live inode's node. */
  datatype Snapshot = Snapshot(freeBlocks: nat, freeInodes: nat, sequence: nat,
                               inodeBitmap: seq<bool>, blockBitmap: seq<bool>, nodes: map<nat, Node>)

  ghost function Nodes(disk: seq<Block>, inodes: map<nat, Inode>): (r: map<nat, Node>)
    ensures r.Keys == inodes.Keys
    ensures forall n :: n in r ==> r[n] == NodeOf(disk, inodes[n])
  {
    map n | n in inodes :: NodeOf(disk, inodes[n])
  }

  // ---------------------------------------------------------------- consistency

  ghost predicate Distinct(s: seq<nat>) {
    forall i, j :: 0 <= i < j < |s| ==> s[i] != s[j]
  }

  ghost predicate Owns(inodes: map<nat, Inode>, n: nat, b: nat) {
    n in inodes && b in Blocks(inodes[n].extents)
  }

  /** No block is named twice, by one inode or by two. */
  ghost predicate OwnedOnce(inodes: map<nat, Inode>) {
    && (forall n :: n in inodes ==> Distinct(Blocks(inodes[n].extents)))
    && (forall n, m, b :: Owns(inodes, n, b) && Owns(inodes, m, b) ==> n == m)
  }

  /** The used bits of the data area are exactly the owned blocks. */
  ghost predicate BitsMatch(g: Geometry, inodes: map<nat, Inode>, blockBitmap: seq<bool>) {
    && g.backupBlock < |blockBitmap|
    && forall b :: g.dataStart <= b < g.backupBlock ==>
         (blockBitmap[b] <==> exists n :: Owns(inodes, n, b))
  }

  ghost predicate FileOk(disk: seq<Block>, inode: Inode) {
    && |Blocks(inode.extents)| == CeilDiv(inode.size, BLOCK_SIZE)
    && forall b :: b in Blocks(inode.extents) ==>
         b < |disk| && disk[b].Data? && |disk[b].bytes| == BLOCK_SIZE
  }

  ghost predicate DirOk(disk: seq<Block>, inodes: map<nat, Inode>, inode: Inode) {
    && inode.size % DIRENT_SIZE == 0
    && inode.size <= |Blocks(inode.extents)| * BLOCK_SIZE
    && (forall b :: b in Blocks(inode.extents) ==>
         b < |disk| && disk[b].Entries? && |disk[b].entries| == SLOTS_PER_BLOCK)
    && forall k :: 0 <= k < inode.size / DIRENT_SIZE ==>
         var slot := DirSlot(disk, Blocks(inode.extents), k);
         slot != Broken && (slot.Entry? ==> slot.inode in inodes)
  }

  ghost predicate InodeOk(g: Geometry, disk: seq<Block>, inodes: map<nat, Inode>, n: nat)
    requires n in inodes
  {
    && Decodable(g, inodes[n])
    && (inodes[n].kind.Regular? ==> FileOk(disk, inodes[n]))
    && (inodes[n].kind.Directory? ==> DirOk(disk, inodes, inodes[n]))
  }

  ghost predicate TableOk(g: Geometry, disk: seq<Block>, inodeBitmap: seq<bool>) {
    && (forall b :: g.inodeTableStart <= b < g.dataStart ==>
         b < |disk| && disk[b].InodeTable? && |disk[b].slots| == 16)
    && (forall n :: 0 < n <= g.inodeCount && n <= |inodeBitmap| && inodeBitmap[n - 1] ==>
         InodeSlotAt(g, disk, n).Readable?)
  }

  /** A volume between operations. */
  ghost predicate Consistent(g: Geometry, disk: seq<Block>, inodeBitmap: seq<bool>, blockBitmap: seq<bool>,
                             freeBlocks: nat, freeInodes: nat)
  {
    var inodes := LiveInodes(g, disk, inodeBitmap);
    && GeometryOk(g)
    && g.totalBlocks <= |disk| && g.totalBlocks <= |blockBitmap| && g.inodeCount <= |inodeBitmap|
    && TableOk(g, disk, inodeBitmap)
    && (forall n :: n in inodes ==> InodeOk(g, disk, inodes, n))
    && OwnedOnce(inodes)
    && BitsMatch(g, inodes, blockBitmap)
    && freeBlocks == |FreeList(blockBitmap, g.dataStart, g.backupBlock)|
    && freeInodes == |FreeList(inodeBitmap, 0, g.inodeCount)|
    && g.rootInode in inodes && inodes[g.rootInode].kind.Directory?
  }
}
