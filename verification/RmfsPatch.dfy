/** What a write does to the bytes of one file (kernel/rmfs.c:1089-1192): which logical
    blocks are replaced, what goes into them, and that the result reads back as the old
    bytes patched with the buffer. */
module RmfsPatch {
  import opened RmfsExtents
  import opened RmfsVolume

  /** A write: `preserve` distinguishes a range write from whole-file replacement. */
  datatype Request = Request(offset: nat, buffer: seq<Byte>, finalSize: nat, preserve: bool)

  /** The bytes a file should have after the request. */
  function Patched(prior: seq<Byte>, req: Request): (r: seq<Byte>)
    ensures |r| == req.finalSize
    ensures forall p :: 0 <= p < |r| ==> r[p] == PatchedByte(prior, req, p)
  {
    seq(req.finalSize, p requires 0 <= p => PatchedByte(prior, req, p))
  }

  function PatchedByte(prior: seq<Byte>, req: Request, p: nat): Byte {
    if req.offset <= p < req.offset + |req.buffer| then req.buffer[p - req.offset]
    else if req.preserve && p < |prior| then prior[p]
    else 0
  }

  /** Requests the write entry points let through to the transaction body. */
  ghost predicate Acceptable(req: Request, oldSize: nat) {
    if req.preserve then
      && |req.buffer| > 0
      && req.offset + |req.buffer| <= req.finalSize
      && oldSize <= req.finalSize
    else req.offset == 0 && |req.buffer| == req.finalSize
  }

  datatype Range = Range(first: nat, end: nat)

  /** The logical blocks that get new storage: those the write touches and, when the file
      grows by blocks, everything from the block that holds the old end on. */
  function Replaced(req: Request, oldSize: nat): (r: Range)
    ensures Acceptable(req, oldSize) ==> r.first <= r.end <= CeilDiv(req.finalSize, BLOCK_SIZE)
    ensures Acceptable(req, oldSize) ==> r.first <= CeilDiv(oldSize, BLOCK_SIZE)
    ensures Acceptable(req, oldSize) && CeilDiv(oldSize, BLOCK_SIZE) < CeilDiv(req.finalSize, BLOCK_SIZE) ==>
      r.end == CeilDiv(req.finalSize, BLOCK_SIZE)
  {
    var oldBlocks := CeilDiv(oldSize, BLOCK_SIZE);
    var finalBlocks := CeilDiv(req.finalSize, BLOCK_SIZE);
    if !req.preserve then Range(0, finalBlocks)
    else
      var first := req.offset / BLOCK_SIZE;
      var end := CeilDiv(req.offset + |req.buffer|, BLOCK_SIZE);
      if finalBlocks > oldBlocks then
        var exposed := if oldBlocks != 0 && oldSize % BLOCK_SIZE != 0 then oldBlocks - 1 else oldBlocks;
        Range(if first > exposed then exposed else first, finalBlocks)
      else Range(first, end)
  }

  /** The blocks of the file after the request, given freshly allocated ones. */
  function NewBlocks(prior: seq<nat>, taken: seq<nat>, r: Range): seq<nat>
    requires r.first <= |prior|
  {
    Slice(prior, 0, r.first) + taken + Slice(prior, r.end, |prior|)
  }

  /** The blocks the file gives up. */
  function Retired(req: Request, prior: seq<nat>, r: Range): seq<nat> {
    if req.preserve then Slice(prior, r.first, if r.end < |prior| then r.end else |prior|) else prior
  }

  function Kept(req: Request, prior: seq<nat>): seq<nat> {
    if req.preserve then prior else []
  }

  lemma NewBlockCount(req: Request, oldSize: nat, prior: seq<nat>, taken: seq<nat>)
    requires Acceptable(req, oldSize) && |prior| == CeilDiv(oldSize, BLOCK_SIZE)
    requires |taken| == Replaced(req, oldSize).end - Replaced(req, oldSize).first
    ensures Replaced(req, oldSize).first <= |Kept(req, prior)|
    ensures |NewBlocks(Kept(req, prior), taken, Replaced(req, oldSize))| == CeilDiv(req.finalSize, BLOCK_SIZE)
  {
  }

  /** What logical block `i` is to hold, `prior` being what it held. */
  function BlockImage(req: Request, oldSize: nat, prior: Block, i: nat): (r: seq<Byte>)
    ensures |r| == BLOCK_SIZE
    ensures forall k :: 0 <= k < BLOCK_SIZE ==> r[k] == ImageByte(req, oldSize, prior, i, k)
  {
    seq(BLOCK_SIZE, k requires 0 <= k => ImageByte(req, oldSize, prior, i, k))
  }

  function ImageByte(req: Request, oldSize: nat, prior: Block, i: nat, k: nat): Byte {
    var p := i * BLOCK_SIZE + k;
    if req.offset <= p < req.offset + |req.buffer| then req.buffer[p - req.offset]
    else if req.preserve && p < oldSize then ByteIn(prior, k)
    else 0
  }

  /** Past the old end, and in a replacement, the old block does not matter. */
  lemma ImageIgnoresOld(req: Request, oldSize: nat, a: Block, b: Block, i: nat)
    requires !req.preserve || oldSize <= i * BLOCK_SIZE
    ensures BlockImage(req, oldSize, a, i) == BlockImage(req, oldSize, b, i)
  {
  }

  /** Builds the image of one block in a scratch buffer: zero it, copy the old block, zero
      what lies past the old end, then copy the overlapping part of the request. */
  method FillBlock(req: Request, oldSize: nat, prior: Block, i: nat, scratch: array<Byte>)
    requires scratch.Length == BLOCK_SIZE
    modifies scratch
    ensures scratch[..] == BlockImage(req, oldSize, prior, i)
  {
    var k := 0;
    while k < BLOCK_SIZE
      invariant 0 <= k <= BLOCK_SIZE
      invariant forall j :: 0 <= j < k ==> scratch[j] == 0
    {
      scratch[k] := 0;
      k := k + 1;
    }
    var start := i * BLOCK_SIZE;
    var end := start + BLOCK_SIZE;
    if req.preserve && start < oldSize {
      k := 0;
      while k < BLOCK_SIZE
        invariant 0 <= k <= BLOCK_SIZE
        invariant forall j :: 0 <= j < k ==> scratch[j] == ByteIn(prior, j)
      {
        scratch[k] := ByteIn(prior, k);
        k := k + 1;
      }
      if oldSize < end {
        k := oldSize - start;
        while k < BLOCK_SIZE
          invariant oldSize - start <= k <= BLOCK_SIZE
          invariant forall j :: 0 <= j < BLOCK_SIZE ==>
            scratch[j] == if oldSize - start <= j < k then 0 else ByteIn(prior, j)
        {
          scratch[k] := 0;
          k := k + 1;
        }
      }
    }
    assert forall j :: 0 <= j < BLOCK_SIZE ==>
      scratch[j] == if req.preserve && start + j < oldSize then ByteIn(prior, j) else 0;
    Overlay(req, start, scratch);
  }

  /** Copies the part of the buffer that falls into the block starting at byte `start`. */
  method Overlay(req: Request, start: nat, scratch: array<Byte>)
    requires scratch.Length == BLOCK_SIZE
    modifies scratch
    ensures forall j :: 0 <= j < BLOCK_SIZE ==>
      scratch[j] == if req.offset <= start + j < req.offset + |req.buffer| then req.buffer[start + j - req.offset]
                    else old(scratch[j])
  {
    var writeEnd := req.offset + |req.buffer|;
    var end := start + BLOCK_SIZE;
    var overlapStart := if start > req.offset then start else req.offset;
    var overlapEnd := if end < writeEnd then end else writeEnd;
    if overlapStart < overlapEnd {
      var destination := overlapStart - start;
      var source := overlapStart - req.offset;
      var amount := overlapEnd - overlapStart;
      var k := 0;
      while k < amount
        invariant 0 <= k <= amount
        invariant forall j :: 0 <= j < BLOCK_SIZE ==>
          scratch[j] == if destination <= j < destination + k then req.buffer[source + j - destination]
                        else old(scratch[j])
      {
        scratch[destination + k] := req.buffer[source + k];
        k := k + 1;
      }
    }
  }

  // ---------------------------------------------------------------- reading back

  /** Byte `p` of a file's blocks. */
  function RawByte(bytes: seq<Byte>, slack: seq<Byte>, p: nat): Byte {
    if p < |bytes| then bytes[p] else if p < |bytes| + |slack| then slack[p - |bytes|] else 0
  }

  /** Byte `p` of the blocks after the request: a replaced block is patched, another keeps all it held. */
  function NewByte(bytes: seq<Byte>, slack: seq<Byte>, req: Request, p: nat): Byte {
    if Replaced(req, |bytes|).first <= p / BLOCK_SIZE < Replaced(req, |bytes|).end then PatchedByte(bytes, req, p)
    else RawByte(bytes, slack, p)
  }

  /** What the file holds after the request. */
  function Rewritten(bytes: seq<Byte>, slack: seq<Byte>, req: Request): (r: Content)
    ensures r.Bytes? && |r.bytes| == req.finalSize && |r.slack| == SlackSize(req.finalSize)
    ensures forall p :: 0 <= p < |r.bytes| ==> r.bytes[p] == NewByte(bytes, slack, req, p)
    ensures forall i :: 0 <= i < |r.slack| ==> r.slack[i] == NewByte(bytes, slack, req, req.finalSize + i)
  {
    Bytes(seq(req.finalSize, p requires 0 <= p => NewByte(bytes, slack, req, p)),
          seq(SlackSize(req.finalSize), i requires 0 <= i => NewByte(bytes, slack, req, req.finalSize + i)))
  }

  /** `disk'` holds the images in the replaced blocks and is unchanged in the kept ones. */
  ghost predicate Stored(disk: seq<Block>, disk': seq<Block>, req: Request, oldSize: nat, prior: seq<nat>, after: seq<nat>) {
    && |disk'| == |disk|
    && forall i :: 0 <= i < |after| ==> StoredAt(disk, disk', req, oldSize, prior, after[i], i)
  }

  /** Block `i` of the file, at `b`, holds its image when it is replaced and is the old block otherwise. */
  ghost predicate StoredAt(disk: seq<Block>, disk': seq<Block>, req: Request, oldSize: nat, prior: seq<nat>, b: nat, i: nat) {
    var r := Replaced(req, oldSize);
    && b < |disk| == |disk'|
    && (r.first <= i < r.end ==> disk'[b] == Data(BlockImage(req, oldSize, OldBlock(disk, prior, i), i)))
    && (i < r.first || r.end <= i ==> i < |prior| && b == prior[i] && disk'[b] == disk[b])
  }

  function OldBlock(disk: seq<Block>, prior: seq<nat>, i: nat): Block {
    if i < |prior| && prior[i] < |disk| then disk[prior[i]] else Data([])
  }

  /** Outside the replaced blocks nothing is written. */
  lemma OutsideReplaced(req: Request, oldSize: nat, p: nat)
    requires Acceptable(req, oldSize)
    requires p < CeilDiv(req.finalSize, BLOCK_SIZE) * BLOCK_SIZE
    requires !(Replaced(req, oldSize).first <= p / BLOCK_SIZE < Replaced(req, oldSize).end)
    ensures req.preserve && p < CeilDiv(oldSize, BLOCK_SIZE) * BLOCK_SIZE
    ensures !(req.offset <= p < req.offset + |req.buffer|)
  {
  }

  /** Every byte of the new blocks is as `Rewritten` says. */
  lemma ByteReadsBack(disk: seq<Block>, disk': seq<Block>, req: Request, inode: Inode, after: seq<nat>, p: nat)
    requires Acceptable(req, inode.size) && |Blocks(inode.extents)| == CeilDiv(inode.size, BLOCK_SIZE)
    requires |after| == CeilDiv(req.finalSize, BLOCK_SIZE)
    requires Stored(disk, disk', req, inode.size, Kept(req, Blocks(inode.extents)), after)
    requires p < |after| * BLOCK_SIZE
    ensures FileByte(disk', after, p) == NewByte(FileBytes(disk, inode), Slack(disk, inode), req, p)
  {
    hide Blocks;
    var i, k := p / BLOCK_SIZE, p % BLOCK_SIZE;
    assert p == i * BLOCK_SIZE + k;
    var r := Replaced(req, inode.size);
    var blocks := Blocks(inode.extents);
    if r.first <= i < r.end {
      assert disk'[after[i]].bytes[k] == ImageByte(req, inode.size, OldBlock(disk, Kept(req, blocks), i), i, k);
    } else {
      OutsideReplaced(req, inode.size, p);
      assert FileByte(disk', after, p) == FileByte(disk, blocks, p);
      assert p >= inode.size ==> Slack(disk, inode)[p - inode.size] == FileByte(disk, blocks, p);
    }
  }

  lemma BeyondTheEnd(req: Request, prior: seq<Byte>, p: nat)
    requires Acceptable(req, |prior|) && req.finalSize <= p
    ensures PatchedByte(prior, req, p) == 0
  {
  }

  /** A file written whole has its buffer and zeros. */
  lemma WholeFile(bytes: seq<Byte>, slack: seq<Byte>, req: Request)
    requires Acceptable(req, |bytes|) && !req.preserve
    ensures Rewritten(bytes, slack, req) == Bytes(req.buffer, Zeros(SlackSize(req.finalSize)))
  {
    hide Replaced;
    var r := Rewritten(bytes, slack, req);
    forall p | 0 <= p < |r.bytes| + |r.slack|
      ensures NewByte(bytes, slack, req, p) == if p < req.finalSize then req.buffer[p] else 0
    {
      if !(Replaced(req, |bytes|).first <= p / BLOCK_SIZE < Replaced(req, |bytes|).end) {
        OutsideReplaced(req, |bytes|, p);
      }
    }
    assert r.bytes == req.buffer;
    assert r.slack == Zeros(SlackSize(req.finalSize));
  }

  function Zeros(n: nat): (s: seq<Byte>)
    ensures |s| == n && forall i :: 0 <= i < n ==> s[i] == 0
  {
    seq(n, _ => 0)
  }
}
