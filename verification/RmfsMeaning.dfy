/** What successful writes mean to someone who reads by path, exactly when a range write shows bytes nobody
    wrote, and why that never happens on a volume whose files have zeros past their ends. */
module RmfsMeaning {
  import opened RmfsExtents
  import opened RmfsVolume
  import opened RmfsPatch
  import opened RmfsDirectory
  import opened RmfsTransaction
  import opened RmfsState

  // ---------------------------------------------------------------- paths

  ghost predicate SlotsLive(nodes: map<nat, Node>, slots: seq<Dirent>) {
    forall i :: 0 <= i < |slots| && slots[i].Entry? ==> slots[i].inode in nodes
  }

  /** Every directory entry names a live inode. */
  ghost predicate EntriesLive(nodes: map<nat, Node>) {
    forall d :: d in nodes && nodes[d].content.Names? ==> SlotsLive(nodes, nodes[d].content.slots)
  }

  /** Replacing one file by another changes where no path leads. */
  lemma {:induction false} WalkPastFile(nodes: map<nat, Node>, n: nat, file: Node, start: nat, path: seq<Name>)
    requires n in nodes && !nodes[n].content.Names? && !file.content.Names?
    ensures Walk(nodes[n := file], start, path) == Walk(nodes, start, path)
    decreases |path|
  {
    if path != [] && start in nodes && start != n && nodes[start].content.Names? {
      var slots := nodes[start].content.slots;
      var k := Lookup(slots, path[0], |slots|);
      if k < |slots| {
        WalkPastFile(nodes, n, file, slots[k].inode, path[1..]);
      }
    }
  }

  /** A new entry under a new name changes no other lookup. */
  lemma LookupLinked(slots: seq<Dirent>, k: nat, n: nat, name: Name, other: Name)
    requires Vacant(slots, k) && Lookup(slots, name, |slots|) == |slots|
    ensures var after := Linked(slots, k, Entry(n, name));
      && Lookup(after, name, |after|) == k && after[k] == Entry(n, name)
      && (Lookup(slots, other, |slots|) < |slots| ==>
            && Lookup(after, other, |after|) == Lookup(slots, other, |slots|)
            && after[Lookup(slots, other, |slots|)] == slots[Lookup(slots, other, |slots|)])
  {
    var after := Linked(slots, k, Entry(n, name));
    LookupIs(after, name, k);
    var i := Lookup(slots, other, |slots|);
    if i < |slots| {
      assert i != k;
      LookupIs(after, other, i);
    }
  }

  /** Creating a file redirects no path that led somewhere. */
  lemma {:induction false} WalkPastCreation(s: Snapshot, s': Snapshot, d: nat, name: Name, n: nat, k: nat, req: Request,
                                            start: nat, path: seq<Name>)
    requires Created(s, s', d, name, n, k, req) && EntriesLive(s.nodes) && start in s.nodes
    requires Lookup(s.nodes[d].content.slots, name, |s.nodes[d].content.slots|) == |s.nodes[d].content.slots|
    requires Walk(s.nodes, start, path).Reached?
    ensures Walk(s'.nodes, start, path) == Walk(s.nodes, start, path)
    decreases |path|
  {
    if path != [] {
      var slots := s.nodes[start].content.slots;
      var i := Lookup(slots, path[0], |slots|);
      if start == d {
        LookupLinked(slots, k, n, name, path[0]);
      }
      WalkPastCreation(s, s', d, name, n, k, req, slots[i].inode, path[1..]);
    }
  }

  lemma {:induction false} WalkEndsLive(nodes: map<nat, Node>, start: nat, path: seq<Name>)
    requires EntriesLive(nodes) && start in nodes && Walk(nodes, start, path).Reached?
    ensures Walk(nodes, start, path).inode in nodes
    decreases |path|
  {
    if path != [] {
      var slots := nodes[start].content.slots;
      WalkEndsLive(nodes, slots[Lookup(slots, path[0], |slots|)].inode, path[1..]);
    }
  }

  /** A path whose directory exists but which leads nowhere lacks only its last name. */
  lemma LastNameMissing(nodes: map<nat, Node>, root: nat, path: seq<Name>, d: nat)
    requires path != [] && Walk(nodes, root, path[..|path| - 1]) == Reached(d) && Walk(nodes, root, path) == Missing
    requires d in nodes && nodes[d].content.Names?
    ensures var slots := nodes[d].content.slots; Lookup(slots, path[|path| - 1], |slots|) == |slots|
  {
    hide Walk;
    assert path[..|path| - 1 + 1] == path;
    WalkSnoc(nodes, root, path, |path| - 1, d);
    WalkOne(nodes, d, path[|path| - 1]);
  }

  /** What a path leads to, or nothing when it leads to no file. */
  ghost function ContentAt(nodes: map<nat, Node>, root: nat, path: seq<Name>): (c: Content)
    ensures c.Bytes?
  {
    match Walk(nodes, root, path)
    case Missing => Bytes([], [])
    case Reached(n) => if n in nodes && nodes[n].content.Bytes? then nodes[n].content else Bytes([], [])
  }

  /** The bytes a path reads. */
  ghost function BytesAt(nodes: map<nat, Node>, root: nat, path: seq<Name>): seq<Byte> {
    ContentAt(nodes, root, path).bytes
  }

  /** A write that has something to do. */
  predicate Active(req: Request) {
    if req.preserve then req.buffer != [] else req.offset == 0 && |req.buffer| == req.finalSize
  }

  /** A successful write, seen by path: the written path now holds what the request makes of its old
      contents (a new file's being none), and every path that led to another inode still leads there and
      reads what it did. */
  lemma WriteReadsBack(s: Snapshot, s': Snapshot, root: nat, path: seq<Name>, req: Request, other: seq<Name>)
    requires EntriesLive(s.nodes) && root in s.nodes && Answers(s, s', root, path, req) && Active(req)
    ensures Walk(s'.nodes, root, path).Reached? && Acceptable(req, |BytesAt(s.nodes, root, path)|)
    ensures ContentAt(s'.nodes, root, path) == Rewritten(BytesAt(s.nodes, root, path), ContentAt(s.nodes, root, path).slack, req)
    ensures Walk(s.nodes, root, other).Reached? ==> Walk(s'.nodes, root, other) == Walk(s.nodes, root, other)
    ensures Walk(s.nodes, root, other).Reached? && Walk(s.nodes, root, other) != Walk(s'.nodes, root, path) ==>
      BytesAt(s'.nodes, root, other) == BytesAt(s.nodes, root, other)
  {
    hide Walk, Lookup, Rewritten, EntriesLive;
    match Walk(s.nodes, root, path) {
      case Reached(n) =>
        WalkPastFile(s.nodes, n, s'.nodes[n], root, path);
        WalkPastFile(s.nodes, n, s'.nodes[n], root, other);
      case Missing =>
        CreationReadsBack(s, s', root, path, req, other);
    }
  }

  lemma CreationReadsBack(s: Snapshot, s': Snapshot, root: nat, path: seq<Name>, req: Request, other: seq<Name>)
    requires EntriesLive(s.nodes) && root in s.nodes && Answers(s, s', root, path, req)
    requires Walk(s.nodes, root, path) == Missing && req.offset == 0 && |req.buffer| == req.finalSize
    ensures Walk(s'.nodes, root, path).Reached?
    ensures ContentAt(s'.nodes, root, path) == Rewritten([], [], req)
    ensures Walk(s.nodes, root, other).Reached? ==> Walk(s'.nodes, root, other) == Walk(s.nodes, root, other)
    ensures Walk(s.nodes, root, other).Reached? ==> BytesAt(s'.nodes, root, other) == BytesAt(s.nodes, root, other)
  {
    hide Walk, Lookup, EntriesLive;
    var last := |path| - 1;
    var d := Walk(s.nodes, root, path[..last]).inode;
    var n, k :| Created(s, s', d, path[last], n, k, req);
    var slots := s.nodes[d].content.slots;
    LastNameMissing(s.nodes, root, path, d);
    WalkPastCreation(s, s', d, path[last], n, k, req, root, path[..last]);
    LookupLinked(slots, k, n, path[last], path[last]);
    assert path[..last + 1] == path;
    WalkSnoc(s'.nodes, root, path, last, d);
    WalkOne(s'.nodes, d, path[last]);
    WholeFile([], [], req);
    if Walk(s.nodes, root, other).Reached? {
      WalkPastCreation(s, s', d, path[last], n, k, req, root, other);
      WalkEndsLive(s.nodes, root, other);
    }
  }

  /** Between operations a mounted volume is as `WriteReadsBack` needs it. */
  lemma SoundIsWalkable(m: Mem)
    requires Sound(m)
    ensures EntriesLive(Logical(m).nodes) && m.geo.rootInode in Logical(m).nodes
  {
    hide LiveInodes, Blocks, Coherent, BitmapsSynced, SuperSound;
    forall d | d in Inodes(m) && Inodes(m)[d].kind.Directory?
      ensures SlotsLive(Logical(m).nodes, DirSlots(m.disk, Inodes(m)[d]))
    {
      VolDirectory(m, d);
    }
  }

  // ---------------------------------------------------------------- exposed bytes

  /** Byte `p` lies past the old end but below the new one, and in a block that is not rewritten. */
  predicate Exposed(req: Request, oldSize: nat, p: nat) {
    && oldSize <= p < req.finalSize
    && !(Replaced(req, oldSize).first <= p / BLOCK_SIZE < Replaced(req, oldSize).end)
  }

  /** Which bytes are exposed: none, unless the size grows within the old last block and the write
      stops short of that block. */
  lemma ExposedWhen(req: Request, oldSize: nat, p: nat)
    requires Acceptable(req, oldSize)
    ensures Exposed(req, oldSize, p) <==>
      && req.preserve && oldSize <= p < req.finalSize
      && CeilDiv(req.finalSize, BLOCK_SIZE) == CeilDiv(oldSize, BLOCK_SIZE)
      && CeilDiv(req.offset + |req.buffer|, BLOCK_SIZE) < CeilDiv(oldSize, BLOCK_SIZE)
  {
  }

  /** A write reads back as the old bytes patched with the buffer if and only if the bytes it exposes were zero. */
  lemma PatchedExactly(bytes: seq<Byte>, slack: seq<Byte>, req: Request)
    requires Acceptable(req, |bytes|)
    ensures Rewritten(bytes, slack, req).bytes == Patched(bytes, req) <==>
      forall p: nat :: Exposed(req, |bytes|, p) ==> RawByte(bytes, slack, p) == 0
  {
    hide Replaced, Acceptable, Exposed;
    var after := Rewritten(bytes, slack, req).bytes;
    forall p: nat | p < req.finalSize
      ensures !Exposed(req, |bytes|, p) ==> after[p] == PatchedByte(bytes, req, p)
      ensures Exposed(req, |bytes|, p) ==> after[p] == RawByte(bytes, slack, p) && PatchedByte(bytes, req, p) == 0
    {
      OneByte(bytes, slack, req, p);
    }
    assert forall p: nat :: Exposed(req, |bytes|, p) ==> p < req.finalSize by {
      forall p: nat | Exposed(req, |bytes|, p) ensures p < req.finalSize { ExposedRange(req, |bytes|, p); }
    }
    if after == Patched(bytes, req) {
      forall p: nat | Exposed(req, |bytes|, p)
        ensures RawByte(bytes, slack, p) == 0
      {
        assert after[p] == Patched(bytes, req)[p];
      }
    }
  }

  lemma ExposedRange(req: Request, oldSize: nat, p: nat)
    requires Exposed(req, oldSize, p)
    ensures oldSize <= p < req.finalSize
  {
  }

  lemma OneByte(bytes: seq<Byte>, slack: seq<Byte>, req: Request, p: nat)
    requires Acceptable(req, |bytes|) && p < req.finalSize
    ensures !Exposed(req, |bytes|, p) ==> NewByte(bytes, slack, req, p) == PatchedByte(bytes, req, p)
    ensures Exposed(req, |bytes|, p) ==> NewByte(bytes, slack, req, p) == RawByte(bytes, slack, p) && PatchedByte(bytes, req, p) == 0
  {
    hide Replaced;
    if !(Replaced(req, |bytes|).first <= p / BLOCK_SIZE < Replaced(req, |bytes|).end) {
      OutsideReplaced(req, |bytes|, p);
    }
  }

  // ---------------------------------------------------------------- zeros past every end

  /** Past the end of every file there are zeros. */
  ghost predicate ZeroSlack(s: Snapshot) {
    forall n :: n in s.nodes && s.nodes[n].content.Bytes? ==> AllZero(s.nodes[n].content.slack)
  }

  ghost predicate AllZero(bytes: seq<Byte>) {
    forall i :: 0 <= i < |bytes| ==> bytes[i] == 0
  }

  lemma RewrittenSlack(bytes: seq<Byte>, slack: seq<Byte>, req: Request)
    requires Acceptable(req, |bytes|) && AllZero(slack)
    ensures AllZero(Rewritten(bytes, slack, req).slack)
  {
    hide Replaced;
    var r := Rewritten(bytes, slack, req).slack;
    forall i | 0 <= i < |r|
      ensures r[i] == 0
    {
      var p := req.finalSize + i;
      if Replaced(req, |bytes|).first <= p / BLOCK_SIZE < Replaced(req, |bytes|).end {
        BeyondTheEnd(req, bytes, p);
      } else {
        OutsideReplaced(req, |bytes|, p);
      }
    }
  }

  /** Every write keeps it so. */
  lemma SlackStaysZero(s: Snapshot, s': Snapshot, root: nat, path: seq<Name>, req: Request)
    requires ZeroSlack(s) && Answers(s, s', root, path, req)
    ensures ZeroSlack(s')
  {
    hide Walk, Rewritten, Acceptable;
    match Walk(s.nodes, root, path)
    case Reached(n) =>
      if !(req.preserve && req.buffer == []) {
        RewrittenSlack(s.nodes[n].content.bytes, s.nodes[n].content.slack, req);
      }
    case Missing =>
      var n, k :| Created(s, s', Walk(s.nodes, root, path[..|path| - 1]).inode, path[|path| - 1], n, k, req);
  }

  /** From a volume with zeros past every end, however many writes succeed, each reads back as the bytes the path
      read before, patched with its buffer. */
  lemma {:induction false} WritesReadBack(states: seq<Snapshot>, root: nat, paths: seq<seq<Name>>, requests: seq<Request>, i: nat)
    requires |states| == |paths| + 1 == |requests| + 1 && i < |paths| && ZeroSlack(states[0])
    requires forall k :: 0 <= k < |paths| ==> WriteStep(states[k], states[k + 1], root, paths[k], requests[k])
    ensures ZeroSlack(states[i + 1])
    ensures BytesAt(states[i + 1].nodes, root, paths[i]) == Patched(BytesAt(states[i].nodes, root, paths[i]), requests[i])
    decreases i
  {
    hide Answers, EntriesLive, Active, ZeroSlack, Rewritten, Patched;
    if i > 0 {
      WritesReadBack(states, root, paths, requests, i - 1);
    }
    assert WriteStep(states[i], states[i + 1], root, paths[i], requests[i]);
    SlackStaysZero(states[i], states[i + 1], root, paths[i], requests[i]);
    WriteReadsBack(states[i], states[i + 1], root, paths[i], requests[i], []);
    var c := ContentAt(states[i].nodes, root, paths[i]);
    ContentSlack(states[i], root, paths[i]);
    PatchedExactly(c.bytes, c.slack, requests[i]);
    forall p: nat | Exposed(requests[i], |c.bytes|, p)
      ensures RawByte(c.bytes, c.slack, p) == 0
    {
    }
  }

  ghost predicate WriteStep(s: Snapshot, s': Snapshot, root: nat, path: seq<Name>, req: Request) {
    EntriesLive(s.nodes) && root in s.nodes && Answers(s, s', root, path, req) && Active(req)
  }

  lemma ContentSlack(s: Snapshot, root: nat, path: seq<Name>)
    requires ZeroSlack(s)
    ensures AllZero(ContentAt(s.nodes, root, path).slack)
  {
    hide Walk;
  }
}
