/** Directory slots and path walks of RMFS (kernel/rmfs.c:397-537). */
module RmfsDirectory {
  import opened RmfsExtents
  import opened RmfsVolume

  type Name = seq<char>

  predicate Matches(slot: Dirent, name: Name) {
    slot.Entry? && slot.name == name
  }

  /** The first slot among the first `n` that carries `name`, or `n`. */
  function Lookup(slots: seq<Dirent>, name: Name, n: nat): (k: nat)
    requires n <= |slots|
    ensures k <= n
    ensures k < n ==> Matches(slots[k], name)
    ensures forall j :: 0 <= j < k ==> !Matches(slots[j], name)
  {
    if n == 0 then 0
    else
      var k := Lookup(slots, name, n - 1);
      if k < n - 1 || Matches(slots[n - 1], name) then k else n
  }

  lemma LookupIs(slots: seq<Dirent>, name: Name, k: nat)
    requires k < |slots| && Matches(slots[k], name)
    requires forall j :: 0 <= j < k ==> !Matches(slots[j], name)
    ensures Lookup(slots, name, |slots|) == k
  {
  }

  datatype Scan = BadSlot | Hit(slot: nat, inode: nat) | Miss(free: nat)

  /** Scans the first `limit` slots of one directory block for `name`. A miss reports the first
      unused slot, or `limit`. */
  method ScanBlock(entries: seq<Dirent>, limit: nat, name: Name) returns (r: Scan)
    requires limit <= |entries|
    ensures r.Hit? ==> r.slot < limit && entries[r.slot] == Entry(r.inode, name)
    ensures r.Hit? ==> forall j :: 0 <= j < r.slot ==> !Matches(entries[j], name)
    ensures r.Miss? ==> forall j :: 0 <= j < limit ==> entries[j] != Broken && !Matches(entries[j], name)
    ensures r.Miss? ==> r.free <= limit && forall j :: 0 <= j < r.free ==> entries[j] != Empty
    ensures r.Miss? && r.free < limit ==> entries[r.free] == Empty
    ensures r.BadSlot? ==> exists j :: 0 <= j < limit && entries[j] == Broken
  {
    var free: nat := limit;
    var k := 0;
    while k < limit
      invariant 0 <= k <= limit
      invariant forall j :: 0 <= j < k ==> entries[j] != Broken && !Matches(entries[j], name)
      invariant free == limit || free < k
      invariant free < limit ==> entries[free] == Empty
      invariant forall j :: 0 <= j < k && j < free ==> entries[j] != Empty
    {
      match entries[k] {
        case Empty =>
          if free == limit {
            free := k;
          }
        case Broken =>
          return BadSlot;
        case Entry(inode, found) =>
          if found == name {
            return Hit(k, inode);
          }
      }
      k := k + 1;
    }
    r := Miss(free);
  }

  /** Where a new entry of the directory may go: the first unused slot, or the slot behind the
      last one while the allocated blocks have room. */
  ghost predicate FreeSlot(slots: seq<Dirent>, capacity: nat, k: nat) {
    && (forall j :: 0 <= j < k && j < |slots| ==> slots[j] != Empty)
    && if k < |slots| then slots[k] == Empty else k == |slots| < capacity
  }

  /** Slot `k` is the first unused one, or the one behind the last. */
  ghost predicate Vacant(slots: seq<Dirent>, k: nat) {
    && k <= |slots| && (k < |slots| ==> slots[k] == Empty)
    && forall j :: 0 <= j < k ==> slots[j] != Empty
  }

  predicate Full(slots: seq<Dirent>, capacity: nat) {
    |slots| == capacity && forall j :: 0 <= j < |slots| ==> slots[j] != Empty
  }

  /** What a directory search reports; `logical` is the number of the unused slot. */
  datatype DirResult = DirResult(found: bool, inode: nat, freeFound: bool, freeBlock: nat, freeSlot: nat, logical: nat)

  /** The search went through the first `n` slots without meeting `name`. */
  ghost predicate Searching(slots: seq<Dirent>, blocks: seq<nat>, name: Name, n: nat, r: DirResult) {
    && n <= |slots|
    && (forall j :: 0 <= j < n ==> !Matches(slots[j], name))
    && if r.freeFound then
         && r.logical < n && slots[r.logical] == Empty
         && (forall j :: 0 <= j < r.logical ==> slots[j] != Empty)
         && r.logical / SLOTS_PER_BLOCK < |blocks| && r.freeBlock == blocks[r.logical / SLOTS_PER_BLOCK]
         && r.freeSlot == r.logical % SLOTS_PER_BLOCK
       else forall j :: 0 <= j < n ==> slots[j] != Empty
  }

  /** The whole directory has been searched. */
  ghost predicate Searched(slots: seq<Dirent>, blocks: seq<nat>, name: Name, r: DirResult) {
    var k := Lookup(slots, name, |slots|);
    && (r.found <==> k < |slots|)
    && (r.found ==> r.inode == slots[k].inode)
    && (!r.found && r.freeFound ==>
          && FreeSlot(slots, |blocks| * SLOTS_PER_BLOCK, r.logical)
          && r.logical / SLOTS_PER_BLOCK < |blocks| && r.freeBlock == blocks[r.logical / SLOTS_PER_BLOCK]
          && r.freeSlot == r.logical % SLOTS_PER_BLOCK)
    && (!r.found && !r.freeFound ==> Full(slots, |blocks| * SLOTS_PER_BLOCK))
  }

  /** Block number `block` of a directory holds `entries`. */
  ghost predicate HoldsSlots(slots: seq<Dirent>, block: nat, entries: seq<Dirent>) {
    && |entries| == SLOTS_PER_BLOCK
    && forall j :: 0 <= j < SLOTS_PER_BLOCK && block * SLOTS_PER_BLOCK + j < |slots| ==>
         slots[block * SLOTS_PER_BLOCK + j] == entries[j]
  }

  lemma SlotsHeld(slots: seq<Dirent>, block: nat, entries: seq<Dirent>)
    requires HoldsSlots(slots, block, entries)
    ensures forall k :: block * SLOTS_PER_BLOCK <= k < (block + 1) * SLOTS_PER_BLOCK && k < |slots| ==>
      slots[k] == entries[k - block * SLOTS_PER_BLOCK]
  {
    forall k | block * SLOTS_PER_BLOCK <= k < (block + 1) * SLOTS_PER_BLOCK && k < |slots|
      ensures slots[k] == entries[k - block * SLOTS_PER_BLOCK]
    {
      assert slots[block * SLOTS_PER_BLOCK + (k - block * SLOTS_PER_BLOCK)] == entries[k - block * SLOTS_PER_BLOCK];
    }
  }

  /** Carries a search through directory block number `block`, stored in block `physical`. */
  method SearchBlock(entries: seq<Dirent>, limit: nat, name: Name, scanned: nat, r0: DirResult, physical: nat,
                     ghost slots: seq<Dirent>, ghost blocks: seq<nat>, ghost block: nat)
    returns (ok: bool, r: DirResult)
    requires HoldsSlots(slots, block, entries) && scanned == block * SLOTS_PER_BLOCK
    requires limit <= SLOTS_PER_BLOCK && scanned + limit <= |slots|
    requires block < |blocks| && blocks[block] == physical
    requires !r0.found && Searching(slots, blocks, name, scanned, r0)
    ensures ok && r.found ==> Searched(slots, blocks, name, r)
    ensures ok && !r.found ==> Searching(slots, blocks, name, scanned + limit, r)
  {
    hide HoldsSlots, Lookup;
    SlotsHeld(slots, block, entries);
    assert |entries| == SLOTS_PER_BLOCK by { HeldSize(slots, block, entries); }
    var scan := ScanBlock(entries, limit, name);
    match scan {
      case BadSlot =>
        return false, r0;
      case Hit(slot, inode) =>
        LookupIs(slots, name, scanned + slot);
        return true, r0.(found := true, inode := inode);
      case Miss(free) =>
        r := r0;
        if !r.freeFound && free < limit {
          r := r.(freeFound := true, freeBlock := physical, freeSlot := free, logical := scanned + free);
        }
        return true, r;
    }
  }

  lemma HeldSize(slots: seq<Dirent>, block: nat, entries: seq<Dirent>)
    requires HoldsSlots(slots, block, entries)
    ensures |entries| == SLOTS_PER_BLOCK
  {
  }

  /** A search that went through every slot is complete, except for the slot behind the last one. */
  lemma SearchDone(slots: seq<Dirent>, blocks: seq<nat>, name: Name, r: DirResult)
    requires Searching(slots, blocks, name, |slots|, r) && !r.found
    requires |slots| <= |blocks| * SLOTS_PER_BLOCK
    ensures r.freeFound || |slots| == |blocks| * SLOTS_PER_BLOCK ==> Searched(slots, blocks, name, r)
    ensures !r.freeFound && |slots| < |blocks| * SLOTS_PER_BLOCK ==>
      && |slots| / SLOTS_PER_BLOCK < |blocks|
      && Searched(slots, blocks, name,
           r.(freeFound := true, freeBlock := blocks[|slots| / SLOTS_PER_BLOCK],
              freeSlot := |slots| % SLOTS_PER_BLOCK, logical := |slots|))
  {
    assert Lookup(slots, name, |slots|) == |slots|;
  }

  // ---------------------------------------------------------------- paths

  datatype Target = Missing | Reached(inode: nat)

  /** Follows `path` from inode `n` through the directories of the volume. */
  ghost function Walk(nodes: map<nat, Node>, n: nat, path: seq<Name>): Target
    decreases |path|
  {
    if path == [] then Reached(n)
    else if n in nodes && nodes[n].content.Names? then
      var slots := nodes[n].content.slots;
      var k := Lookup(slots, path[0], |slots|);
      if k < |slots| then Walk(nodes, slots[k].inode, path[1..]) else Missing
    else Missing
  }

  /** Walking a path is walking its first part, then the rest. */
  lemma {:induction false} WalkSplit(nodes: map<nat, Node>, n: nat, path: seq<Name>, k: nat)
    requires k <= |path|
    ensures Walk(nodes, n, path) == match Walk(nodes, n, path[..k])
      case Missing => Missing
      case Reached(m) => Walk(nodes, m, path[k..])
    decreases |path|
  {
    if k == 0 {
      assert path[k..] == path;
    } else if n in nodes && nodes[n].content.Names? {
      var slots := nodes[n].content.slots;
      var i := Lookup(slots, path[0], |slots|);
      if i < |slots| {
        WalkSplit(nodes, slots[i].inode, path[1..], k - 1);
        assert path[1..][..k - 1] == path[..k][1..];
        assert path[1..][k - 1..] == path[k..];
      }
    }
  }

  /** The characters of "/a/b/c". */
  function PathLength(path: seq<Name>): nat {
    if path == [] then 0 else PathLength(path[..|path| - 1]) + 1 + |path[|path| - 1]|
  }

  /** One more component. */
  lemma WalkSnoc(nodes: map<nat, Node>, n: nat, path: seq<Name>, i: nat, d: nat)
    requires i < |path| && Walk(nodes, n, path[..i]) == Reached(d)
    ensures Walk(nodes, n, path[..i + 1]) == Walk(nodes, d, [path[i]])
  {
    WalkSplit(nodes, n, path[..i + 1], i);
    assert path[..i + 1][..i] == path[..i];
    assert path[..i + 1][i..] == [path[i]];
  }

  /** A one-component walk is a lookup. */
  lemma WalkOne(nodes: map<nat, Node>, d: nat, name: Name)
    requires d in nodes && nodes[d].content.Names?
    ensures var slots := nodes[d].content.slots; var k := Lookup(slots, name, |slots|);
      Walk(nodes, d, [name]) == if k < |slots| then Reached(slots[k].inode) else Missing
  {
  }
}
