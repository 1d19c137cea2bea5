/** The kernel's page-table writer (kernel/mmu.c), proved against the hardware walk. */
module KernelMmu {
  import opened PageTables

  const WORD_LIMIT: nat := 0x1_0000_0000_0000_0000

  /** Flags a leaf may carry. */
  predicate LeafFlags(flags: Word) {
    flags < 32 && Valid(flags) && Permits(flags) && (Writable(flags) ==> Readable(flags))
  }

  class Kernel {
    var ram: Ram
    /** Pages the page manager has left to hand out. */
    var pool: set<nat>
    /** Page number of the kernel's root table. */
    const root: nat
    /** Bytes of physical memory the kernel can reach through its direct map. */
    const directMap: nat

    /** The tables below the root. */
    ghost var tables: map<nat, Place>

    constructor (ram: Ram, pool: set<nat>, root: nat, directMap: nat)
      requires Formed(ram) && root < |ram.frames| && ram.frames[root] == Empty() && root !in pool
      requires forall p :: p in pool ==> 0 < p < |ram.frames| && (p + 1) * PAGE <= WORD_LIMIT
      ensures Sound() && this.ram == ram && this.pool == pool && this.root == root && this.directMap == directMap
      ensures forall v :: 0 <= v < VIRTUAL_LIMIT ==> Lookup(v) == Missing
    {
      this.ram, this.pool, this.root, this.directMap := ram, pool, root, directMap;
      tables := map[root := Place(2, 0)];
      new;
      forall v | 0 <= v < VIRTUAL_LIMIT
        ensures Lookup(v) == Missing
      {
        EmptyWalk(ram, root, v, 2);
      }
    }

    /** The tables form a tree, and pages still to be handed out are not part of it. */
    ghost predicate Sound()
      reads this
    {
      && Tree(ram, root, tables)
      && forall p :: p in pool ==> 0 < p < |ram.frames| && (p + 1) * PAGE <= WORD_LIMIT && p !in tables
    }

    ghost function Lookup(v: nat): Found
      requires Sound()
      reads this
    {
      Walk(ram, root, v, 2)
    }

    /** kernel_pmm_alloc_page: a cleared page, or 0 when none is left. */
    method AllocatePage() returns (page: nat)
      requires Sound()
      modifies `ram, `pool
      ensures page == 0 <==> old(pool) == {}
      ensures page == 0 ==> ram == old(ram) && pool == old(pool)
      ensures page != 0 ==> page in old(pool) && pool == old(pool) - {page} && ram == Cleared(old(ram), page)
    {
      if pool == {} {
        return 0;
      }
      page :| page in pool;
      pool := pool - {page};
      ram := Cleared(ram, page);
    }

    /** Every translation is what it was, and no valid entry of a table changed. */
    twostate predicate SameTranslations()
      requires old(Sound()) && Sound()
      reads this
    {
      forall v :: 0 <= v < VIRTUAL_LIMIT ==> Lookup(v) == old(Lookup(v))
    }

    twostate predicate EntriesKept()
      requires old(Sound()) && Sound()
      reads this
    {
      && (forall t :: t in old(tables) ==> t in tables && tables[t] == old(tables[t]))
      && ValidKept(old(ram), ram, old(tables))
    }

    /** allocate_next_table: the entry points to a table afterwards, an empty one if there was none. */
    method AllocateNextTable(t: nat, i: nat) returns (ok: bool)
      requires Sound() && t in tables && tables[t].level > 0 && i < ENTRIES
      modifies this
      ensures Sound() && SameTranslations() && EntriesKept()
      ensures ok ==> Pointer(ram.frames[t][i])
      ensures ok <==> Pointer(old(ram.frames[t][i])) || (!Valid(old(ram.frames[t][i])) && old(pool) != {})
      ensures ok && !Valid(old(ram.frames[t][i])) ==> ram.frames[Target(ram.frames[t][i])] == Empty()
      ensures !ok ==> Valid(old(ram.frames[t][i])) || pool == {}
      ensures Valid(old(ram.frames[t][i])) ==> ram == old(ram)
    {
      if Valid(ram.frames[t][i]) {
        return Pointer(ram.frames[t][i]);
      }
      var page := AllocatePage();
      if page == 0 {
        return false;
      }
      TableLinked(old(ram), root, tables, t, i, page);
      EntryParts(page, 1);
      ram := Written(ram, t, i, page * PAGE + 1);
      tables := tables[page := Child(tables[t], i)];
      return true;
    }

    lemma TableFrame(t: nat)
      requires Sound() && t in tables
      ensures t < |ram.frames| && |ram.frames[t]| == ENTRIES && Placed(tables[t])
      ensures !Reachable(t) ==> directMap < ram.size
    {
    }

    /** The address is reachable through the direct map. */
    predicate Reachable(t: nat) {
      t * PAGE < directMap
    }

    /** The walk for `v` comes to table `t`, which covers it. */
    ghost predicate OnTheWay(v: nat, t: nat)
      requires Sound()
      reads this
    {
      t in tables && Within(tables[t], v) && Leads(ram, root, 2, v, t, tables[t].level)
    }

    /** One level down on the way to `va`, through a new table where there is none. */
    method EnterTable(t: nat, va: Word, level: nat) returns (ok: bool, next: nat)
      requires Sound() && OnTheWay(va % VIRTUAL_LIMIT, t) && level == tables[t].level > 0
      modifies this
      ensures Sound() && SameTranslations() && ram.size == old(ram.size)
      ensures ok ==> OnTheWay(va % VIRTUAL_LIMIT, next) && tables[next].level == level - 1
      ensures
        var e := old(ram.frames[t][Index(va, level)]);
        && (!ok ==> (Valid(e) && !Pointer(e)) || pool == {} || directMap < ram.size)
        && (Valid(e) ==> ram == old(ram))
        && (ok && Pointer(e) ==> next == Target(e))
        && (ok && !Pointer(e) ==> !Valid(e) && ram.frames[next] == Empty())
    {
      hide Readable, Writable, Executable, User, Target, Index, Span, Walk, Reserved, Permits, Within, Classify, Leads;
      ghost var v := va % VIRTUAL_LIMIT;
      var i := Index(va, level);
      WrappedIndex(va, level);
      TableFrame(t);
      next := 0;
      ok := AllocateNextTable(t, i);
      if !ok {
        return;
      }
      next := Target(ram.frames[t][i]);
      assert Linked(ram.frames[t][i], tables, t, i);
      TableFrame(next);
      if !Reachable(next) {
        return false, next;
      }
      PointerStep(ram, ram.frames[t][i], level);
      LeadsStay(old(ram), ram, root, old(tables), root, v, t, level);
      LeadsOn(ram, root, 2, v, t, level);
      ChildWithin(tables[t], v);
    }

    /** The leaf is put into its entry and becomes the translation of the addresses it covers. */
    method PutLeaf(t: nat, va: Word, pa: Word, flags: Word, level: nat)
      requires Sound() && OnTheWay(va % VIRTUAL_LIMIT, t) && level == tables[t].level && LeafOk(va, pa, flags, level)
      requires level == 0 || !Valid(ram.frames[t][Index(va, level)])
      modifies `ram
      ensures Sound() && ram.size == old(ram.size)
      ensures forall w :: 0 <= w < VIRTUAL_LIMIT ==>
        Lookup(w) == if Hits(va, w, level) then Page(Or(pa, flags), level) else old(Lookup(w))
    {
      var i := Index(va, level);
      LeafEntry(va, pa, flags, level, ram);
      ram := Written(ram, t, i, Or(pa, flags));
      WrappedIndex(va, level);
      LeafKeepsTree(old(ram), ram, root, tables, t, i);
      forall w | 0 <= w < VIRTUAL_LIMIT
        ensures Lookup(w) == if Hits(va, w, level) then Page(Or(pa, flags), level) else old(Lookup(w))
      {
        LeafWritten(old(ram), ram, root, tables, t, i, va % VIRTUAL_LIMIT, w);
        AlignedCovers(tables[t], va, w);
      }
    }

    /** kernel_map_leaf: on success the leaf is the translation of exactly the addresses it covers. */
    method MapLeaf(va: Word, pa: Word, flags: Word, level: nat) returns (ok: bool)
      requires Sound() && level <= 2
      modifies this
      ensures Sound() && ram.size == old(ram.size)
      ensures level == 2 ==> pool == old(pool)
      ensures ok ==> LeafOk(va, pa, flags, level) && !old(Blocked(ram, root, va, 2, level))
      ensures !ok ==> SameTranslations()
      ensures !ok && LeafOk(va, pa, flags, level) && pool != {} && ram.size <= directMap ==>
        Blocked(ram, root, va, 2, level) && old(Blocked(ram, root, va, 2, level))
      ensures ok ==> forall w :: 0 <= w < VIRTUAL_LIMIT ==>
        Lookup(w) == if Hits(va, w, level) then Page(Or(pa, flags), level) else old(Lookup(w))
    {
      hide Readable, Writable, Executable, User, Target, Index, Span, Walk, Reserved, Permits, Tree, Within, Classify, Leads;
      if va % Span(level) != 0 || pa % Span(level) != 0 || !LeafFlags(flags) {
        return false;
      }
      AlignedToPage(pa, level);
      RootOnTheWay(ram, root, tables, va % VIRTUAL_LIMIT);
      TableFrame(root);
      if !Reachable(root) {
        return false;
      }
      if level == 2 {
        if Valid(ram.frames[root][Index(va, 2)]) {
          return false;
        }
        PutLeaf(root, va, pa, flags, 2);
        return true;
      }
      var level1, level0;
      ok, level1 := EnterTable(root, va, 2);
      if !ok {
        return;
      }
      TableFrame(level1);
      if level == 1 {
        if Valid(ram.frames[level1][Index(va, 1)]) {
          return false;
        }
        PutLeaf(level1, va, pa, flags, 1);
        return true;
      }
      ok, level0 := EnterTable(level1, va, 1);
      if !ok {
        return;
      }
      PutLeaf(level0, va, pa, flags, 0);
    }

    /** The first `done` of `length` bytes from `vpage` are mapped to those from `ppage`, and nothing else changed. */
    twostate predicate MappedSoFar(vpage: nat, ppage: nat, done: nat, length: nat, flags: Word)
      requires old(Sound()) && Sound()
      reads this
    {
      forall w :: 0 <= w < VIRTUAL_LIMIT ==>
        if vpage <= w < vpage + done then Mapped(Lookup(w), w, vpage, ppage, length, flags)
        else Lookup(w) == old(Lookup(w))
    }

    /** What the hardware makes of it: inside the range the intended physical addresses with the permissions asked for,
        unless a leaf reaches over the end of memory, and outside the translations there were. */
    twostate lemma HardwareSees(vpage: nat, ppage: nat, done: nat, length: nat, flags: Word)
      requires old(Sound()) && Sound() && ram.size == old(ram.size)
      requires MappedSoFar(vpage, ppage, done, length, flags)
      ensures forall w: nat, user, access :: vpage <= w < vpage + done && w < VIRTUAL_LIMIT ==>
        Translation(ram, root * PAGE, user, w, access) ==
        if !Granted(flags, user, access) then PermissionDenied else if LeafFits(ram, root, w) then Ok(ppage + (w - vpage)) else MalformedEntry
      ensures forall w: nat, user, access :: !(vpage <= w < vpage + done) ==>
        Translation(ram, root * PAGE, user, w, access) == old(Translation(ram, root * PAGE, user, w, access))
      ensures ppage + length <= ram.size || ram.size <= ppage ==> LeavesFit(ram, root, vpage, done)
    {
      hide Walk, Span, Classify, Mapped, Granted;
      assert root * PAGE / PAGE == root;
      forall w: nat, user, access | vpage <= w < vpage + done && w < VIRTUAL_LIMIT
        ensures Translation(ram, root * PAGE, user, w, access) ==
          if !Granted(flags, user, access) then PermissionDenied else if LeafFits(ram, root, w) then Ok(ppage + (w - vpage)) else MalformedEntry
      {
        assert Mapped(Lookup(w), w, vpage, ppage, length, flags);
        MappedTranslates(ram, root, w, vpage, ppage, length, flags, user, access);
      }
      forall w: nat | vpage <= w < vpage + done && w < VIRTUAL_LIMIT
        ensures ppage + length <= ram.size || ram.size <= ppage ==> LeafFits(ram, root, w)
      {
        assert Mapped(Lookup(w), w, vpage, ppage, length, flags);
        MappedTranslates(ram, root, w, vpage, ppage, length, flags, false, Read);
      }
      forall w: nat, user, access | !(vpage <= w < vpage + done)
        ensures Translation(ram, root * PAGE, user, w, access) == old(Translation(ram, root * PAGE, user, w, access))
      {
        assert w < VIRTUAL_LIMIT ==> Lookup(w) == old(Lookup(w));
      }
    }

    /** The first `done` bytes of a range are mapped, wherever its addresses wrap: what `w` finds is a leaf for the last
        address of the range that wraps to it, and if there is none what it found before. */
    twostate predicate WrappedSoFar(vpage: nat, ppage: nat, done: nat, flags: Word)
      requires old(Sound()) && Sound()
      reads this
    {
      WrappedIn(old(ram), ram, root, vpage, ppage, done, flags)
    }

    /** One round of map_range: the largest leaf that fits at `offset`. */
    method MapChunk(vpage: nat, ppage: nat, offset: nat, length: nat, flags: Word) returns (ok: bool, leaf: nat)
      requires Sound() && offset < length && vpage + length <= WORD_LIMIT && ppage + length <= WORD_LIMIT
      requires vpage % PAGE == 0 && ppage % PAGE == 0 && offset % PAGE == 0 && length % PAGE == 0
      modifies this
      ensures Sound() && ram.size == old(ram.size)
      ensures 0 < leaf <= length - offset && leaf % PAGE == 0
      ensures !ok ==> SameTranslations()
      ensures !ok && LeafFlags(flags) && pool != {} && ram.size <= directMap ==> InTheWay(ram, root, vpage + offset)
      ensures ok && vpage + length <= VIRTUAL_LIMIT ==> forall w :: 0 <= w < VIRTUAL_LIMIT ==>
        if vpage + offset <= w < vpage + offset + leaf then Mapped(Lookup(w), w, vpage, ppage, length, flags)
        else Lookup(w) == old(Lookup(w))
      ensures ok ==> ChunkIn(old(ram), ram, root, vpage + offset, ppage + offset, leaf, flags)
      ensures InOneTurn(vpage + offset, leaf) && (ok ==> LeafFlags(flags))
    {
      hide Readable, Writable, Executable, User, Target, Walk, Tree, Blocked, Or, Mapped, MappedTo, LeafLevel, Flags, Permits, Valid, Span, InOneTurn;
      PageSums(vpage, ppage, offset);
      TreeFormed(ram, root, tables);
      var level := LeafLevel(vpage + offset, ppage + offset, length - offset);
      leaf := Span(level);
      WholePages(0, level);
      ok := MapLeaf(vpage + offset, ppage + offset, flags, level);
      LeafInOneTurn(vpage + offset, level);
      if ok {
        TreeFormed(ram, root, tables);
        ghost var va, pa := vpage + offset, ppage + offset;
        forall w | 0 <= w < VIRTUAL_LIMIT
          ensures LeafAt(old(ram), ram, root, va, pa, flags, level, w)
        {
          assert Lookup(w) == if Hits(va, w, level) then Page(Or(pa, flags), level) else old(Lookup(w));
        }
        LeafIsChunk(old(ram), ram, root, va, pa, flags, level);
        if vpage + length <= VIRTUAL_LIMIT {
          LeafIsMapped(old(ram), ram, root, vpage, ppage, offset, length, flags, level);
        }
      }
    }

    /** map_range: the largest leaves that fit, until the range is covered. A failure leaves what was mapped
        so far. */
    method MapRange(virtualStart: Word, physicalStart: Word, size: Word, flags: Word) returns (ok: bool, ghost done: nat)
      requires Sound()
      modifies this
      ensures Sound() && ram.size == old(ram.size)
      ensures ok ==> RangeOk(virtualStart, physicalStart, size)
      ensures !ok && RangeOk(virtualStart, physicalStart, size) && LeafFlags(flags) && pool != {} && ram.size <= directMap ==>
        InTheWay(ram, root, PageOf(virtualStart) + done)
      ensures done <= Pages(virtualStart, size) && (ok ==> done == Pages(virtualStart, size))
      ensures PageOf(virtualStart) + Pages(virtualStart, size) <= VIRTUAL_LIMIT ==>
        MappedSoFar(PageOf(virtualStart), PageOf(physicalStart), done, Pages(virtualStart, size), flags)
      ensures WrappedSoFar(PageOf(virtualStart), PageOf(physicalStart), done, flags) && (done > 0 ==> LeafFlags(flags))
    {
      hide Readable, Writable, Executable, User, Target, Walk, Tree, Blocked, Or, Mapped, PageOf, Pages, LeafLevel, Flags, Permits, Valid, Span, RangeOk, LastAt, NoneAt, MappedTo, InOneTurn;
      done := 0;
      TreeFormed(ram, root, tables);
      NothingWrapped(ram, root, PageOf(virtualStart), PageOf(physicalStart), flags);
      if !RangeOk(virtualStart, physicalStart, size) {
        return false, 0;
      }
      var vpage, ppage: nat := PageOf(virtualStart), PageOf(physicalStart);
      var length := Pages(virtualStart, size);
      PagesFit(virtualStart, physicalStart, size);
      var offset := 0;
      while offset < length
        invariant 0 <= offset <= length && offset % PAGE == 0
        invariant Sound() && ram.size == old(ram.size)
        invariant vpage + length <= VIRTUAL_LIMIT ==> MappedSoFar(vpage, ppage, offset, length, flags)
        invariant WrappedSoFar(vpage, ppage, offset, flags) && (offset > 0 ==> LeafFlags(flags))
      {
        var leaf;
        TreeFormed(ram, root, tables);
        label Before:
        ok, leaf := MapChunk(vpage, ppage, offset, length, flags);
        TreeFormed(ram, root, tables);
        if !ok {
          forall w | 0 <= w < VIRTUAL_LIMIT
            ensures Walk(ram, root, w, 2) == Walk(old@Before(ram), root, w, 2)
          {
            assert Lookup(w) == old@Before(Lookup(w));
          }
          assert forall w :: 0 <= w < VIRTUAL_LIMIT ==> Lookup(w) == old@Before(Lookup(w));
          WrapStays(old(ram), old@Before(ram), ram, root, vpage, ppage, offset, flags);
          return false, offset;
        }
        WrapStep(old(ram), old@Before(ram), ram, root, vpage, ppage, offset, leaf, flags);
        offset := offset + leaf;
      }
      return true, offset;
    }
  }

  // ---------------------------------------------------------------- ranges

  function PageOf(a: nat): (p: nat)
    ensures p % PAGE == 0 && p <= a < p + PAGE
  {
    a - a % PAGE
  }

  /** Bytes of the whole pages that hold `size` bytes from `start`. */
  function Pages(start: nat, size: nat): (n: nat)
    ensures n % PAGE == 0 && n < size + start % PAGE + PAGE
    ensures start + size <= PageOf(start) + n
  {
    PageOf(size + start % PAGE + (PAGE - 1))
  }

  /** The two ranges lie alike in their pages and neither runs past the last address. */
  predicate RangeOk(virtualStart: nat, physicalStart: nat, size: nat) {
    && virtualStart % PAGE == physicalStart % PAGE
    && virtualStart + size < WORD_LIMIT && physicalStart + size < WORD_LIMIT
    && size + virtualStart % PAGE + (PAGE - 1) < WORD_LIMIT
  }

  lemma PagesFit(virtualStart: nat, physicalStart: nat, size: nat)
    requires RangeOk(virtualStart, physicalStart, size)
    ensures PageOf(virtualStart) + Pages(virtualStart, size) <= WORD_LIMIT
    ensures PageOf(physicalStart) + Pages(virtualStart, size) <= WORD_LIMIT
  {
  }

  /** The largest leaf that both addresses are aligned for and the rest of the range fills. */
  function LeafLevel(va: nat, pa: nat, remaining: nat): (level: nat)
    requires va % PAGE == 0 && pa % PAGE == 0 && PAGE <= remaining
    ensures level <= 2 && va % Span(level) == 0 && pa % Span(level) == 0 && Span(level) <= remaining
  {
    if va % GIGA == 0 && pa % GIGA == 0 && remaining >= GIGA then 2
    else if va % LARGE == 0 && pa % LARGE == 0 && remaining >= LARGE then 1
    else 0
  }

  lemma WholePages(offset: nat, level: nat)
    requires level <= 2 && offset % PAGE == 0
    ensures (offset + Span(level)) % PAGE == 0
  {
  }

  /** The parts of the range done so far and the whole, as addresses. */
  lemma PageSums(vpage: nat, ppage: nat, offset: nat)
    requires vpage % PAGE == 0 && ppage % PAGE == 0 && offset % PAGE == 0
    ensures (vpage + offset) % PAGE == 0 && (ppage + offset) % PAGE == 0
  {
  }

  // ---------------------------------------------------------------- addresses that wrap

  /** The address at offset `o` of a range wraps to `w`. */
  predicate At(vpage: nat, o: nat, w: int) {
    (vpage + o) % VIRTUAL_LIMIT == w
  }

  /** `o` is the last offset below `done` that wraps to `w`. */
  ghost predicate LastAt(vpage: nat, done: nat, w: int, o: nat) {
    o < done && At(vpage, o, w) && forall q: nat :: o < q < done ==> !At(vpage, q, w)
  }

  ghost predicate NoneAt(vpage: nat, done: nat, w: int) {
    forall q: nat :: q < done ==> !At(vpage, q, w)
  }

  /** `w` is among the `n` addresses from `va` on, once they are wrapped. */
  predicate HitsRun(va: nat, n: nat, w: int) {
    va % VIRTUAL_LIMIT <= w < va % VIRTUAL_LIMIT + n
  }

  /** A run that does not wrap in the middle. */
  predicate InOneTurn(va: nat, n: nat) {
    va % VIRTUAL_LIMIT + n <= VIRTUAL_LIMIT
  }

  lemma LeafInOneTurn(va: nat, level: nat)
    requires level <= 2 && va % Span(level) == 0
    ensures InOneTurn(va, Span(level))
  {
    WrappedAligned(va, level);
    if level == 0 {
      AlignedBelow(va % VIRTUAL_LIMIT, 0x1000);
    } else if level == 1 {
      AlignedBelow(va % VIRTUAL_LIMIT, 0x20_0000);
    } else {
      AlignedBelow(va % VIRTUAL_LIMIT, 0x4000_0000);
    }
  }

  lemma AlignedBelow(v: nat, span: nat)
    requires span == 0x1000 || span == 0x20_0000 || span == 0x4000_0000
    requires v % span == 0 && v < 0x80_0000_0000
    ensures v + span <= 0x80_0000_0000
  {
  }

  /** Offsets of a run that stays in one turn wrap one by one. */
  lemma TurnAt(vpage: nat, offset: nat, leaf: nat, q: nat)
    requires InOneTurn(vpage + offset, leaf) && offset <= q < offset + leaf
    ensures (vpage + q) % VIRTUAL_LIMIT == (vpage + offset) % VIRTUAL_LIMIT + (q - offset)
  {
    Turn(vpage + offset, q - offset);
  }

  lemma Turn(v: nat, d: nat)
    requires v % 0x80_0000_0000 + d < 0x80_0000_0000
    ensures (v + d) % 0x80_0000_0000 == v % 0x80_0000_0000 + d
  {
  }

  /** The last offset for `w` is in the new piece or was the last before. */
  lemma LastMoves(vpage: nat, offset: nat, leaf: nat, w: int, o: nat)
    requires InOneTurn(vpage + offset, leaf) && LastAt(vpage, offset + leaf, w, o)
    ensures if HitsRun(vpage + offset, leaf, w) then o == offset + (w - (vpage + offset) % VIRTUAL_LIMIT) else LastAt(vpage, offset, w, o)
  {
    if HitsRun(vpage + offset, leaf, w) {
      var q := offset + (w - (vpage + offset) % VIRTUAL_LIMIT);
      TurnAt(vpage, offset, leaf, q);
      assert At(vpage, q, w);
      if o >= offset {
        TurnAt(vpage, offset, leaf, o);
      }
    } else if o >= offset {
      TurnAt(vpage, offset, leaf, o);
    }
  }

  lemma NoneMoves(vpage: nat, offset: nat, leaf: nat, w: int)
    requires InOneTurn(vpage + offset, leaf) && NoneAt(vpage, offset + leaf, w)
    ensures !HitsRun(vpage + offset, leaf, w) && NoneAt(vpage, offset, w)
  {
    if HitsRun(vpage + offset, leaf, w) {
      var q := offset + (w - (vpage + offset) % VIRTUAL_LIMIT);
      TurnAt(vpage, offset, leaf, q);
      assert At(vpage, q, w);
    }
  }

  /** `f` is a leaf that gives `w` the physical address `p`. */
  ghost predicate MappedTo(f: Found, w: int, p: nat, flags: Word) {
    w >= 0 && f.Page? && f.level <= 2 && Flags(f.entry) == flags && Physical(f, w) == p
  }

  /** What `w` finds is a leaf for the last of the first `done` addresses of the range that wraps to it, and if there
      is none what it found before. */
  ghost predicate WrappedIn(l: Ram, n: Ram, root: nat, vpage: nat, ppage: nat, done: nat, flags: Word)
    requires Formed(l) && Formed(n) && root < |l.frames| && root < |n.frames|
  {
    && (forall w, o: nat :: 0 <= w < VIRTUAL_LIMIT && LastAt(vpage, done, w, o) ==> MappedTo(Walk(n, root, w, 2), w, ppage + o, flags))
    && (forall w :: 0 <= w < VIRTUAL_LIMIT && NoneAt(vpage, done, w) ==> Walk(n, root, w, 2) == Walk(l, root, w, 2))
  }

  /** The leaf at `va`, wrapped, is what `w` finds; elsewhere nothing changed. */
  ghost predicate ChunkAt(m: Ram, n: Ram, root: nat, va: nat, pa: nat, leaf: nat, flags: Word, w: nat)
    requires Formed(m) && Formed(n) && root < |m.frames| && root < |n.frames|
  {
    if HitsRun(va, leaf, w) then MappedTo(Walk(n, root, w, 2), w, pa + (w - va % VIRTUAL_LIMIT), flags)
    else Walk(n, root, w, 2) == Walk(m, root, w, 2)
  }

  ghost predicate ChunkIn(m: Ram, n: Ram, root: nat, va: nat, pa: nat, leaf: nat, flags: Word)
    requires Formed(m) && Formed(n) && root < |m.frames| && root < |n.frames|
  {
    forall w :: 0 <= w < VIRTUAL_LIMIT ==> ChunkAt(m, n, root, va, pa, leaf, flags, w)
  }

  /** The leaf put in is what the addresses it covers find; elsewhere nothing changed. */
  ghost predicate LeafAt(m: Ram, n: Ram, root: nat, va: nat, pa: Word, flags: Word, level: nat, w: nat)
    requires Formed(m) && Formed(n) && root < |m.frames| && root < |n.frames| && level <= 2 && pa % PAGE == 0 && flags < PAGE
  {
    Walk(n, root, w, 2) == if Hits(va, w, level) then Page(Or(pa, flags), level) else Walk(m, root, w, 2)
  }

  ghost predicate LeafIn(m: Ram, n: Ram, root: nat, va: nat, pa: Word, flags: Word, level: nat)
    requires Formed(m) && Formed(n) && root < |m.frames| && root < |n.frames| && level <= 2 && pa % PAGE == 0 && flags < PAGE
  {
    forall w :: 0 <= w < VIRTUAL_LIMIT ==> LeafAt(m, n, root, va, pa, flags, level, w)
  }

  lemma LeafIsChunk(m: Ram, n: Ram, root: nat, va: nat, pa: Word, flags: Word, level: nat)
    requires Formed(m) && Formed(n) && root < |m.frames| && root < |n.frames| && level <= 2 && pa % PAGE == 0 && flags < PAGE
    requires va % Span(level) == 0 && LeafIn(m, n, root, va, pa, flags, level)
    ensures ChunkIn(m, n, root, va, pa, Span(level), flags)
  {
    hide Walk, Span, Or, MappedTo;
    LeafMapsRun(va, pa, flags, level);
    forall w | 0 <= w < VIRTUAL_LIMIT
      ensures ChunkAt(m, n, root, va, pa, Span(level), flags, w)
    {
      assert LeafAt(m, n, root, va, pa, flags, level, w);
    }
  }

  lemma LeafIsMapped(m: Ram, n: Ram, root: nat, vpage: nat, ppage: nat, offset: nat, length: nat, flags: Word, level: nat)
    requires Formed(m) && Formed(n) && root < |m.frames| && root < |n.frames| && level <= 2 && flags < PAGE
    requires vpage + length <= VIRTUAL_LIMIT && ppage + length <= WORD_LIMIT && offset + Span(level) <= length
    requires (ppage + offset) % PAGE == 0 && (ppage + offset) % Span(level) == 0 && (vpage + offset) % Span(level) == 0
    requires LeafIn(m, n, root, vpage + offset, ppage + offset, flags, level)
    ensures forall w :: 0 <= w < VIRTUAL_LIMIT ==>
      if vpage + offset <= w < vpage + offset + Span(level) then Mapped(Walk(n, root, w, 2), w, vpage, ppage, length, flags)
      else Walk(n, root, w, 2) == Walk(m, root, w, 2)
  {
    hide Walk, Span, Or, Mapped;
    forall w | 0 <= w < VIRTUAL_LIMIT
      ensures if vpage + offset <= w < vpage + offset + Span(level) then Mapped(Walk(n, root, w, 2), w, vpage, ppage, length, flags)
              else Walk(n, root, w, 2) == Walk(m, root, w, 2)
    {
      assert LeafAt(m, n, root, vpage + offset, ppage + offset, flags, level, w);
      if vpage + offset <= w < vpage + offset + Span(level) {
        LeafMaps(w, vpage, ppage, offset, length, flags, level);
      }
    }
  }

  lemma TreeFormed(ram: Ram, root: nat, tables: map<nat, Place>)
    requires Tree(ram, root, tables)
    ensures Formed(ram) && root < |ram.frames|
  {
  }

  lemma NothingWrapped(ram: Ram, root: nat, vpage: nat, ppage: nat, flags: Word)
    requires Formed(ram) && root < |ram.frames|
    ensures WrappedIn(ram, ram, root, vpage, ppage, 0, flags)
  {
  }

  lemma WrapStays(l: Ram, m: Ram, n: Ram, root: nat, vpage: nat, ppage: nat, offset: nat, flags: Word)
    requires Formed(l) && Formed(m) && Formed(n) && root < |l.frames| && root < |m.frames| && root < |n.frames|
    requires WrappedIn(l, m, root, vpage, ppage, offset, flags)
    requires forall w :: 0 <= w < VIRTUAL_LIMIT ==> Walk(n, root, w, 2) == Walk(m, root, w, 2)
    ensures WrappedIn(l, n, root, vpage, ppage, offset, flags)
  {
    hide Walk, MappedTo, LastAt, NoneAt;
  }

  lemma WrapStep(l: Ram, m: Ram, n: Ram, root: nat, vpage: nat, ppage: nat, offset: nat, leaf: nat, flags: Word)
    requires Formed(l) && Formed(m) && Formed(n) && root < |l.frames| && root < |m.frames| && root < |n.frames|
    requires WrappedIn(l, m, root, vpage, ppage, offset, flags) && InOneTurn(vpage + offset, leaf)
    requires ChunkIn(m, n, root, vpage + offset, ppage + offset, leaf, flags)
    ensures WrappedIn(l, n, root, vpage, ppage, offset + leaf, flags)
  {
    hide Walk, MappedTo, LastAt, NoneAt, InOneTurn;
    var next := offset + leaf;
    forall w, o: nat | 0 <= w < VIRTUAL_LIMIT && LastAt(vpage, next, w, o)
      ensures MappedTo(Walk(n, root, w, 2), w, ppage + o, flags)
    {
      assert ChunkAt(m, n, root, vpage + offset, ppage + offset, leaf, flags, w);
      LastMoves(vpage, offset, leaf, w, o);
    }
    forall w | 0 <= w < VIRTUAL_LIMIT && NoneAt(vpage, next, w)
      ensures Walk(n, root, w, 2) == Walk(l, root, w, 2)
    {
      assert ChunkAt(m, n, root, vpage + offset, ppage + offset, leaf, flags, w);
      NoneMoves(vpage, offset, leaf, w);
    }
  }

  lemma LeafMapsTo(va: nat, pa: Word, flags: Word, level: nat, w: nat)
    requires level <= 2 && va % Span(level) == 0 && pa % PAGE == 0 && flags < PAGE && Hits(va, w, level)
    ensures MappedTo(Page(Or(pa, flags), level), w, pa + (w - va % VIRTUAL_LIMIT), flags)
  {
    WrappedAligned(va, level);
    OffsetIn(va % VIRTUAL_LIMIT, w, level);
  }

  lemma LeafMapsRun(va: nat, pa: Word, flags: Word, level: nat)
    requires level <= 2 && va % Span(level) == 0 && pa % PAGE == 0 && flags < PAGE
    ensures forall w: nat :: HitsRun(va, Span(level), w) ==> MappedTo(Page(Or(pa, flags), level), w, pa + (w - va % VIRTUAL_LIMIT), flags)
  {
    hide Span, Or, MappedTo;
    forall w: nat | HitsRun(va, Span(level), w)
      ensures MappedTo(Page(Or(pa, flags), level), w, pa + (w - va % VIRTUAL_LIMIT), flags)
    {
      LeafMapsTo(va, pa, flags, level, w);
    }
  }

  /** What the source intends for byte `d` of a mapping from `va` to `pa`. */
  ghost predicate Lands(ram: Ram, root: nat, va: nat, pa: nat, flags: Word, d: nat)
    requires Formed(ram)
  {
    forall user, access :: Translation(ram, root * PAGE, user, va + d, access) ==
                           if Granted(flags, user, access) then Ok(pa + d) else PermissionDenied
  }

  /** The leaf found for `w` does not reach over the end of memory. */
  ghost predicate LeafFits(ram: Ram, root: nat, w: nat)
    requires Formed(ram) && root < |ram.frames|
  {
    var f := Walk(ram, root, w, 2);
    f.Page? ==> Fits(ram, Target(f.entry) * PAGE, Span(f.level))
  }

  ghost predicate LeavesFit(ram: Ram, root: nat, vpage: nat, length: nat)
    requires Formed(ram) && root < |ram.frames|
  {
    forall w: nat :: vpage <= w < vpage + length && w < VIRTUAL_LIMIT ==> LeafFits(ram, root, w)
  }

  ghost predicate AllLand(ram: Ram, root: nat, va: nat, pa: nat, flags: Word, length: nat)
    requires Formed(ram)
  {
    forall d: nat :: d < length ==> Lands(ram, root, va, pa, flags, d)
  }

  /** A range that was mapped does for every address what was asked for if and only if all of it lies below 2^39 and
      no leaf reaches over the end of memory. */
  lemma RangeFaithful(ram: Ram, root: nat, vpage: nat, ppage: nat, length: nat, flags: Word)
    requires Formed(ram) && root < |ram.frames| && LeafFlags(flags) && length > 0
    requires vpage + length <= VIRTUAL_LIMIT ==>
               forall w: nat :: vpage <= w < vpage + length ==> Mapped(Walk(ram, root, w, 2), w, vpage, ppage, length, flags)
    ensures AllLand(ram, root, vpage, ppage, flags, length) <==>
      vpage + length <= VIRTUAL_LIMIT && LeavesFit(ram, root, vpage, length)
  {
    hide Granted, Valid, Permits, Readable, Writable, Executable, Walk, Mapped, Lands, LeafFits, Translation;
    if vpage + length <= VIRTUAL_LIMIT {
      forall d: nat | d < length
        ensures Lands(ram, root, vpage, ppage, flags, d) <==> LeafFits(ram, root, vpage + d)
      {
        RangeByte(ram, root, vpage, ppage, length, flags, vpage + d);
      }
      forall w: nat | vpage <= w < vpage + length
        ensures Lands(ram, root, vpage, ppage, flags, w - vpage) <==> LeafFits(ram, root, w)
      {
        RangeByte(ram, root, vpage, ppage, length, flags, w);
      }
    } else {
      OutsideLands(ram, root, vpage, ppage, flags, length - 1);
    }
  }

  lemma RangeByte(ram: Ram, root: nat, vpage: nat, ppage: nat, length: nat, flags: Word, w: nat)
    requires Formed(ram) && root < |ram.frames| && LeafFlags(flags) && vpage <= w < VIRTUAL_LIMIT
    requires Mapped(Walk(ram, root, w, 2), w, vpage, ppage, length, flags)
    ensures Lands(ram, root, vpage, ppage, flags, w - vpage) <==> LeafFits(ram, root, w)
  {
    hide Granted, Valid, Permits, Readable, Writable, Executable, Walk, Mapped, Lands, Translation;
    forall user, access
      ensures Translation(ram, root * PAGE, user, vpage + (w - vpage), access) ==
              if !Granted(flags, user, access) then PermissionDenied
              else if LeafFits(ram, root, w) then Ok(ppage + (w - vpage)) else MalformedEntry
    {
      MappedTranslates(ram, root, w, vpage, ppage, length, flags, user, access);
    }
    LandsOrNot(ram, root, vpage, ppage, flags, w - vpage, LeafFits(ram, root, w));
  }

  /** A leaf that was mapped does for every address what was asked for if and only if all of it lies below 2^39 and it
      does not reach over the end of memory. */
  lemma LeafFaithful(ram: Ram, root: nat, va: Word, pa: Word, flags: Word, level: nat)
    requires Formed(ram) && root < |ram.frames| && level <= 2 && LeafOk(va, pa, flags, level)
    requires forall w: nat :: w < VIRTUAL_LIMIT && Hits(va, w, level) ==> Walk(ram, root, w, 2) == Page(Or(pa, flags), level)
    ensures AllLand(ram, root, va, pa, flags, Span(level)) <==> va + Span(level) <= VIRTUAL_LIMIT && Fits(ram, pa, Span(level))
  {
    hide Walk, Granted, Readable, Writable, Executable, Valid, User, Permits;
    LeafInOneTurn(va, level);
    SomeAccess(flags);
    if va + Span(level) <= VIRTUAL_LIMIT {
      forall d: nat | d < Span(level)
        ensures Lands(ram, root, va, pa, flags, d) <==> Fits(ram, pa, Span(level))
      {
        LeafByte(ram, root, va, pa, flags, level, d);
      }
      if !Fits(ram, pa, Span(level)) {
        assert !Lands(ram, root, va, pa, flags, 0);
      }
    } else {
      LimitOut(ram, root, va, pa, flags, level);
    }
  }

  lemma LeafByte(ram: Ram, root: nat, va: Word, pa: Word, flags: Word, level: nat, d: nat)
    requires Formed(ram) && root < |ram.frames| && level <= 2 && LeafOk(va, pa, flags, level) && va + Span(level) <= VIRTUAL_LIMIT
    requires Hits(va, va + d, level) && Walk(ram, root, va + d, 2) == Page(Or(pa, flags), level)
    ensures Lands(ram, root, va, pa, flags, d) <==> Fits(ram, pa, Span(level))
  {
    hide Walk, Granted, Readable, Writable, Executable, Valid, User, Permits, Span;
    RootPage(root);
    RootInMemory(ram, root);
    LeafMapsTo(va, pa, flags, level, va + d);
    forall user, access
      ensures Granted(Or(pa, flags), user, access) == Granted(flags, user, access)
    {
      GrantedByFlags(Or(pa, flags), user, access);
    }
    SomeAccess(flags);
  }

  lemma RootInMemory(ram: Ram, root: nat)
    requires Formed(ram) && root < |ram.frames|
    ensures TableAt(ram, root * PAGE)
  {
  }

  /** A leaf that permits anything permits something to the kernel. */
  lemma SomeAccess(flags: Word)
    requires LeafFlags(flags)
    ensures exists access :: Granted(flags, false, access)
  {
    if Readable(flags) {
      assert Granted(flags, false, Read);
    } else {
      assert Granted(flags, false, Execute);
    }
  }

  lemma LandsOrNot(ram: Ram, root: nat, va: nat, pa: nat, flags: Word, d: nat, fits: bool)
    requires Formed(ram) && LeafFlags(flags)
    requires forall user, access :: Translation(ram, root * PAGE, user, va + d, access) ==
                                    if !Granted(flags, user, access) then PermissionDenied else if fits then Ok(pa + d) else MalformedEntry
    ensures Lands(ram, root, va, pa, flags, d) <==> fits
  {
    hide Granted, Walk, Translation;
    SomeAccess(flags);
  }

  lemma OutsideLands(ram: Ram, root: nat, va: nat, pa: nat, flags: Word, d: nat)
    requires Formed(ram) && LeafFlags(flags) && va + d >= VIRTUAL_LIMIT
    ensures !Lands(ram, root, va, pa, flags, d)
  {
    hide Granted, Walk;
    SomeAccess(flags);
    var access :| Granted(flags, false, access);
    assert Translation(ram, root * PAGE, false, va + d, access) == InvalidVirtualAddress;
  }

  lemma LimitOut(ram: Ram, root: nat, va: Word, pa: Word, flags: Word, level: nat)
    requires Formed(ram) && level <= 2 && va % Span(level) == 0 && va + Span(level) > VIRTUAL_LIMIT && LeafFlags(flags)
    ensures !Lands(ram, root, va, pa, flags, 0)
  {
    LeafInOneTurn(va, level);
    OutsideLands(ram, root, va, pa, flags, 0);
  }

  /** A mapping that wraps: the kernel is asked for 2^39 and answers that it is done; the address itself stays invalid,
      and address 0 has the mapping. */
  method WrapHappens() returns (k: Kernel, ok: bool)
    ensures k.Sound() && ok
    ensures Translation(k.ram, k.root * PAGE, false, VIRTUAL_LIMIT, Read) == InvalidVirtualAddress
    ensures Translation(k.ram, k.root * PAGE, false, 0, Read) == Ok(0x4000_0000)
  {
    hide Walk, Classify;
    var ram := Ram(4 * PAGE, [Empty(), Empty(), Empty(), Empty()]);
    k := new Kernel(ram, {1}, 2, 4 * PAGE);
    assert !Blocked(ram, 2, VIRTUAL_LIMIT, 2, 2);
    ok := k.MapLeaf(VIRTUAL_LIMIT, 0x4000_0000, 7, 2);
    assert Hits(VIRTUAL_LIMIT, 0, 2);
    LeafMapsTo(VIRTUAL_LIMIT, 0x4000_0000, 7, 2, 0);
    RootPage(k.root);
    RootInMemory(k.ram, k.root);
    GrantedByFlags(Or(0x4000_0000, 7), false, Read);
  }

  /** `f` is a leaf for `w` inside the range from `vpage`, mapped to that from `ppage`. */
  ghost predicate Mapped(f: Found, w: nat, vpage: nat, ppage: nat, length: nat, flags: Word) {
    && f.Page? && f.level <= 2 && vpage <= w
    && Flags(f.entry) == flags && Physical(f, w) == ppage + (w - vpage)
    && ppage <= Target(f.entry) * PAGE && Target(f.entry) * PAGE + Span(f.level) <= ppage + length
  }

  lemma LeafMaps(w: nat, vpage: nat, ppage: nat, offset: nat, length: nat, flags: Word, level: nat)
    requires level <= 2 && vpage + length <= VIRTUAL_LIMIT && ppage + offset < WORD_LIMIT && flags < PAGE
    requires (vpage + offset) % Span(level) == 0 && (ppage + offset) % PAGE == 0 && offset + Span(level) <= length
    requires Hits(vpage + offset, w, level)
    ensures Mapped(Page(Or(ppage + offset, flags), level), w, vpage, ppage, length, flags)
  {
    OffsetIn(vpage + offset, w, level);
  }

  lemma OffsetIn(va: nat, w: nat, level: nat)
    requires level <= 2 && va % Span(level) == 0 && va <= w < va + Span(level)
    ensures w % Span(level) == w - va
  {
  }

  /** A page mapped by the kernel, as the hardware translates it. */
  lemma MappedTranslates(ram: Ram, root: nat, w: nat, vpage: nat, ppage: nat, length: nat, flags: Word, user: bool, access: Access)
    requires Formed(ram) && root < |ram.frames| && w < VIRTUAL_LIMIT
    requires Mapped(Walk(ram, root, w, 2), w, vpage, ppage, length, flags)
    ensures
      var f := Walk(ram, root, w, 2);
      var fits := Fits(ram, Target(f.entry) * PAGE, Span(f.level));
      && f.Page?
      && Translation(ram, root * PAGE, user, w, access) ==
           (if !Granted(flags, user, access) then PermissionDenied else if fits then Ok(ppage + (w - vpage)) else MalformedEntry)
      && (ppage + length <= ram.size || ram.size <= ppage ==> fits)
  {
    hide Walk, Span, Granted;
    RootPage(root);
    GrantedByFlags(Walk(ram, root, w, 2).entry, user, access);
  }

  lemma RootPage(root: nat)
    ensures root * PAGE % PAGE == 0 && root * PAGE / PAGE == root
  {
  }

  /** Permissions are in the low bits of an entry. */
  lemma GrantedByFlags(e: Word, user: bool, access: Access)
    ensures Granted(e, user, access) == Granted(Flags(e), user, access)
  {
    assert e % PAGE % PAGE == e % PAGE;
  }

  lemma PointerStep(ram: Ram, e: Word, level: nat)
    requires Formed(ram) && 0 < level <= 2 && Pointer(e) && !Reserved(e) && Target(e) < |ram.frames|
    ensures Classify(ram, e, level) == Next(Target(e))
  {
  }

  lemma RootOnTheWay(ram: Ram, root: nat, tables: map<nat, Place>, v: nat)
    requires Tree(ram, root, tables) && v < VIRTUAL_LIMIT
    ensures root in tables && tables[root].level == 2 && Within(tables[root], v) && Leads(ram, root, 2, v, root, 2)
  {
  }

  lemma LeafEntry(va: Word, pa: Word, flags: Word, level: nat, ram: Ram)
    requires level <= 2 && LeafOk(va, pa, flags, level)
    ensures Classify(ram, Or(pa, flags), level) == Leaf(Or(pa, flags)) && !Pointer(Or(pa, flags))
  {
    hide Span;
  }

  /** An aligned address is the first that its entry covers. */
  lemma AlignedCovers(p: Place, va: nat, w: nat)
    requires Placed(p) && va % Span(p.level) == 0 && Within(p, va % VIRTUAL_LIMIT)
    ensures Covers(p, Index(va, p.level), w) <==> va % VIRTUAL_LIMIT <= w < va % VIRTUAL_LIMIT + Span(p.level)
  {
    hide Index;
    var v, i := va % VIRTUAL_LIMIT, Index(va, p.level);
    WrappedIndex(va, p.level);
    CoversRange(p, i, w);
    CoversRange(p, i, v);
    WrappedAligned(va, p.level);
    SlotStart(p, i, v);
  }

  lemma WrappedAligned(va: nat, level: nat)
    requires level <= 2 && va % Span(level) == 0
    ensures va % VIRTUAL_LIMIT % Span(level) == 0
  {
    var q := va / VIRTUAL_LIMIT;
    assert va == q * VIRTUAL_LIMIT + va % VIRTUAL_LIMIT;
  }

  lemma SlotStart(p: Place, i: nat, v: nat)
    requires Placed(p) && i < ENTRIES && v % Span(p.level) == 0
    requires p.base + i * Span(p.level) <= v < p.base + (i + 1) * Span(p.level)
    ensures v == p.base + i * Span(p.level)
  {
    var q := p.base / Span(p.level + 1);
    if p.level == 0 {
      assert p.base == q * ENTRIES * PAGE;
    } else if p.level == 1 {
      assert p.base == q * ENTRIES * LARGE;
    } else {
      assert p.base == q * ENTRIES * GIGA;
    }
  }

  /** What kernel_map_leaf demands of its arguments. */
  predicate LeafOk(va: Word, pa: Word, flags: Word, level: nat)
    requires level <= 2
  {
    va % Span(level) == 0 && pa % Span(level) == 0 && pa % PAGE == 0 && LeafFlags(flags)
  }

  /** `w` is among the addresses of a leaf mapped at `va`; addresses past the 39-bit limit wrap. */
  predicate Hits(va: nat, w: int, level: nat)
    requires level <= 2
  {
    va % VIRTUAL_LIMIT <= w < va % VIRTUAL_LIMIT + Span(level)
  }

  /** The bitwise or of a page address and flags. */
  function Or(pa: Word, flags: Word): (e: Word)
    requires pa % PAGE == 0 && flags < PAGE
    ensures Target(e) * PAGE == pa && Flags(e) == flags
  {
    assert pa == pa / PAGE * PAGE && pa / PAGE < 0x10_0000_0000_0000;
    pa + flags
  }

  lemma AlignedToPage(pa: nat, level: nat)
    requires level <= 2 && pa % Span(level) == 0
    ensures pa % PAGE == 0
  {
    if level == 1 {
      assert pa == pa / LARGE * 512 * PAGE;
    } else if level == 2 {
      assert pa == pa / GIGA * 0x4_0000 * PAGE;
    }
  }

  /** On the way to level `target` an entry is in use for something else. */
  ghost predicate Blocked(ram: Ram, t: nat, v: nat, level: nat, target: nat)
    requires Formed(ram) && target <= level <= 2
    decreases level
  {
    t < |ram.frames| &&
    var e := ram.frames[t][Index(v, level)];
    if level == target then level > 0 && Valid(e)
    else Valid(e) && (Pointer(e) ==> Blocked(ram, Target(e), v, level - 1, target))
  }

  /** Some leaf at `v` finds its entry, or one above it, in use. */
  ghost predicate InTheWay(ram: Ram, t: nat, v: nat)
    requires Formed(ram)
  {
    exists level :: 0 <= level <= 2 && Blocked(ram, t, v, 2, level)
  }

  lemma WrappedIndex(va: nat, level: nat)
    requires level <= 2
    ensures Index(va, level) == Index(va % VIRTUAL_LIMIT, level)
  {
    WrappedPage(va);
    WrappedLarge(va);
    WrappedGiga(va);
  }

  lemma WrappedPage(va: nat)
    ensures va / 0x1000 % 512 == va % 0x80_0000_0000 / 0x1000 % 512
  {
    var q, v := va / 0x80_0000_0000, va % 0x80_0000_0000;
    assert va / 0x1000 == q * 0x800_0000 + v / 0x1000;
  }

  lemma WrappedLarge(va: nat)
    ensures va / 0x20_0000 % 512 == va % 0x80_0000_0000 / 0x20_0000 % 512
  {
    var q, v := va / 0x80_0000_0000, va % 0x80_0000_0000;
    assert va == q * 0x4_0000 * 0x20_0000 + v;
    assert va / 0x20_0000 == q * 0x4_0000 + v / 0x20_0000;
    assert (q * 512) * 512 == q * 0x4_0000;
  }

  lemma WrappedGiga(va: nat)
    ensures va / 0x4000_0000 % 512 == va % 0x80_0000_0000 / 0x4000_0000 % 512
  {
    var q, v := va / 0x80_0000_0000, va % 0x80_0000_0000;
    assert va / 0x4000_0000 == q * 512 + v / 0x4000_0000;
  }
}
