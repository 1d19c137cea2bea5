/** What each operation on an address space does to memory, to the free pages and to the hardware's view of
    the space. */
module AddressOperations {
  import opened Options
  import opened PageTables
  import opened AddressSpaces

  // ---------------------------------------------------------------- views and private tables

  /** What the hardware finds for `w` through space `id`. */
  ghost function View(m: State, id: nat, w: nat): Found {
    if id in m.spaces && Formed(m.ram) && m.spaces[id].root < |m.ram.frames| then Walk(m.ram, m.spaces[id].root, w, 2) else Broken
  }

  ghost predicate SameView(m: State, n: State, id: nat) {
    forall w :: 0 <= w < VIRTUAL_LIMIT ==> View(n, id, w) == View(m, id, w)
  }

  /** A table taken from the pool and recorded: nothing is translated differently. */
  lemma AddTable(m: State, kernel: set<nat>, kernelRoot: nat, id: nat, page: nat, f: Frame)
    requires Sound(m, kernel, kernelRoot) && id in m.spaces && page in m.pool && |f| == ENTRIES
    ensures
      var n := State(Refilled(m.ram, page, f), m.pool - {page}, m.spaces[id := WithRecord(m.spaces[id], Record(page, 0, Table))]);
      && Sound(n, kernel, kernelRoot) && Touches(m, n, id) && SameView(m, n, id)
      && Mappings(n.spaces[id].pages) == Mappings(m.spaces[id].pages) && page !in OwnedBy(m, id)
  {
    hide TablesOk, MappingsOk, Walk, Index;
    var s, ram', pool' := m.spaces[id], Refilled(m.ram, page, f), m.pool - {page};
    var n := State(ram', pool', m.spaces[id := WithRecord(s, Record(page, 0, Table))]);
    OutOfReach(m, kernel, kernelRoot, id);
    RecordAdded(s.pages, Record(page, 0, Table));
    TableAdded(m.ram, m.pool, kernel, s, page, f);
    assert Touches(m, n, id);
    StaysSound(m, n, kernel, kernelRoot, id);
    SpaceFrame(m.ram, ram', m.pool, pool', kernel, s);
    forall w: nat | w < VIRTUAL_LIMIT
      ensures View(n, id, w) == View(m, id, w)
    {
      RootIn(m.ram, m.pool, kernel, s);
      SpaceWalkFrame(m.ram, ram', m.pool, pool', kernel, kernelRoot, s, w);
    }
  }

  lemma RootIn(ram: Ram, pool: set<nat>, kernel: set<nat>, s: Space)
    requires Formed(ram) && SpaceOk(ram, pool, kernel, s)
    ensures s.root < |ram.frames| && s.level1 < |ram.frames| && s.root != s.level1
    ensures s.root in Owned(s.pages) && s.level1 in Owned(s.pages)
    ensures forall i :: 0 <= i < ENTRIES && s.owned[i] ==> Target(ram.frames[s.level1][i]) in Owned(s.pages)
    ensures forall i :: 0 <= i < ENTRIES && !s.owned[i] ==> KernelEntry(ram.frames[s.level1][i], kernel)
  {
    hide MappingsOk, RecordsOk, Target, KernelEntry;
    OwnsTables(s, s.root);
    OwnsTables(s, s.level1);
    forall i | 0 <= i < ENTRIES && s.owned[i]
      ensures Target(ram.frames[s.level1][i]) in Owned(s.pages)
    {
      assert PrivateTable(ram.frames[s.level1][i], s);
      OwnsTables(s, Target(ram.frames[s.level1][i]));
    }
  }

  /** The table just added takes the place of what an entry led to. */
  lemma JoinTable(m: State, kernel: set<nat>, kernelRoot: nat, id: nat, i1: nat, page: nat)
    requires Sound(m, kernel, kernelRoot) && id in m.spaces && i1 < ENTRIES && !m.spaces[id].owned[i1]
    requires m.spaces[id].level1 < |m.ram.frames|
    requires Spare(m.ram, m.spaces[id], page) && CopyOf(m.ram, m.ram.frames[m.spaces[id].level1][i1], m.ram.frames[page])
    ensures
      var n := State(Written(m.ram, m.spaces[id].level1, i1, page * PAGE + 1), m.pool, m.spaces[id := WithTable(m.spaces[id], i1)]);
      Sound(n, kernel, kernelRoot) && Touches(m, n, id) && SameView(m, n, id)
  {
    hide TablesOk, MappingsOk, Walk, Index, RecordsOk, Spare;
    var s := m.spaces[id];
    SpareOwned(m.ram, s, page);
    var ram', s' := Written(m.ram, s.level1, i1, page * PAGE + 1), WithTable(s, i1);
    var n := State(ram', m.pool, m.spaces[id := s']);
    RootIn(m.ram, m.pool, kernel, s);
    OutOfReach(m, kernel, kernelRoot, id);
    assert Supervisor(m.ram.frames[page]) by { CopySupervisor(m.ram, kernel, kernelRoot, m.ram.frames[s.level1][i1], m.ram.frames[page]); }
    TableJoined(m.ram, m.pool, kernel, s, i1, page);
    assert Touches(m, n, id);
    StaysSound(m, n, kernel, kernelRoot, id);
    forall w: nat | w < VIRTUAL_LIMIT
      ensures View(n, id, w) == View(m, id, w)
    {
      JoinedWalk(m.ram, m.pool, kernel, kernelRoot, s, i1, page, w);
    }
  }

  lemma SpareOwned(ram: Ram, s: Space, page: nat)
    requires Formed(ram) && s.level1 < |ram.frames| && |s.owned| == ENTRIES && Spare(ram, s, page)
    ensures page in Owned(s.pages) && page * PAGE + 1 < WORD_LIMIT && page < |ram.frames|
  {
    OwnsTables(s, page);
  }

  lemma CopySupervisor(ram: Ram, kernel: set<nat>, kernelRoot: nat, e: Word, f: Frame)
    requires KernelOk(ram, kernel, kernelRoot) && KernelEntry(e, kernel) && CopyOf(ram, e, f)
    ensures Supervisor(f)
  {
    hide Permits, Reserved, Target, User;
    if Valid(e) {
      forall j | 0 <= j < |f| && Valid(f[j])
        ensures !User(f[j])
      {
        assert KernelEntry(ram.frames[Target(e)][j], kernel);
      }
    }
  }

  function Copied(ram: Ram, e: Word): Frame {
    if Valid(e) && Target(e) < |ram.frames| then ram.frames[Target(e)] else Empty()
  }

  ghost function Privatised(m: State, id: nat, i1: nat, page: nat): State
    requires Formed(m.ram) && id in m.spaces && m.spaces[id].level1 < |m.ram.frames| && i1 < ENTRIES == |m.spaces[id].owned|
    requires page < |m.ram.frames| && page * PAGE + 1 < WORD_LIMIT
  {
    var s := m.spaces[id];
    var f := Copied(m.ram, m.ram.frames[s.level1][i1]);
    State(Written(Refilled(m.ram, page, f), s.level1, i1, page * PAGE + 1), m.pool - {page},
          m.spaces[id := WithTable(WithRecord(s, Record(page, 0, Table)), i1)])
  }

  /** Where the kernel has no large page, a private table can be made without changing a translation. */
  lemma MakePrivate(m: State, kernel: set<nat>, kernelRoot: nat, id: nat, i1: nat, page: nat)
    requires Sound(m, kernel, kernelRoot) && id in m.spaces && i1 < ENTRIES && !m.spaces[id].owned[i1] && page in m.pool
    requires m.spaces[id].level1 < |m.ram.frames|
    requires !(Valid(m.ram.frames[m.spaces[id].level1][i1]) && Permits(m.ram.frames[m.spaces[id].level1][i1]))
    ensures page * PAGE + 1 < WORD_LIMIT
    ensures
      var n := Privatised(m, id, i1, page);
      && Sound(n, kernel, kernelRoot) && Touches(m, n, id) && SameView(m, n, id)
      && Mappings(n.spaces[id].pages) == Mappings(m.spaces[id].pages)
      && TableFor(n.ram, n.spaces[id], i1) == page
  {
    hide TablesOk, MappingsOk, Walk, Index, RecordsOk, SameView, Touches, Reserved, User, Readable, Writable, Executable;
    var s := m.spaces[id];
    var e := m.ram.frames[s.level1][i1];
    RootIn(m.ram, m.pool, kernel, s);
    var f := Copied(m.ram, e);
    AddTable(m, kernel, kernelRoot, id, page, f);
    var s1 := WithRecord(s, Record(page, 0, Table));
    var m1 := State(Refilled(m.ram, page, f), m.pool - {page}, m.spaces[id := s1]);
    assert s.level1 != page;
    assert m1.ram.frames[s.level1] == m.ram.frames[s.level1];
    assert Spare(m1.ram, s1, page);
    assert CopyOf(m1.ram, e, m1.ram.frames[page]);
    JoinTable(m1, kernel, kernelRoot, id, i1, page);
    var n := Privatised(m, id, i1, page);
    assert n == State(Written(m1.ram, s1.level1, i1, page * PAGE + 1), m1.pool, m1.spaces[id := WithTable(s1, i1)]);
    TouchesCompose(m, m1, n, id);
    SameViewCompose(m, m1, n, id);
    TablePointer(page);
  }

  lemma SameViewCompose(l: State, m: State, n: State, id: nat)
    requires SameView(l, m, id) && SameView(m, n, id)
    ensures SameView(l, n, id)
  {
    hide View;
    forall w | 0 <= w < VIRTUAL_LIMIT
      ensures View(n, id, w) == View(l, id, w)
    {
      assert View(m, id, w) == View(l, id, w);
    }
  }

  /** What every operation may rely on. */
  lemma SpaceFacts(m: State, kernel: set<nat>, kernelRoot: nat, id: nat)
    requires Sound(m, kernel, kernelRoot) && id in m.spaces
    ensures Formed(m.ram) && |m.ram.frames| * PAGE <= WORD_LIMIT && PoolOk(m.ram, m.pool, kernel)
    ensures SpaceOk(m.ram, m.pool, kernel, m.spaces[id]) && |m.spaces[id].owned| == ENTRIES
    ensures m.spaces[id].root < |m.ram.frames| && m.spaces[id].level1 < |m.ram.frames| && m.spaces[id].level1 !in m.pool
    ensures forall i :: 0 <= i < ENTRIES && m.spaces[id].owned[i] ==>
      TableFor(m.ram, m.spaces[id], i) < |m.ram.frames| && TableFor(m.ram, m.spaces[id], i) !in m.pool
    ensures forall i :: 0 <= i < ENTRIES && !m.spaces[id].owned[i] && Valid(m.ram.frames[m.spaces[id].level1][i]) ==>
      Permits(m.ram.frames[m.spaces[id].level1][i]) || (TableFor(m.ram, m.spaces[id], i) < |m.ram.frames| && TableFor(m.ram, m.spaces[id], i) !in m.pool)
  {
    hide TablesOk, MappingsOk, Target, Permits, Reserved, User;
    RootIn(m.ram, m.pool, kernel, m.spaces[id]);
    OutOfReach(m, kernel, kernelRoot, id);
  }

  // ---------------------------------------------------------------- mappings

  /** Memory and free pages once the page of a new anonymous mapping is taken. */
  function TakenRam(ram: Ram, r: Record): Ram
    requires r.kind.Anonymous? ==> r.page < |ram.frames|
  {
    if r.kind.Anonymous? then Cleared(ram, r.page) else ram
  }

  function TakenPool(pool: set<nat>, r: Record): set<nat> {
    if r.kind.Anonymous? then pool - {r.page} else pool
  }

  /** The state with one more mapping. */
  ghost function Extended(m: State, id: nat, r: Record, e: Word): State
    requires Formed(m.ram) && id in m.spaces && m.spaces[id].level1 < |m.ram.frames|
    requires r.kind.Anonymous? ==> r.page < |m.ram.frames|
    requires TableFor(m.ram, m.spaces[id], Index(r.virtual, 1)) < |m.ram.frames|
  {
    var s := m.spaces[id];
    State(Written(TakenRam(m.ram, r), TableFor(m.ram, s, Index(r.virtual, 1)), Index(r.virtual, 0), e),
          TakenPool(m.pool, r), m.spaces[id := WithRecord(s, r)])
  }

  ghost predicate ViewChanged(m: State, n: State, id: nat, v: nat, f: Found) {
    forall w :: 0 <= w < VIRTUAL_LIMIT ==> View(n, id, w) == if v <= w < v + PAGE then f else View(m, id, w)
  }

  /** A mapping put where there was none: the page is translated to the new leaf and nothing else changes. */
  lemma AddMapping(m: State, kernel: set<nat>, kernelRoot: nat, id: nat, r: Record, e: Word)
    requires Addable(m, kernel, kernelRoot, id, r, e)
    ensures Formed(m.ram) && m.spaces[id].level1 < |m.ram.frames| && TableFor(m.ram, m.spaces[id], Index(r.virtual, 1)) < |m.ram.frames|
    ensures r.kind.Anonymous? ==> r.page < |m.ram.frames|
    ensures
      var n := Extended(m, id, r, e);
      && Sound(n, kernel, kernelRoot) && Touches(m, n, id) && ViewChanged(m, n, id, r.virtual, Page(e, 0))
      && Mappings(n.spaces[id].pages) == Mappings(m.spaces[id].pages) + {r}
  {
    hide Sound, Walk, Target, Touches, Mappings, Index, View, Extended, UserPage, EntryAt, UserLeaf;
    ExtendedOk(m, kernel, kernelRoot, id, r, e);
    forall w: nat | w < VIRTUAL_LIMIT
      ensures View(Extended(m, id, r, e), id, w) == if r.virtual <= w < r.virtual + PAGE then Page(e, 0) else View(m, id, w)
    {
      ExtendedView(m, kernel, kernelRoot, id, r, e, w);
    }
  }

  /** What a new mapping needs. */
  ghost predicate Addable(m: State, kernel: set<nat>, kernelRoot: nat, id: nat, r: Record, e: Word) {
    && Sound(m, kernel, kernelRoot) && id in m.spaces && UserPage(r.virtual) && !r.kind.Table?
    && |m.spaces[id].owned| == ENTRIES && m.spaces[id].owned[Index(r.virtual, 1)]
    && !Valid(EntryAt(m.ram, m.spaces[id], Index(r.virtual, 1), Index(r.virtual, 0)))
    && UserLeaf(m.ram, e) && Target(e) == r.page && (r.kind.Anonymous? ==> r.page in m.pool)
  }

  /** With the page of the mapping taken the space is as before, and with the entry written it is in order. */
  ghost predicate TakenOk(m: State, kernel: set<nat>, kernelRoot: nat, id: nat, r: Record, e: Word)
    requires Formed(m.ram) && id in m.spaces
  {
    && m.spaces[id].level1 < |m.ram.frames| && TableFor(m.ram, m.spaces[id], Index(r.virtual, 1)) < |m.ram.frames|
    && TableFor(m.ram, m.spaces[id], Index(r.virtual, 1)) !in kernel && (r.kind.Anonymous? ==> 0 < r.page < |m.ram.frames|)
    && var s, ram1, pool1 := m.spaces[id], TakenRam(m.ram, r), TakenPool(m.pool, r);
    && KernelOk(m.ram, kernel, kernelRoot) && KernelOk(ram1, kernel, kernelRoot) && SpaceOk(m.ram, m.pool, kernel, s) && SpaceOk(ram1, pool1, kernel, s)
    && SameFrames(m.ram, ram1, kernel) && SameFrames(m.ram, ram1, Owned(s.pages))
    && TableFor(ram1, s, Index(r.virtual, 1)) == TableFor(m.ram, s, Index(r.virtual, 1))
    && SpaceOk(Extended(m, id, r, e).ram, Extended(m, id, r, e).pool, kernel, Extended(m, id, r, e).spaces[id])
  }

  lemma TakenFrame(m: State, kernel: set<nat>, kernelRoot: nat, id: nat, r: Record, e: Word)
    requires Addable(m, kernel, kernelRoot, id, r, e)
    ensures Formed(m.ram) && TakenOk(m, kernel, kernelRoot, id, r, e)
  {
    hide TablesOk, MappingsOk, Index, RecordsOk, UserPage, Walk, Target, EntryAt;
    var s := m.spaces[id];
    SpaceFacts(m, kernel, kernelRoot, id);
    OutOfReach(m, kernel, kernelRoot, id);
    RootIn(m.ram, m.pool, kernel, s);
    var i1, i0 := Index(r.virtual, 1), Index(r.virtual, 0);
    var ram1, pool1 := TakenRam(m.ram, r), TakenPool(m.pool, r);
    SpaceFrame(m.ram, ram1, m.pool, pool1, kernel, s);
    SameEntry(m.ram, ram1, m.pool, kernel, s, i1, i0);
    MappingAdded(ram1, pool1, kernel, s, r, e);
  }

  lemma ExtendedOk(m: State, kernel: set<nat>, kernelRoot: nat, id: nat, r: Record, e: Word)
    requires Addable(m, kernel, kernelRoot, id, r, e)
    ensures Formed(m.ram) && m.spaces[id].level1 < |m.ram.frames| && TableFor(m.ram, m.spaces[id], Index(r.virtual, 1)) < |m.ram.frames|
    ensures r.kind.Anonymous? ==> r.page < |m.ram.frames|
    ensures
      var n := Extended(m, id, r, e);
      Sound(n, kernel, kernelRoot) && Touches(m, n, id) && Mappings(n.spaces[id].pages) == Mappings(m.spaces[id].pages) + {r}
  {
    hide SpaceOk, Index, UserPage, Walk, Target, EntryAt, UserLeaf;
    TakenFrame(m, kernel, kernelRoot, id, r, e);
    OutOfReach(m, kernel, kernelRoot, id);
    TableOwned(m, kernel, kernelRoot, id, Index(r.virtual, 1));
    RecordAdded(m.spaces[id].pages, r);
    assert Touches(m, Extended(m, id, r, e), id);
    StaysSound(m, Extended(m, id, r, e), kernel, kernelRoot, id);
  }

  lemma TableOwned(m: State, kernel: set<nat>, kernelRoot: nat, id: nat, i1: nat)
    requires Sound(m, kernel, kernelRoot) && id in m.spaces && i1 < ENTRIES && |m.spaces[id].owned| == ENTRIES && m.spaces[id].owned[i1]
    ensures m.spaces[id].level1 < |m.ram.frames| && TableFor(m.ram, m.spaces[id], i1) in OwnedBy(m, id)
  {
    hide TablesOk, MappingsOk, RecordsOk, Target;
    RootIn(m.ram, m.pool, kernel, m.spaces[id]);
  }

  lemma ExtendedView(m: State, kernel: set<nat>, kernelRoot: nat, id: nat, r: Record, e: Word, w: nat)
    requires Addable(m, kernel, kernelRoot, id, r, e) && w < VIRTUAL_LIMIT
    ensures Formed(m.ram) && m.spaces[id].level1 < |m.ram.frames| && TableFor(m.ram, m.spaces[id], Index(r.virtual, 1)) < |m.ram.frames|
    ensures r.kind.Anonymous? ==> r.page < |m.ram.frames|
    ensures View(Extended(m, id, r, e), id, w) == if r.virtual <= w < r.virtual + PAGE then Page(e, 0) else View(m, id, w)
  {
    hide Sound, SpaceOk, Index, UserPage, Walk, Target, EntryAt, KernelOk, SameFrames;
    var s := m.spaces[id];
    var ram1, pool1 := TakenRam(m.ram, r), TakenPool(m.pool, r);
    TakenFrame(m, kernel, kernelRoot, id, r, e);
    SpaceFacts(m, kernel, kernelRoot, id);
    KernelFormed(ram1, kernel, kernelRoot);
    SpaceWalkFrame(m.ram, ram1, m.pool, pool1, kernel, kernelRoot, s, w);
    EntryWalk(ram1, pool1, kernel, kernelRoot, s, s.pages + [r], r.virtual, e, w);
    LeafWalk(Extended(m, id, r, e).ram, e);
  }

  lemma KernelFormed(ram: Ram, kernel: set<nat>, kernelRoot: nat)
    requires KernelOk(ram, kernel, kernelRoot)
    ensures Formed(ram)
  {
  }

  lemma SameEntry(ram: Ram, ram': Ram, pool: set<nat>, kernel: set<nat>, s: Space, i1: nat, i0: nat)
    requires Formed(ram) && Formed(ram') && SpaceOk(ram, pool, kernel, s) && i1 < ENTRIES && i0 < ENTRIES && s.owned[i1]
    requires SameFrames(ram, ram', Owned(s.pages))
    ensures EntryAt(ram', s, i1, i0) == EntryAt(ram, s, i1, i0)
    ensures s.level1 < |ram.frames| && TableFor(ram', s, i1) == TableFor(ram, s, i1)
  {
    hide MappingsOk, Target;
    RootIn(ram, pool, kernel, s);
  }

  lemma LeafWalk(ram: Ram, e: Word)
    requires Formed(ram) && UserLeaf(ram, e)
    ensures forall w: nat :: WalkEntry(ram, e, w, 0) == Page(e, 0)
  {
  }

  /** Memory and free pages once the page of a removed mapping is given back. */
  function GivenRam(ram: Ram, r: Record, link: Word): Ram
    requires r.kind.Anonymous? ==> r.page < |ram.frames| && |ram.frames[r.page]| > 0
  {
    if r.kind.Anonymous? then Written(ram, r.page, 0, link) else ram
  }

  function GivenPool(pool: set<nat>, r: Record): set<nat> {
    if r.kind.Anonymous? then pool + {r.page} else pool
  }

  /** The state with record `k` and its mapping gone. */
  ghost function Reduced(m: State, id: nat, k: nat, link: Word): State
    requires Formed(m.ram) && id in m.spaces && m.spaces[id].level1 < |m.ram.frames| && k < |m.spaces[id].pages|
    requires m.spaces[id].pages[k].kind.Anonymous? ==> m.spaces[id].pages[k].page < |m.ram.frames|
    requires TableFor(m.ram, m.spaces[id], Index(m.spaces[id].pages[k].virtual, 1)) < |m.ram.frames|
  {
    var s := m.spaces[id];
    var r := s.pages[k];
    var ram := Written(m.ram, TableFor(m.ram, s, Index(r.virtual, 1)), Index(r.virtual, 0), 0);
    State(GivenRam(ram, r, link), GivenPool(m.pool, r), m.spaces[id := WithPages(s, Without(s.pages, k))])
  }

  lemma Removable(m: State, kernel: set<nat>, kernelRoot: nat, id: nat, k: nat)
    requires Sound(m, kernel, kernelRoot) && id in m.spaces && k < |m.spaces[id].pages| && !m.spaces[id].pages[k].kind.Table?
    ensures
      var s, r := m.spaces[id], m.spaces[id].pages[k];
      && Formed(m.ram) && s.level1 < |m.ram.frames| && UserPage(r.virtual) && s.owned[Index(r.virtual, 1)]
      && TableFor(m.ram, s, Index(r.virtual, 1)) < |m.ram.frames| && TableFor(m.ram, s, Index(r.virtual, 1)) in Owned(s.pages)
      && (r.kind.Anonymous? ==> 0 < r.page < |m.ram.frames| && r.page in Owned(s.pages) && r.page !in kernel && r.page !in m.pool)
      && UserLeaf(m.ram, EntryAt(m.ram, s, Index(r.virtual, 1), Index(r.virtual, 0)))
      && Target(EntryAt(m.ram, s, Index(r.virtual, 1), Index(r.virtual, 0))) == r.page
  {
    hide TablesOk, Index, Target;
    var s := m.spaces[id];
    RootIn(m.ram, m.pool, kernel, s);
    assert s.pages[k] in s.pages && MappedAt(m.ram, s, s.pages[k]);
  }

  /** A mapping taken away: the page is no longer translated and nothing else changes. */
  lemma RemoveMapping(m: State, kernel: set<nat>, kernelRoot: nat, id: nat, k: nat, link: Word)
    requires Takeable(m, kernel, kernelRoot, id, k)
    ensures
      var n, r := Reduced(m, id, k, link), m.spaces[id].pages[k];
      && Sound(n, kernel, kernelRoot) && Touches(m, n, id) && ViewChanged(m, n, id, r.virtual, Missing)
      && Mappings(n.spaces[id].pages) == Mappings(m.spaces[id].pages) - {r}
  {
    hide Sound, UserPage, Walk, Target, EntryAt, UserLeaf, Touches, Mappings, Index, View, Reduced;
    ReducedOk(m, kernel, kernelRoot, id, k, link);
    var r := m.spaces[id].pages[k];
    forall w: nat | w < VIRTUAL_LIMIT
      ensures View(Reduced(m, id, k, link), id, w) == if r.virtual <= w < r.virtual + PAGE then Missing else View(m, id, w)
    {
      ReducedView(m, kernel, kernelRoot, id, k, link, w);
    }
  }

  /** What taking a mapping away needs. */
  ghost predicate Takeable(m: State, kernel: set<nat>, kernelRoot: nat, id: nat, k: nat) {
    && Sound(m, kernel, kernelRoot) && id in m.spaces && k < |m.spaces[id].pages| && !m.spaces[id].pages[k].kind.Table?
    && Formed(m.ram) && m.spaces[id].level1 < |m.ram.frames|
    && TableFor(m.ram, m.spaces[id], Index(m.spaces[id].pages[k].virtual, 1)) < |m.ram.frames|
    && (m.spaces[id].pages[k].kind.Anonymous? ==> m.spaces[id].pages[k].page < |m.ram.frames|)
  }

  /** With the entry cleared and the record gone the space is in order, and so it is once the page is free. */
  ghost predicate ClearedOk(m: State, kernel: set<nat>, kernelRoot: nat, id: nat, k: nat, link: Word)
    requires Takeable(m, kernel, kernelRoot, id, k)
  {
    var s, r := m.spaces[id], m.spaces[id].pages[k];
    var t := TableFor(m.ram, s, Index(r.virtual, 1));
    var ram1, s1, n := Written(m.ram, t, Index(r.virtual, 0), 0), WithPages(s, Without(s.pages, k)), Reduced(m, id, k, link);
    && KernelOk(m.ram, kernel, kernelRoot) && KernelOk(ram1, kernel, kernelRoot) && Formed(n.ram) && t !in kernel && UserPage(r.virtual)
    && SpaceOk(m.ram, m.pool, kernel, s) && SpaceOk(ram1, m.pool, kernel, s1) && SpaceOk(n.ram, n.pool, kernel, s1)
    && s.owned[Index(r.virtual, 1)] && SameFrames(ram1, n.ram, kernel) && SameFrames(ram1, n.ram, Owned(s1.pages))
  }

  lemma ClearedFrame(m: State, kernel: set<nat>, kernelRoot: nat, id: nat, k: nat, link: Word)
    requires Takeable(m, kernel, kernelRoot, id, k)
    ensures ClearedOk(m, kernel, kernelRoot, id, k, link)
  {
    hide TablesOk, MappingsOk, Index, UserPage, Walk, Target, EntryAt, UserLeaf, Without, Unique;
    var s := m.spaces[id];
    var r := s.pages[k];
    Removable(m, kernel, kernelRoot, id, k);
    OutOfReach(m, kernel, kernelRoot, id);
    var ram1 := Written(m.ram, TableFor(m.ram, s, Index(r.virtual, 1)), Index(r.virtual, 0), 0);
    MappingRemoved(m.ram, m.pool, kernel, s, k);
    WithoutOne(s.pages, k);
    SpaceFrame(ram1, Reduced(m, id, k, link).ram, m.pool, Reduced(m, id, k, link).pool, kernel, WithPages(s, Without(s.pages, k)));
  }

  lemma UniqueRecords(m: State, kernel: set<nat>, kernelRoot: nat, id: nat)
    requires Sound(m, kernel, kernelRoot) && id in m.spaces
    ensures Unique(m.spaces[id].pages)
  {
    assert SpaceOk(m.ram, m.pool, kernel, m.spaces[id]);
  }

  lemma ReducedOk(m: State, kernel: set<nat>, kernelRoot: nat, id: nat, k: nat, link: Word)
    requires Takeable(m, kernel, kernelRoot, id, k)
    ensures
      var n, r := Reduced(m, id, k, link), m.spaces[id].pages[k];
      Sound(n, kernel, kernelRoot) && Touches(m, n, id) && Mappings(n.spaces[id].pages) == Mappings(m.spaces[id].pages) - {r}
  {
    hide SpaceOk, Index, UserPage, Walk, Target, EntryAt, UserLeaf, Without, Unique;
    ClearedFrame(m, kernel, kernelRoot, id, k, link);
    SpaceFacts(m, kernel, kernelRoot, id);
    TableOwned(m, kernel, kernelRoot, id, Index(m.spaces[id].pages[k].virtual, 1));
    OutOfReach(m, kernel, kernelRoot, id);
    UniqueRecords(m, kernel, kernelRoot, id);
    WithoutOne(m.spaces[id].pages, k);
    assert Touches(m, Reduced(m, id, k, link), id);
    StaysSound(m, Reduced(m, id, k, link), kernel, kernelRoot, id);
  }

  lemma ReducedView(m: State, kernel: set<nat>, kernelRoot: nat, id: nat, k: nat, link: Word, w: nat)
    requires Takeable(m, kernel, kernelRoot, id, k) && w < VIRTUAL_LIMIT
    ensures
      var n, r := Reduced(m, id, k, link), m.spaces[id].pages[k];
      View(n, id, w) == if r.virtual <= w < r.virtual + PAGE then Missing else View(m, id, w)
  {
    hide Sound, SpaceOk, Index, UserPage, Walk, Target, EntryAt, KernelOk, SameFrames;
    var s, r := m.spaces[id], m.spaces[id].pages[k];
    var s1 := WithPages(s, Without(s.pages, k));
    var ram1 := Written(m.ram, TableFor(m.ram, s, Index(r.virtual, 1)), Index(r.virtual, 0), 0);
    var n := Reduced(m, id, k, link);
    ClearedFrame(m, kernel, kernelRoot, id, k, link);
    SpaceFacts(m, kernel, kernelRoot, id);
    KernelFormed(ram1, kernel, kernelRoot);
    EntryWalk(m.ram, m.pool, kernel, kernelRoot, s, s1.pages, r.virtual, 0, w);
    SpaceWalkFrame(ram1, n.ram, m.pool, n.pool, kernel, kernelRoot, s1, w);
    assert WalkEntry(ram1, 0, w, 0) == Missing;
  }

  /** Rights a user mapping may ask for: readable, and not both writable and executable. */
  predicate RightsOk(flags: Word) {
    flags < 16 && !Valid(flags) && Readable(flags) && !(Writable(flags) && Executable(flags))
  }

  /** The entry of a user page: valid, for user mode, with the rights asked for. */
  function UserWord(page: nat, flags: Word): Word
    requires (page + 1) * PAGE <= WORD_LIMIT && flags < 16
  {
    page * PAGE + 17 + flags
  }

  lemma UserWordIsLeaf(ram: Ram, page: nat, flags: Word)
    requires page < |ram.frames| && |ram.frames| * PAGE <= WORD_LIMIT && RightsOk(flags)
    ensures (page + 1) * PAGE <= WORD_LIMIT
    ensures UserLeaf(ram, UserWord(page, flags)) && Target(UserWord(page, flags)) == page && Flags(UserWord(page, flags)) == 17 + flags
  {
    RightsCases(flags);
    EntryParts(page, 17 + flags);
    hide RightsOk;
  }

  lemma RightsCases(flags: Word)
    requires RightsOk(flags)
    ensures flags == 2 || flags == 6 || flags == 10
    ensures Valid(17 + flags) && User(17 + flags) && Readable(17 + flags) && !Reserved(17 + flags)
    ensures Writable(17 + flags) == Writable(flags) && Executable(17 + flags) == Executable(flags)
    ensures !(Writable(flags) && Executable(flags))
  {
  }

  /** A page under a private table is translated by its entry there. */
  lemma OwnedView(m: State, kernel: set<nat>, kernelRoot: nat, id: nat, v: nat)
    requires Sound(m, kernel, kernelRoot) && id in m.spaces && UserPage(v)
    ensures |m.spaces[id].owned| == ENTRIES
    ensures m.spaces[id].owned[Index(v, 1)] ==>
      (View(m, id, v) == Missing <==> !Valid(EntryAt(m.ram, m.spaces[id], Index(v, 1), Index(v, 0))))
    ensures m.spaces[id].level1 < |m.ram.frames| && (Large(m.ram, m.spaces[id], Index(v, 1)) ==> View(m, id, v) != Missing)
  {
    hide MappingsOk, RecordsOk, Walk, EntryAt;
    var s := m.spaces[id];
    SpaceFacts(m, kernel, kernelRoot, id);
    PageSlot(v);
    SpaceWalk(m.ram, m.pool, kernel, s, v);
  }

  /** The kernel has a large page where the space would need a table. */
  ghost predicate Large(ram: Ram, s: Space, i1: nat)
    requires Formed(ram) && s.level1 < |ram.frames| && i1 < ENTRIES && i1 < |s.owned|
  {
    !s.owned[i1] && Valid(ram.frames[s.level1][i1]) && Permits(ram.frames[s.level1][i1])
  }

  // ---------------------------------------------------------------- the kernel's own walk

  /** The table a valid pointer leads to, if the kernel can reach it. */
  function Follow(ram: Ram, e: Word): Option<nat> {
    if Valid(e) && !Permits(e) && Target(e) < |ram.frames| then Some(Target(e)) else None
  }

  /** address_lookup_level0 */
  function LookupLevel0(ram: Ram, s: Space, va: nat): (r: Option<nat>)
    requires Formed(ram)
    ensures r.Some? ==> r.value < |ram.frames|
  {
    if s.root >= |ram.frames| then None
    else
      match Follow(ram, ram.frames[s.root][Index(va, 2)])
      case None => None
      case Some(level1) => Follow(ram, ram.frames[level1][Index(va, 1)])
  }

  /** The kernel's walk comes to the private table, or to a table of the kernel's own. */
  lemma LookupFinds(m: State, kernel: set<nat>, kernelRoot: nat, id: nat, va: nat)
    requires Sound(m, kernel, kernelRoot) && id in m.spaces && UserPage(va)
    ensures Formed(m.ram) && m.spaces[id].level1 < |m.ram.frames| && |m.spaces[id].owned| == ENTRIES
    ensures m.spaces[id].owned[Index(va, 1)] ==>
      LookupLevel0(m.ram, m.spaces[id], va) == Some(TableFor(m.ram, m.spaces[id], Index(va, 1)))
    ensures !m.spaces[id].owned[Index(va, 1)] && LookupLevel0(m.ram, m.spaces[id], va).Some? ==>
      Supervisor(m.ram.frames[LookupLevel0(m.ram, m.spaces[id], va).value])
  {
    hide MappingsOk, RecordsOk, Reserved, Walk;
    var s := m.spaces[id];
    SpaceFacts(m, kernel, kernelRoot, id);
    PageSlot(va);
    hide Index;
    TablePointer(s.level1);
    var e := m.ram.frames[s.level1][Index(va, 1)];
    if s.owned[Index(va, 1)] {
      assert PrivateTable(e, s);
    } else if Valid(e) && !Permits(e) {
      CopySupervisor(m.ram, kernel, kernelRoot, e, m.ram.frames[Target(e)]);
    }
  }

  /** A user entry found by that walk is exactly a recorded mapping. */
  ghost predicate UserMapped(m: State, id: nat, va: nat)
    requires id in m.spaces && Formed(m.ram)
  {
    match LookupLevel0(m.ram, m.spaces[id], va)
    case None => false
    case Some(t) => Valid(m.ram.frames[t][Index(va, 0)]) && User(m.ram.frames[t][Index(va, 0)])
  }

  lemma UserMappedIsRecorded(m: State, kernel: set<nat>, kernelRoot: nat, id: nat, va: nat)
    requires Sound(m, kernel, kernelRoot) && id in m.spaces && UserPage(va)
    ensures Formed(m.ram) && (UserMapped(m, id, va) <==> HasMapping(m.spaces[id].pages, va))
  {
    hide TablesOk, RecordsOk, Walk, LookupLevel0, Target, UserPage;
    var s := m.spaces[id];
    LookupFinds(m, kernel, kernelRoot, id, va);
    PageSlot(va);
    var i1, i0 := Index(va, 1), Index(va, 0);
    SpaceFacts(m, kernel, kernelRoot, id);
    hide Index;
    if s.owned[i1] {
      assert Accounted(m.ram, s, i1, i0);
      assert EntryAt(m.ram, s, i1, i0) == m.ram.frames[TableFor(m.ram, s, i1)][i0];
      assert UserMapped(m, id, va) <==> Valid(EntryAt(m.ram, s, i1, i0)) && User(EntryAt(m.ram, s, i1, i0));
    }
    if HasMapping(s.pages, va) {
      var r :| r in s.pages && !r.kind.Table? && r.virtual == va;
      assert MappedAt(m.ram, s, r);
      assert UserMapped(m, id, va);
    } else if UserMapped(m, id, va) {
      assert s.owned[i1];
    }
  }

  // ---------------------------------------------------------------- ranges of external pages

  /** The records of pages `lo` up to `hi` of a range mapped from `va` to `page`. */
  ghost function Externals(va: nat, page: nat, lo: nat, hi: nat): set<Record> {
    set i | lo <= i < hi :: Record(page + i, va + i * PAGE, External)
  }

  ghost function RangeLeaf(va: nat, page: nat, w: nat, flags: Word): Found
    requires va <= w
  {
    var p := page + (w - va) / PAGE;
    if (p + 1) * PAGE <= WORD_LIMIT && flags < 16 then Page(UserWord(p, flags), 0) else Broken
  }

  /** Pages `lo` up to `hi` of the range are mapped; everything else is as in `m`. */
  ghost predicate RangeView(m: State, n: State, id: nat, va: nat, page: nat, lo: nat, hi: nat, flags: Word) {
    forall w :: 0 <= w < VIRTUAL_LIMIT ==>
      View(n, id, w) == if va + lo * PAGE <= w < va + hi * PAGE then RangeLeaf(va, page, w, flags) else View(m, id, w)
  }

  lemma RangeEmpty(m: State, n: State, id: nat, va: nat, page: nat, k: nat, flags: Word)
    ensures RangeView(m, n, id, va, page, k, k, flags) <==> SameView(m, n, id)
    ensures Externals(va, page, k, k) == {}
  {
    hide View;
  }

  lemma RangeSame(l: State, m: State, n: State, id: nat, va: nat, page: nat, lo: nat, hi: nat, flags: Word)
    requires RangeView(l, m, id, va, page, lo, hi, flags) && SameView(m, n, id)
    ensures RangeView(l, n, id, va, page, lo, hi, flags)
  {
    hide View, RangeLeaf;
  }

  lemma RangeGrows(l: State, m: State, n: State, id: nat, va: nat, page: nat, k: nat, flags: Word)
    requires RangeView(l, m, id, va, page, 0, k, flags) && (page + k + 1) * PAGE <= WORD_LIMIT && flags < 16
    requires ViewChanged(m, n, id, va + k * PAGE, Page(UserWord(page + k, flags), 0))
    ensures RangeView(l, n, id, va, page, 0, k + 1, flags)
    ensures Externals(va, page, 0, k + 1) == Externals(va, page, 0, k) + {Record(page + k, va + k * PAGE, External)}
  {
    hide View;
    forall w | 0 <= w < VIRTUAL_LIMIT
      ensures View(n, id, w) == if va <= w < va + (k + 1) * PAGE then RangeLeaf(va, page, w, flags) else View(l, id, w)
    {
      if va + k * PAGE <= w < va + k * PAGE + PAGE {
        assert (w - va) / PAGE == k;
      }
    }
  }

  lemma RangeShrinks(l: State, m: State, n: State, id: nat, va: nat, page: nat, j: nat, k: nat, flags: Word)
    requires RangeView(l, m, id, va, page, j, k, flags) && j < k
    requires ViewChanged(m, n, id, va + j * PAGE, Missing)
    requires forall w :: va + j * PAGE <= w < va + k * PAGE ==> View(l, id, w) == Missing
    ensures RangeView(l, n, id, va, page, j + 1, k, flags)
    ensures Externals(va, page, j, k) == Externals(va, page, j + 1, k) + {Record(page + j, va + j * PAGE, External)}
    ensures Record(page + j, va + j * PAGE, External) !in Externals(va, page, j + 1, k)
  {
    hide View, RangeLeaf;
    forall r | r in Externals(va, page, j, k)
      ensures r in Externals(va, page, j + 1, k) + {Record(page + j, va + j * PAGE, External)}
    {
      var i :| j <= i < k && r == Record(page + i, va + i * PAGE, External);
    }
    forall r | r in Externals(va, page, j + 1, k) + {Record(page + j, va + j * PAGE, External)}
      ensures r in Externals(va, page, j, k)
    {
    }
  }

  /** Where nothing is translated nothing is recorded. */
  lemma MissingIsUnrecorded(m: State, kernel: set<nat>, kernelRoot: nat, id: nat, r: Record)
    requires Sound(m, kernel, kernelRoot) && id in m.spaces && r in Mappings(m.spaces[id].pages)
    ensures View(m, id, r.virtual) != Missing
  {
    hide View, TablesOk, Index, Target;
    assert MappedAt(m.ram, m.spaces[id], r);
    OwnedView(m, kernel, kernelRoot, id, r.virtual);
  }

  // ---------------------------------------------------------------- unmapping a range

  /** Records of mappings at pages of `va` up to `end`. */
  ghost function RecordsIn(pages: seq<Record>, va: nat, end: nat): set<Record> {
    set r | r in Mappings(pages) && va <= r.virtual < end
  }

  /** Pages of their own that a set of records holds. */
  ghost function PagesOf(records: set<Record>): set<nat> {
    set r | r in records && r.kind.Anonymous? :: r.page
  }

  /** The addresses from `va` up to `end` are no longer translated; everything else is as in `m`. */
  ghost predicate RangeGone(m: State, n: State, id: nat, va: nat, end: nat) {
    forall w :: 0 <= w < VIRTUAL_LIMIT ==> View(n, id, w) == if va <= w < end then Missing else View(m, id, w)
  }

  lemma GoneGrows(l: State, m: State, n: State, id: nat, va: nat, page: nat)
    requires RangeGone(l, m, id, va, page) && ViewChanged(m, n, id, page, Missing) && va <= page
    ensures RangeGone(l, n, id, va, page + PAGE)
  {
    hide View;
  }

  /** Every page of the range has a mapping. */
  ghost predicate AllMapped(m: State, id: nat, va: nat, end: nat)
    requires id in m.spaces
  {
    forall p :: va <= p < end && p % PAGE == 0 ==> HasMapping(m.spaces[id].pages, p)
  }

  /** Taking away the record at `page` advances the range by one page. */
  lemma RecordsAdvance(pages: seq<Record>, pages': seq<Record>, start: set<Record>, va: nat, page: nat, r: Record, pool: set<nat>, pool0: set<nat>)
    requires forall q :: q in start ==> UserPage(q.virtual)
    requires page % PAGE == 0 && va <= page && va % PAGE == 0
    requires Mappings(pages) == start - (set q | q in start && va <= q.virtual < page)
    requires r in Mappings(pages) && r.virtual == page && (forall q :: q in Mappings(pages) && q.virtual == page ==> q == r)
    requires Mappings(pages') == Mappings(pages) - {r}
    requires pool == pool0 + PagesOf(set q | q in start && va <= q.virtual < page)
    ensures Mappings(pages') == start - (set q | q in start && va <= q.virtual < page + PAGE)
    ensures GivenPool(pool, r) == pool0 + PagesOf(set q | q in start && va <= q.virtual < page + PAGE)
  {
    var before, after := set q | q in start && va <= q.virtual < page, set q | q in start && va <= q.virtual < page + PAGE;
    forall q | q in after
      ensures q in before || q == r
    {
      assert q.virtual % PAGE == 0;
    }
    assert after == before + {r};
  }

  // ---------------------------------------------------------------- creation

  function NoneOwned(): (s: seq<bool>)
    ensures |s| == ENTRIES && forall i :: 0 <= i < ENTRIES ==> !s[i]
  {
    seq(ENTRIES, _ => false)
  }

  function NewSpace(root: nat, level1: nat): Space {
    Space(root, level1, NoneOwned(), [Record(root, 0, Table), Record(level1, 0, Table)])
  }

  /** A root that shares the kernel's entries but the first, and a copy of the kernel's first level-1 table. */
  function NewTables(ram: Ram, kernelRoot: nat, root: nat, level1: nat): Ram
    requires Formed(ram) && kernelRoot < |ram.frames| && root < |ram.frames| && level1 < |ram.frames| && level1 * PAGE + 1 < WORD_LIMIT
  {
    Refilled(Refilled(ram, level1, Copied(ram, ram.frames[kernelRoot][0])), root,
             Replaced(ram.frames[kernelRoot], 0, level1 * PAGE + 1))
  }

  /** A new space is in order and translates everything as the kernel does. */
  lemma SpaceCreated(m: State, kernel: set<nat>, kernelRoot: nat, id: nat, root: nat, level1: nat)
    requires Sound(m, kernel, kernelRoot) && id !in m.spaces && root in m.pool && level1 in m.pool && root != level1
    ensures level1 * PAGE + 1 < WORD_LIMIT && level1 < |m.ram.frames| && root < |m.ram.frames| && kernelRoot < |m.ram.frames|
    ensures
      var n := State(NewTables(m.ram, kernelRoot, root, level1), m.pool - {root, level1}, m.spaces[id := NewSpace(root, level1)]);
      && Sound(n, kernel, kernelRoot) && Touches(m, n, id) && Mappings(n.spaces[id].pages) == {}
      && forall w :: 0 <= w < VIRTUAL_LIMIT ==> View(n, id, w) == Walk(m.ram, kernelRoot, w, 2)
  {
    hide Walk, SpaceOk, KernelEntry, Copied, Replaced;
    var s, ram', pool' := NewSpace(root, level1), NewTables(m.ram, kernelRoot, root, level1), m.pool - {root, level1};
    var n := State(ram', pool', m.spaces[id := s]);
    NewSpaceOk(m.ram, m.pool, kernel, kernelRoot, root, level1);
    assert Owned(s.pages) == {root, level1};
    assert Touches(m, n, id);
    StaysSound(m, n, kernel, kernelRoot, id);
    forall w: nat | w < VIRTUAL_LIMIT
      ensures View(n, id, w) == Walk(m.ram, kernelRoot, w, 2)
    {
      NewSpaceWalk(m.ram, m.pool, kernel, kernelRoot, root, level1, w);
    }
  }

  lemma NewSpaceOk(ram: Ram, pool: set<nat>, kernel: set<nat>, kernelRoot: nat, root: nat, level1: nat)
    requires KernelOk(ram, kernel, kernelRoot) && PoolOk(ram, pool, kernel) && root in pool && level1 in pool && root != level1
    ensures Formed(NewTables(ram, kernelRoot, root, level1))
    ensures SpaceOk(NewTables(ram, kernelRoot, root, level1), pool - {root, level1}, kernel, NewSpace(root, level1))
  {
    hide Index, Permits, Reserved, User, Readable, Writable, Executable;
    var e := ram.frames[kernelRoot][0];
    assert KernelEntry(e, kernel);
    var ram' := NewTables(ram, kernelRoot, root, level1);
    forall i | 0 <= i < ENTRIES
      ensures KernelEntry(ram'.frames[level1][i], kernel)
    {
      if Valid(e) {
        assert KernelEntry(ram.frames[Target(e)][i], kernel);
      }
    }
    forall i | 0 < i < ENTRIES
      ensures KernelEntry(ram'.frames[root][i], kernel)
    {
      assert KernelEntry(ram.frames[kernelRoot][i], kernel);
    }
  }

  lemma NewSpaceWalk(ram: Ram, pool: set<nat>, kernel: set<nat>, kernelRoot: nat, root: nat, level1: nat, w: nat)
    requires KernelOk(ram, kernel, kernelRoot) && PoolOk(ram, pool, kernel) && root in pool && level1 in pool && root != level1
    ensures Walk(NewTables(ram, kernelRoot, root, level1), root, w, 2) == Walk(ram, kernelRoot, w, 2)
  {
    hide Index, Reserved, Readable, Writable, Executable, User, SpaceOk, Target, Walk, WalkEntry, Permits;
    var s, ram' := NewSpace(root, level1), NewTables(ram, kernelRoot, root, level1);
    NewSpaceOk(ram, pool, kernel, kernelRoot, root, level1);
    SpaceWalk(ram', pool - {root, level1}, kernel, s, w);
    WalkIsEntry(ram, kernelRoot, w, 2);
    var e := ram.frames[kernelRoot][0];
    assert KernelEntry(e, kernel);
    assert ram'.frames[root] == Replaced(ram.frames[kernelRoot], 0, level1 * PAGE + 1) && ram'.frames[level1] == Copied(ram, e);
    if Index(w, 2) != 0 {
      assert KernelEntry(ram.frames[kernelRoot][Index(w, 2)], kernel);
      KernelWalk(ram, ram', kernel, kernelRoot, ram.frames[kernelRoot][Index(w, 2)], w, 2);
    } else if Valid(e) {
      PointerWalk(ram, e, w, 2);
      WalkIsEntry(ram, Target(e), w, 1);
      assert KernelEntry(ram.frames[Target(e)][Index(w, 1)], kernel);
      KernelWalk(ram, ram', kernel, kernelRoot, ram.frames[Target(e)][Index(w, 1)], w, 1);
    } else {
      InvalidWalk(ram, e, w, 2);
      InvalidWalk(ram', 0, w, 1);
    }
  }

  // ---------------------------------------------------------------- contents of user pages

  /** The pages mapped for the user keep their contents. */
  ghost predicate DataKept(m: State, n: State, id: nat) {
    id in m.spaces && forall r :: r in Mappings(m.spaces[id].pages) && r.kind.Anonymous? ==>
      r.page < |m.ram.frames| && r.page < |n.ram.frames| && n.ram.frames[r.page] == m.ram.frames[r.page]
  }

  /** A page of the space's own that holds user data is not free and is none of its tables. */
  lemma DataIsApart(m: State, kernel: set<nat>, kernelRoot: nat, id: nat, r: Record)
    requires Sound(m, kernel, kernelRoot) && id in m.spaces && r in m.spaces[id].pages && r.kind.Anonymous?
    ensures 0 < r.page < |m.ram.frames| && r.page !in m.pool && r.page in OwnedBy(m, id) && r.page !in kernel
    ensures r.page != m.spaces[id].root && r.page != m.spaces[id].level1 && m.spaces[id].level1 < |m.ram.frames|
    ensures |m.spaces[id].owned| == ENTRIES
    ensures forall i :: 0 <= i < ENTRIES && m.spaces[id].owned[i] ==> TableFor(m.ram, m.spaces[id], i) != r.page
  {
    hide MappingsOk, Target, KernelEntry;
    var s := m.spaces[id];
    assert SpaceOk(m.ram, m.pool, kernel, s);
    NotATable(s.pages, r, s.root);
    NotATable(s.pages, r, s.level1);
    forall i | 0 <= i < ENTRIES && s.owned[i]
      ensures TableFor(m.ram, s, i) != r.page
    {
      assert PrivateTable(m.ram.frames[s.level1][i], s);
      NotATable(s.pages, r, TableFor(m.ram, s, i));
    }
  }

  lemma NotATable(pages: seq<Record>, r: Record, t: nat)
    requires Unique(pages) && r in pages && r.kind.Anonymous? && TableOf(pages, t)
    ensures r.page != t
  {
    var i :| 0 <= i < |pages| && pages[i] == r;
    var j :| 0 <= j < |pages| && pages[j] == Record(t, 0, Table);
  }

  lemma PrivatisedData(m: State, kernel: set<nat>, kernelRoot: nat, id: nat, i1: nat, page: nat)
    requires Sound(m, kernel, kernelRoot) && id in m.spaces && i1 < ENTRIES && page in m.pool && m.spaces[id].level1 < |m.ram.frames|
    requires Formed(m.ram) && |m.spaces[id].owned| == ENTRIES && page < |m.ram.frames| && page * PAGE + 1 < WORD_LIMIT
    ensures DataKept(m, Privatised(m, id, i1, page), id)
  {
    hide Sound;
    forall r | r in Mappings(m.spaces[id].pages) && r.kind.Anonymous?
      ensures r.page < |m.ram.frames| && Privatised(m, id, i1, page).ram.frames[r.page] == m.ram.frames[r.page]
    {
      DataIsApart(m, kernel, kernelRoot, id, r);
    }
  }

  lemma ExtendedData(m: State, kernel: set<nat>, kernelRoot: nat, id: nat, r: Record, e: Word)
    requires Sound(m, kernel, kernelRoot) && id in m.spaces && |m.spaces[id].owned| == ENTRIES && m.spaces[id].owned[Index(r.virtual, 1)]
    requires m.spaces[id].level1 < |m.ram.frames| && TableFor(m.ram, m.spaces[id], Index(r.virtual, 1)) < |m.ram.frames| && Formed(m.ram)
    requires r.kind.Anonymous? ==> r.page in m.pool && r.page < |m.ram.frames|
    ensures DataKept(m, Extended(m, id, r, e), id)
  {
    hide Sound, Index;
    forall q | q in Mappings(m.spaces[id].pages) && q.kind.Anonymous?
      ensures q.page < |m.ram.frames| && Extended(m, id, r, e).ram.frames[q.page] == m.ram.frames[q.page]
    {
      DataIsApart(m, kernel, kernelRoot, id, q);
    }
  }

  /** The contents of a user page change; nothing else does. */
  lemma FillData(m: State, kernel: set<nat>, kernelRoot: nat, id: nat, r: Record, f: Frame)
    requires Sound(m, kernel, kernelRoot) && id in m.spaces && r in Mappings(m.spaces[id].pages) && r.kind.Anonymous? && |f| == ENTRIES
    ensures r.page < |m.ram.frames|
    ensures
      var n := State(Refilled(m.ram, r.page, f), m.pool, m.spaces);
      Sound(n, kernel, kernelRoot) && Touches(m, n, id) && SameView(m, n, id)
  {
    hide Index, Walk, TablesOk, MappingsOk, RecordsOk, KernelEntry, Target, EntryAt;
    DataIsApart(m, kernel, kernelRoot, id, r);
    var s := m.spaces[id];
    var ram' := Refilled(m.ram, r.page, f);
    var n := State(ram', m.pool, m.spaces);
    FilledOk(m.ram, ram', m.pool, kernel, s, r.page);
    StaysSound(m, n, kernel, kernelRoot, id);
    forall w: nat | w < VIRTUAL_LIMIT
      ensures View(n, id, w) == View(m, id, w)
    {
      FilledWalk(m.ram, ram', m.pool, kernel, kernelRoot, s, r.page, w);
    }
  }

  lemma FilledOk(ram: Ram, ram': Ram, pool: set<nat>, kernel: set<nat>, s: Space, page: nat)
    requires Formed(ram) && Formed(ram') && SpaceOk(ram, pool, kernel, s) && ram'.size == ram.size && |ram'.frames| == |ram.frames|
    requires page != s.root && page != s.level1 && forall t :: 0 <= t < |ram.frames| && t != page ==> ram'.frames[t] == ram.frames[t]
    requires s.level1 < |ram.frames| && forall i :: 0 <= i < ENTRIES && s.owned[i] ==> TableFor(ram, s, i) != page
    ensures SpaceOk(ram', pool, kernel, s)
    ensures forall i, j: nat :: 0 <= i < ENTRIES && s.owned[i] && j < ENTRIES ==> EntryAt(ram', s, i, j) == EntryAt(ram, s, i, j)
  {
    hide Index;
    forall i, j: nat | 0 <= i < ENTRIES && s.owned[i] && j < ENTRIES
      ensures EntryAt(ram', s, i, j) == EntryAt(ram, s, i, j)
    {
      assert PrivateTable(ram.frames[s.level1][i], s);
    }
    forall i, j | 0 <= i < ENTRIES && 0 <= j < ENTRIES && s.owned[i]
      ensures Accounted(ram', s, i, j)
    {
      assert Accounted(ram, s, i, j);
    }
    forall r | r in s.pages && !r.kind.Table?
      ensures MappedAt(ram', s, r)
    {
      assert MappedAt(ram, s, r);
    }
  }

  lemma FilledWalk(ram: Ram, ram': Ram, pool: set<nat>, kernel: set<nat>, kernelRoot: nat, s: Space, page: nat, w: nat)
    requires KernelOk(ram, kernel, kernelRoot) && Formed(ram') && SpaceOk(ram, pool, kernel, s) && ram'.size == ram.size && |ram'.frames| == |ram.frames|
    requires page != s.root && page != s.level1 && page !in kernel && forall t :: 0 <= t < |ram.frames| && t != page ==> ram'.frames[t] == ram.frames[t]
    requires s.level1 < |ram.frames| && forall i :: 0 <= i < ENTRIES && s.owned[i] ==> TableFor(ram, s, i) != page
    ensures Walk(ram', s.root, w, 2) == Walk(ram, s.root, w, 2)
  {
    hide Index, MappingsOk, RecordsOk;
    FilledOk(ram, ram', pool, kernel, s, page);
    SpaceWalk(ram, pool, kernel, s, w);
    SpaceWalk(ram', pool, kernel, s, w);
    if Index(w, 2) != 0 {
      KernelWalk(ram, ram', kernel, kernelRoot, ram.frames[s.root][Index(w, 2)], w, 2);
    } else if !s.owned[Index(w, 1)] {
      KernelWalk(ram, ram', kernel, kernelRoot, ram.frames[s.level1][Index(w, 1)], w, 1);
    }
  }

  lemma DataSelf(m: State, kernel: set<nat>, kernelRoot: nat, id: nat)
    requires Sound(m, kernel, kernelRoot) && id in m.spaces
    ensures DataKept(m, m, id)
  {
    hide Sound;
    forall r | r in Mappings(m.spaces[id].pages) && r.kind.Anonymous?
      ensures r.page < |m.ram.frames|
    {
      DataIsApart(m, kernel, kernelRoot, id, r);
    }
  }

  lemma AddedData(m: State, kernel: set<nat>, kernelRoot: nat, id: nat, page: nat, f: Frame)
    requires Sound(m, kernel, kernelRoot) && id in m.spaces && page in m.pool && page < |m.ram.frames|
    ensures DataKept(m, State(Refilled(m.ram, page, f), m.pool - {page}, m.spaces[id := WithRecord(m.spaces[id], Record(page, 0, Table))]), id)
  {
    hide Sound;
    forall r | r in Mappings(m.spaces[id].pages) && r.kind.Anonymous?
      ensures r.page < |m.ram.frames| && Refilled(m.ram, page, f).frames[r.page] == m.ram.frames[r.page]
    {
      DataIsApart(m, kernel, kernelRoot, id, r);
    }
  }

  lemma DataCompose(l: State, m: State, n: State, id: nat)
    requires DataKept(l, m, id) && DataKept(m, n, id) && Mappings(l.spaces[id].pages) <= Mappings(m.spaces[id].pages)
    ensures DataKept(l, n, id)
  {
  }
}
