/** User address spaces (kernel/address_space.c): private copies of the kernel's low tables, the pages
    mapped through them, and the records that say which pages a space owns. */
module AddressSpaces {
  import opened PageTables

  const USER_BASE: nat := 0x0100_0000
  const USER_TOP: nat := 0x3F00_0000
  const WORD_LIMIT: nat := 0x1_0000_0000_0000_0000

  datatype Kind = Table | Anonymous | External

  datatype Record = Record(page: nat, virtual: nat, kind: Kind)

  datatype Space = Space(root: nat, level1: nat, owned: seq<bool>, pages: seq<Record>)

  /** Pages the space has from the page manager. */
  ghost function Owned(pages: seq<Record>): set<nat> {
    set r | r in pages && !r.kind.External? :: r.page
  }

  /** Records of user mappings. */
  ghost function Mappings(pages: seq<Record>): set<Record> {
    set r | r in pages && !r.kind.Table?
  }

  // ---------------------------------------------------------------- invariants

  predicate UserPage(v: nat) {
    v % PAGE == 0 && USER_BASE <= v < USER_TOP
  }

  /** A leaf for user mode: readable, never both writable and executable, and inside RAM. */
  ghost predicate UserLeaf(ram: Ram, e: Word) {
    Valid(e) && User(e) && Readable(e) && !(Writable(e) && Executable(e)) && !Reserved(e) && Target(e) < |ram.frames|
  }

  /** An entry of the kernel's own: not for user mode, and a pointer leads to a kernel table. */
  ghost predicate KernelEntry(e: Word, kernel: set<nat>) {
    Valid(e) ==> !User(e) && (!Permits(e) ==> !Reserved(e) && Target(e) in kernel)
  }

  ghost predicate KernelOk(ram: Ram, kernel: set<nat>, kernelRoot: nat) {
    && Formed(ram) && |ram.frames| * PAGE <= WORD_LIMIT
    && kernelRoot in kernel
    && (forall t :: t in kernel ==> t < |ram.frames|)
    && (forall t, i :: t in kernel && 0 <= i < ENTRIES ==> KernelEntry(ram.frames[t][i], kernel))
    && (Valid(ram.frames[kernelRoot][0]) ==> !Permits(ram.frames[kernelRoot][0]))
  }

  ghost predicate PoolOk(ram: Ram, pool: set<nat>, kernel: set<nat>) {
    forall p :: p in pool ==> 0 < p < |ram.frames| && p !in kernel
  }

  /** Each owned page is recorded once, and each virtual page has one mapping. */
  ghost predicate RecordsOk(ram: Ram, pool: set<nat>, kernel: set<nat>, pages: seq<Record>) {
    && (forall r :: r in pages && !r.kind.External? ==> 0 < r.page < |ram.frames| && r.page !in pool && r.page !in kernel)
    && Unique(pages)
  }

  ghost predicate Unique(pages: seq<Record>) {
    && (forall i, j :: 0 <= i < j < |pages| && !pages[i].kind.External? && !pages[j].kind.External? ==>
          pages[i].page != pages[j].page)
    && (forall i, j :: 0 <= i < j < |pages| && !pages[i].kind.Table? && !pages[j].kind.Table? ==>
          pages[i].virtual != pages[j].virtual)
  }

  ghost predicate TableOf(pages: seq<Record>, t: nat) {
    Record(t, 0, Table) in pages
  }

  /** The root and level-1 table are the space's own; below them are its own level-0 tables and the kernel's tables. */
  ghost predicate TablesOk(ram: Ram, kernel: set<nat>, s: Space)
    requires Formed(ram)
  {
    && |s.owned| == ENTRIES
    && s.root < |ram.frames| && s.level1 < |ram.frames| && s.root != s.level1
    && TableOf(s.pages, s.root) && TableOf(s.pages, s.level1)
    && ram.frames[s.root][0] == s.level1 * PAGE + 1
    && (forall i :: 0 < i < ENTRIES ==> KernelEntry(ram.frames[s.root][i], kernel))
    && (forall i :: 0 <= i < ENTRIES && !s.owned[i] ==> KernelEntry(ram.frames[s.level1][i], kernel))
    && (forall i :: 0 <= i < ENTRIES && s.owned[i] ==> PrivateTable(ram.frames[s.level1][i], s))
    && (forall i, j :: 0 <= i < j < ENTRIES && s.owned[i] && s.owned[j] ==>
          ram.frames[s.level1][i] != ram.frames[s.level1][j])
  }

  ghost predicate PrivateTable(e: Word, s: Space) {
    Pointer(e) && Flags(e) == 1 && TableOf(s.pages, Target(e)) && Target(e) != s.root && Target(e) != s.level1
  }

  /** Word `i0` of the level-0 table under entry `i1`. */
  ghost function EntryAt(ram: Ram, s: Space, i1: nat, i0: nat): Word {
    if s.level1 < |ram.frames| && i1 < |ram.frames[s.level1]| then
      var t := Target(ram.frames[s.level1][i1]);
      if t < |ram.frames| && i0 < |ram.frames[t]| then ram.frames[t][i0] else 0
    else 0
  }

  /** The record's page is mapped where the record says. */
  ghost predicate MappedAt(ram: Ram, s: Space, r: Record)
    requires |s.owned| == ENTRIES
  {
    var e := EntryAt(ram, s, Index(r.virtual, 1), Index(r.virtual, 0));
    UserPage(r.virtual) && s.owned[Index(r.virtual, 1)] && UserLeaf(ram, e) && Target(e) == r.page
  }

  ghost predicate HasMapping(pages: seq<Record>, v: nat) {
    exists r :: r in pages && !r.kind.Table? && r.virtual == v
  }

  /** Records of mappings and user entries of the private tables are the same thing. */
  ghost predicate MappingsOk(ram: Ram, s: Space)
    requires |s.owned| == ENTRIES
  {
    && (forall r :: r in s.pages && !r.kind.Table? ==> MappedAt(ram, s, r))
    && (forall i, j :: 0 <= i < ENTRIES && 0 <= j < ENTRIES && s.owned[i] ==> Accounted(ram, s, i, j))
  }

  ghost predicate Accounted(ram: Ram, s: Space, i: nat, j: nat) {
    var e := EntryAt(ram, s, i, j);
    Valid(e) && User(e) ==> HasMapping(s.pages, i * LARGE + j * PAGE)
  }

  ghost predicate SpaceOk(ram: Ram, pool: set<nat>, kernel: set<nat>, s: Space)
    requires Formed(ram)
  {
    |s.owned| == ENTRIES && RecordsOk(ram, pool, kernel, s.pages) && TablesOk(ram, kernel, s) && MappingsOk(ram, s)
  }

  // ---------------------------------------------------------------- walks through a space

  /** The walk from an entry read at `level`. */
  ghost function WalkEntry(ram: Ram, e: Word, v: nat, level: nat): Found
    requires Formed(ram) && level <= 2
  {
    match Classify(ram, e, level)
    case Absent => Missing
    case Malformed => Broken
    case Leaf(e) => Page(e, level)
    case Next(t) => Walk(ram, t, v, level - 1)
  }

  /** Which entry decides the walk through a space. */
  lemma SpaceWalk(ram: Ram, pool: set<nat>, kernel: set<nat>, s: Space, v: nat)
    requires Formed(ram) && SpaceOk(ram, pool, kernel, s)
    ensures Walk(ram, s.root, v, 2) ==
      if Index(v, 2) != 0 then WalkEntry(ram, ram.frames[s.root][Index(v, 2)], v, 2)
      else if s.owned[Index(v, 1)] then WalkEntry(ram, EntryAt(ram, s, Index(v, 1), Index(v, 0)), v, 0)
      else WalkEntry(ram, ram.frames[s.level1][Index(v, 1)], v, 1)
  {
    hide Index, MappingsOk, Unique, Walk, WalkEntry, Classify, Target, Flags, Valid;
    WalkIsEntry(ram, s.root, v, 2);
    if Index(v, 2) == 0 {
      TableWord(s.level1);
      PointerWalk(ram, ram.frames[s.root][0], v, 2);
      WalkIsEntry(ram, s.level1, v, 1);
      if s.owned[Index(v, 1)] {
        var e := ram.frames[s.level1][Index(v, 1)];
        assert PrivateTable(e, s);
        FlagsReserved(e);
        PointerWalk(ram, e, v, 1);
        WalkIsEntry(ram, Target(e), v, 0);
      }
    }
  }

  lemma WalkIsEntry(ram: Ram, t: nat, v: nat, level: nat)
    requires Formed(ram) && level <= 2 && t < |ram.frames|
    ensures Walk(ram, t, v, level) == WalkEntry(ram, ram.frames[t][Index(v, level)], v, level)
  {
    hide Index, Classify;
  }

  lemma FlagsReserved(e: Word)
    ensures Flags(e) == 1 ==> !Reserved(e)
  {
  }

  lemma InvalidWalk(ram: Ram, e: Word, v: nat, level: nat)
    requires Formed(ram) && level <= 2 && !Valid(e)
    ensures WalkEntry(ram, e, v, level) == Missing
  {
  }

  lemma TableWord(t: nat)
    requires t * PAGE + 1 < WORD_LIMIT
    ensures Pointer(t * PAGE + 1) && !Reserved(t * PAGE + 1) && Target(t * PAGE + 1) == t
  {
    EntryParts(t, 1);
  }

  /** A pointer to a table in memory is followed. */
  lemma PointerWalk(ram: Ram, e: Word, v: nat, level: nat)
    requires Formed(ram) && 0 < level <= 2 && Pointer(e) && !Reserved(e) && Target(e) < |ram.frames|
    ensures WalkEntry(ram, e, v, level) == Walk(ram, Target(e), v, level - 1)
  {
    hide Walk, Readable, Writable, Executable, User, Valid, Reserved;
    assert (Target(e) + 1) * PAGE <= ram.size;
  }

  ghost predicate SameFrames(ram: Ram, ram': Ram, kept: set<nat>) {
    && ram'.size == ram.size && |ram'.frames| == |ram.frames|
    && forall t :: t in kept && t < |ram.frames| ==> ram'.frames[t] == ram.frames[t]
  }

  /** Walks that go through kernel tables only depend on kernel tables. */
  lemma {:induction false} KernelWalk(ram: Ram, ram': Ram, kernel: set<nat>, kernelRoot: nat, e: Word, v: nat, level: nat)
    requires KernelOk(ram, kernel, kernelRoot) && Formed(ram') && SameFrames(ram, ram', kernel)
    requires KernelEntry(e, kernel) && level <= 2
    ensures WalkEntry(ram', e, v, level) == WalkEntry(ram, e, v, level)
    decreases level
  {
    hide Index, Span, Target, Readable, Writable, Executable, User, Reserved;
    if Classify(ram, e, level).Next? {
      var t := Target(e);
      assert KernelEntry(ram.frames[t][Index(v, level - 1)], kernel);
      KernelWalk(ram, ram', kernel, kernelRoot, ram.frames[t][Index(v, level - 1)], v, level - 1);
    }
  }

  /** A space whose own pages and the kernel's are untouched keeps its invariant and its translations. */
  lemma SpaceFrame(ram: Ram, ram': Ram, pool: set<nat>, pool': set<nat>, kernel: set<nat>, s: Space)
    requires Formed(ram) && Formed(ram') && SpaceOk(ram, pool, kernel, s)
    requires SameFrames(ram, ram', Owned(s.pages)) && pool' !! Owned(s.pages)
    ensures SpaceOk(ram', pool', kernel, s)
  {
    OwnsTables(s, s.root);
    OwnsTables(s, s.level1);
    forall i, j: nat | 0 <= i < ENTRIES && 0 <= j < ENTRIES && s.owned[i]
      ensures EntryAt(ram', s, i, j) == EntryAt(ram, s, i, j)
    {
      assert PrivateTable(ram.frames[s.level1][i], s);
      OwnsTables(s, Target(ram.frames[s.level1][i]));
    }
    forall i, j | 0 <= i < ENTRIES && 0 <= j < ENTRIES && s.owned[i]
      ensures Accounted(ram', s, i, j)
    {
      assert Accounted(ram, s, i, j);
    }
    forall r | r in s.pages && !r.kind.Table?
      ensures MappedAt(ram', s, r)
    {
      assert MappedAt(ram, s, r);
    }
    forall r | r in s.pages && !r.kind.External?
      ensures r.page !in pool'
    {
      assert r.page in Owned(s.pages);
    }
  }

  lemma OwnsTables(s: Space, t: nat)
    requires TableOf(s.pages, t)
    ensures t in Owned(s.pages)
  {
    assert Record(t, 0, Table) in s.pages;
  }

  lemma SpaceWalkFrame(ram: Ram, ram': Ram, pool: set<nat>, pool': set<nat>, kernel: set<nat>, kernelRoot: nat, s: Space, v: nat)
    requires KernelOk(ram, kernel, kernelRoot) && Formed(ram') && SpaceOk(ram, pool, kernel, s) && SpaceOk(ram', pool', kernel, s)
    requires SameFrames(ram, ram', kernel) && SameFrames(ram, ram', Owned(s.pages))
    ensures Walk(ram', s.root, v, 2) == Walk(ram, s.root, v, 2)
  {
    hide Index, MappingsOk, RecordsOk;
    SpaceWalk(ram, pool, kernel, s, v);
    SpaceWalk(ram', pool', kernel, s, v);
    OwnsTables(s, s.root);
    OwnsTables(s, s.level1);
    if Index(v, 2) != 0 {
      KernelWalk(ram, ram', kernel, kernelRoot, ram.frames[s.root][Index(v, 2)], v, 2);
    } else if s.owned[Index(v, 1)] {
      assert PrivateTable(ram.frames[s.level1][Index(v, 1)], s);
      OwnsTables(s, Target(ram.frames[s.level1][Index(v, 1)]));
    } else {
      KernelWalk(ram, ram', kernel, kernelRoot, ram.frames[s.level1][Index(v, 1)], v, 1);
    }
  }

  // ---------------------------------------------------------------- all spaces together

  datatype State = State(ram: Ram, pool: set<nat>, spaces: map<nat, Space>)

  ghost function OwnedBy(m: State, id: nat): set<nat> {
    if id in m.spaces then Owned(m.spaces[id].pages) else {}
  }

  /** Spaces own different pages, none of them the kernel's or free. */
  ghost predicate Sound(m: State, kernel: set<nat>, kernelRoot: nat) {
    && KernelOk(m.ram, kernel, kernelRoot) && PoolOk(m.ram, m.pool, kernel)
    && (forall id :: id in m.spaces ==> SpaceOk(m.ram, m.pool, kernel, m.spaces[id]))
    && (forall a, b :: a in m.spaces && b in m.spaces && a != b ==> OwnedBy(m, a) !! OwnedBy(m, b))
  }

  /** Only pages of space `id` and free pages were written, and pages moved only between the two. */
  ghost predicate Touches(m: State, n: State, id: nat) {
    && n.ram.size == m.ram.size && |n.ram.frames| == |m.ram.frames|
    && (forall t :: 0 <= t < |m.ram.frames| && t !in m.pool && t !in OwnedBy(m, id) ==> n.ram.frames[t] == m.ram.frames[t])
    && (forall other :: other != id ==> (other in n.spaces <==> other in m.spaces))
    && (forall other :: other != id && other in m.spaces ==> n.spaces[other] == m.spaces[other])
    && n.pool + OwnedBy(n, id) == m.pool + OwnedBy(m, id)
  }

  lemma TouchesSelf(m: State, id: nat)
    ensures Touches(m, m, id)
  {
  }

  lemma TouchesCompose(l: State, m: State, n: State, id: nat)
    requires Touches(l, m, id) && Touches(m, n, id)
    ensures Touches(l, n, id)
  {
    hide Owned;
    forall t | 0 <= t < |l.ram.frames| && t !in l.pool && t !in OwnedBy(l, id)
      ensures n.ram.frames[t] == l.ram.frames[t]
    {
      assert t !in m.pool + OwnedBy(m, id);
    }
  }

  /** What an operation on one space leaves alone: the kernel's tables and every other space. */
  lemma OthersUntouched(m: State, n: State, kernel: set<nat>, kernelRoot: nat, id: nat, other: nat)
    requires Sound(m, kernel, kernelRoot) && Touches(m, n, id)
    ensures SameFrames(m.ram, n.ram, kernel)
    ensures other in m.spaces && other != id ==> SameFrames(m.ram, n.ram, Owned(m.spaces[other].pages))
    ensures other in m.spaces && other != id ==> n.pool !! Owned(m.spaces[other].pages) && OwnedBy(n, id) !! Owned(m.spaces[other].pages)
  {
    OutOfReach(m, kernel, kernelRoot, id);
    if other in m.spaces && other != id {
      OutOfReach(m, kernel, kernelRoot, other);
      assert OwnedBy(m, other) !! OwnedBy(m, id);
      assert forall t :: t in n.pool || t in OwnedBy(n, id) ==> t in m.pool + OwnedBy(m, id);
    }
  }

  lemma OutOfReach(m: State, kernel: set<nat>, kernelRoot: nat, id: nat)
    requires Sound(m, kernel, kernelRoot)
    ensures kernel !! m.pool && kernel !! OwnedBy(m, id) && m.pool !! OwnedBy(m, id)
    ensures forall t :: t in OwnedBy(m, id) ==> 0 < t < |m.ram.frames|
  {
    hide TablesOk, MappingsOk;
    if id in m.spaces {
      assert SpaceOk(m.ram, m.pool, kernel, m.spaces[id]);
    }
  }

  /** An operation that keeps its own space in order keeps the whole system in order. */
  lemma StaysSound(m: State, n: State, kernel: set<nat>, kernelRoot: nat, id: nat)
    requires Sound(m, kernel, kernelRoot) && Touches(m, n, id) && Formed(n.ram)
    requires id in n.spaces ==> SpaceOk(n.ram, n.pool, kernel, n.spaces[id])
    ensures Sound(n, kernel, kernelRoot)
  {
    hide TablesOk, MappingsOk, RecordsOk;
    OutOfReach(m, kernel, kernelRoot, id);
    assert SameFrames(m.ram, n.ram, kernel) by { OthersUntouched(m, n, kernel, kernelRoot, id, id); }
    assert forall t :: t in n.pool ==> t in m.pool + OwnedBy(m, id);
    forall other | other in n.spaces && other != id
      ensures SpaceOk(n.ram, n.pool, kernel, n.spaces[other])
      ensures OwnedBy(n, other) !! OwnedBy(n, id)
    {
      OthersUntouched(m, n, kernel, kernelRoot, id, other);
      SpaceFrame(m.ram, n.ram, m.pool, n.pool, kernel, m.spaces[other]);
    }
    forall a, b | a in n.spaces && b in n.spaces && a != b
      ensures OwnedBy(n, a) !! OwnedBy(n, b)
    {
      if a != id && b != id {
        assert OwnedBy(m, a) !! OwnedBy(m, b);
      }
    }
  }

  // ---------------------------------------------------------------- steps on one space

  function Refilled(ram: Ram, t: nat, f: Frame): Ram
    requires t < |ram.frames|
  {
    Ram(ram.size, ram.frames[t := f])
  }

  function WithRecord(s: Space, r: Record): Space {
    Space(s.root, s.level1, s.owned, s.pages + [r])
  }

  function WithTable(s: Space, i1: nat): Space
    requires i1 < |s.owned|
  {
    Space(s.root, s.level1, s.owned[i1 := true], s.pages)
  }

  lemma RecordAdded(pages: seq<Record>, r: Record)
    ensures Owned(pages + [r]) == Owned(pages) + (if r.kind.External? then {} else {r.page})
    ensures Mappings(pages + [r]) == Mappings(pages) + (if r.kind.Table? then {} else {r})
    ensures forall q :: q in pages + [r] <==> q in pages || q == r
  {
  }

  lemma UniqueAdded(pages: seq<Record>, r: Record)
    requires Unique(pages) && (!r.kind.External? ==> r.page !in Owned(pages))
    requires forall q :: q in pages && !q.kind.Table? && !r.kind.Table? ==> q.virtual != r.virtual
    ensures Unique(pages + [r])
  {
    forall i | 0 <= i < |pages| && !pages[i].kind.External?
      ensures pages[i].page in Owned(pages)
    {
      assert pages[i] in pages;
    }
  }

  /** A page taken from the pool and recorded as a table is not yet part of any walk. */
  lemma TableAdded(ram: Ram, pool: set<nat>, kernel: set<nat>, s: Space, page: nat, f: Frame)
    requires Formed(ram) && SpaceOk(ram, pool, kernel, s) && page in pool && PoolOk(ram, pool, kernel) && |f| == ENTRIES
    ensures Formed(Refilled(ram, page, f))
    ensures SpaceOk(Refilled(ram, page, f), pool - {page}, kernel, WithRecord(s, Record(page, 0, Table)))
  {
    hide Index, UserLeaf, UserPage, Target, Readable, Writable, Executable, User, Reserved, Pointer, Flags, Unique;
    var ram', s' := Refilled(ram, page, f), WithRecord(s, Record(page, 0, Table));
    RecordAdded(s.pages, Record(page, 0, Table));
    assert page !in Owned(s.pages);
    UniqueAdded(s.pages, Record(page, 0, Table));
    SpaceFrame(ram, ram', pool, pool - {page}, kernel, s);
    forall i | 0 <= i < ENTRIES && s.owned[i]
      ensures PrivateTable(ram'.frames[s.level1][i], s')
    {
      assert PrivateTable(ram'.frames[s.level1][i], s);
    }
    forall i, j: nat
      ensures EntryAt(ram', s', i, j) == EntryAt(ram', s, i, j)
    {
    }
    forall i, j | 0 <= i < ENTRIES && 0 <= j < ENTRIES && s.owned[i]
      ensures Accounted(ram', s', i, j)
    {
      assert Accounted(ram', s, i, j);
    }
    forall r | r in s'.pages && !r.kind.Table?
      ensures MappedAt(ram', s', r)
    {
      assert MappedAt(ram', s, r);
    }
  }

  /** A table of the space that no entry points to yet. */
  ghost predicate Spare(ram: Ram, s: Space, page: nat)
    requires Formed(ram) && s.level1 < |ram.frames| && |s.owned| == ENTRIES
  {
    && page < |ram.frames| && page * PAGE + 1 < WORD_LIMIT
    && TableOf(s.pages, page) && page != s.root && page != s.level1
    && forall i :: 0 <= i < ENTRIES && s.owned[i] ==> Target(ram.frames[s.level1][i]) != page
  }

  /** No word of the frame is for user mode. */
  ghost predicate Supervisor(f: Frame) {
    forall j :: 0 <= j < |f| && Valid(f[j]) ==> !User(f[j])
  }

  /** A spare table linked into the level-1 table becomes one of the private tables. */
  lemma TableJoined(ram: Ram, pool: set<nat>, kernel: set<nat>, s: Space, i1: nat, page: nat)
    requires Formed(ram) && SpaceOk(ram, pool, kernel, s) && i1 < ENTRIES && !s.owned[i1]
    requires Spare(ram, s, page) && Supervisor(ram.frames[page])
    ensures SpaceOk(Written(ram, s.level1, i1, page * PAGE + 1), pool, kernel, WithTable(s, i1))
  {
    hide Index, UserPage, Readable, Writable, Executable, User, Reserved, Permits, Flags;
    var ram', s' := Written(ram, s.level1, i1, page * PAGE + 1), WithTable(s, i1);
    assert Target(page * PAGE + 1) == page && Pointer(page * PAGE + 1) && Flags(page * PAGE + 1) == 1 by { TablePointer(page); }
    forall i, j: nat | 0 <= i < ENTRIES && s.owned[i] && j < ENTRIES
      ensures i != i1 && EntryAt(ram', s', i, j) == EntryAt(ram, s, i, j)
    {
      assert PrivateTable(ram.frames[s.level1][i], s);
    }
    forall i | 0 <= i < ENTRIES && s'.owned[i]
      ensures PrivateTable(ram'.frames[s.level1][i], s')
    {
      if i != i1 {
        assert PrivateTable(ram.frames[s.level1][i], s);
      }
    }
    forall i, j | 0 <= i < ENTRIES && 0 <= j < ENTRIES && s'.owned[i]
      ensures Accounted(ram', s', i, j)
    {
      if i == i1 {
        assert EntryAt(ram', s', i, j) == ram.frames[page][j];
      } else {
        assert Accounted(ram, s, i, j);
      }
    }
    forall r | r in s'.pages && !r.kind.Table?
      ensures MappedAt(ram', s', r)
    {
      assert MappedAt(ram, s, r);
    }
  }

  lemma TablePointer(page: nat)
    requires page * PAGE + 1 < WORD_LIMIT
    ensures Target(page * PAGE + 1) == page && Pointer(page * PAGE + 1) && Flags(page * PAGE + 1) == 1 && !Reserved(page * PAGE + 1)
  {
    EntryParts(page, 1);
  }

  /** The new table holds what the entry it replaces led to. */
  ghost predicate CopyOf(ram: Ram, e: Word, f: Frame) {
    if Valid(e) then !Permits(e) && Target(e) < |ram.frames| && f == ram.frames[Target(e)]
    else f == Empty()
  }

  /** With such a table nothing is translated differently. */
  lemma JoinedWalk(ram: Ram, pool: set<nat>, kernel: set<nat>, kernelRoot: nat, s: Space, i1: nat, page: nat, v: nat)
    requires KernelOk(ram, kernel, kernelRoot) && SpaceOk(ram, pool, kernel, s) && i1 < ENTRIES && !s.owned[i1]
    requires Spare(ram, s, page) && page !in kernel && s.level1 !in kernel && CopyOf(ram, ram.frames[s.level1][i1], ram.frames[page])
    requires SpaceOk(Written(ram, s.level1, i1, page * PAGE + 1), pool, kernel, WithTable(s, i1))
    ensures Walk(Written(ram, s.level1, i1, page * PAGE + 1), s.root, v, 2) == Walk(ram, s.root, v, 2)
  {
    hide Index, RecordsOk, MappingsOk, Readable, Writable, Executable, User, Reserved, Permits, Span;
    var ram', s' := Written(ram, s.level1, i1, page * PAGE + 1), WithTable(s, i1);
    SpaceWalk(ram, pool, kernel, s, v);
    SpaceWalk(ram', pool, kernel, s', v);
    TablePointer(page);
    if Index(v, 2) != 0 {
      KernelWalk(ram, ram', kernel, kernelRoot, ram.frames[s.root][Index(v, 2)], v, 2);
    } else if s.owned[Index(v, 1)] {
      assert PrivateTable(ram.frames[s.level1][Index(v, 1)], s);
    } else if Index(v, 1) != i1 {
      KernelWalk(ram, ram', kernel, kernelRoot, ram.frames[s.level1][Index(v, 1)], v, 1);
    } else {
      CopiedWalk(ram, ram', kernel, ram.frames[s.level1][i1], page, v);
    }
  }

  lemma CopiedWalk(ram: Ram, ram': Ram, kernel: set<nat>, e: Word, page: nat, v: nat)
    requires Formed(ram) && Formed(ram') && ram'.size == ram.size && KernelEntry(e, kernel) && page < |ram.frames|
    requires CopyOf(ram, e, ram.frames[page])
    ensures WalkEntry(ram', ram.frames[page][Index(v, 0)], v, 0) == WalkEntry(ram, e, v, 1)
  {
  }

  // ---------------------------------------------------------------- one level-0 entry

  /** A user page is named by its level-1 and level-0 index. */
  lemma PageSlot(v: nat)
    requires UserPage(v)
    ensures Index(v, 2) == 0 && v == Index(v, 1) * LARGE + Index(v, 0) * PAGE
  {
  }

  lemma SlotPage(i: nat, j: nat)
    requires i < ENTRIES && j < ENTRIES
    ensures Index(i * LARGE + j * PAGE, 1) == i && Index(i * LARGE + j * PAGE, 0) == j
  {
    var v := i * LARGE + j * PAGE;
    assert v == (i * ENTRIES + j) * PAGE;
    assert v / LARGE == i;
  }

  lemma InPage(v: nat, w: nat)
    requires UserPage(v) && w < VIRTUAL_LIMIT
    ensures Index(w, 2) == 0 && Index(w, 1) == Index(v, 1) && Index(w, 0) == Index(v, 0) <==> v <= w < v + PAGE
  {
    PageSlot(v);
    SlotOf(w);
    SlotOf(v);
    hide PageTables.Index;
    PageBounds(v, w);
  }

  lemma SlotOf(w: nat)
    requires w < 0x80_0000_0000
    ensures w / 0x1000 == (Index(w, 2) * 512 + Index(w, 1)) * 512 + Index(w, 0)
  {
    assert w / 0x20_0000 == w / 0x1000 / 512 && w / 0x4000_0000 == w / 0x20_0000 / 512;
    assert w / 0x4000_0000 < 512;
  }

  lemma PageBounds(v: nat, w: nat)
    requires v % 0x1000 == 0
    ensures w / 0x1000 == v / 0x1000 <==> v <= w < v + 0x1000
  {
  }

  /** The level-0 table a space has for entry `i1`. */
  ghost function TableFor(ram: Ram, s: Space, i1: nat): nat
    requires Formed(ram) && s.level1 < |ram.frames| && i1 < ENTRIES
  {
    Target(ram.frames[s.level1][i1])
  }

  /** Writing one word of a private table changes that entry and no other. */
  lemma EntryWritten(ram: Ram, pool: set<nat>, kernel: set<nat>, s: Space, i1: nat, i0: nat, e: Word)
    requires Formed(ram) && SpaceOk(ram, pool, kernel, s) && i1 < ENTRIES && i0 < ENTRIES && s.owned[i1]
    ensures TableFor(ram, s, i1) < |ram.frames| && TableOf(s.pages, TableFor(ram, s, i1))
    ensures TableFor(ram, s, i1) != s.root && TableFor(ram, s, i1) != s.level1
    ensures forall i, j: nat :: 0 <= i < ENTRIES && s.owned[i] && j < ENTRIES ==>
      EntryAt(Written(ram, TableFor(ram, s, i1), i0, e), s, i, j) == if i == i1 && j == i0 then e else EntryAt(ram, s, i, j)
  {
    hide Index, UserPage, Readable, Writable, Executable, User, Reserved, Permits, MappingsOk;
    assert PrivateTable(ram.frames[s.level1][i1], s);
    assert Record(TableFor(ram, s, i1), 0, Table) in s.pages;
    forall i | 0 <= i < ENTRIES && s.owned[i] && i != i1
      ensures Target(ram.frames[s.level1][i]) != TableFor(ram, s, i1)
    {
      assert PrivateTable(ram.frames[s.level1][i], s);
    }
  }

  /** The tables are unaffected, whatever happens to the records of mappings. */
  lemma TablesKept(ram: Ram, pool: set<nat>, kernel: set<nat>, s: Space, i1: nat, i0: nat, e: Word, pages: seq<Record>)
    requires Formed(ram) && SpaceOk(ram, pool, kernel, s) && i1 < ENTRIES && i0 < ENTRIES && s.owned[i1]
    requires forall r :: r in s.pages && r.kind.Table? ==> r in pages
    ensures TableFor(ram, s, i1) < |ram.frames|
    ensures TablesOk(Written(ram, TableFor(ram, s, i1), i0, e), kernel, WithPages(s, pages))
  {
    hide Index, MappingsOk, Pointer, Target, Flags, KernelEntry;
    EntryWritten(ram, pool, kernel, s, i1, i0, e);
    var ram', s' := Written(ram, TableFor(ram, s, i1), i0, e), WithPages(s, pages);
    assert ram'.frames[s.level1] == ram.frames[s.level1] && ram'.frames[s.root] == ram.frames[s.root];
    forall i | 0 <= i < ENTRIES && s.owned[i]
      ensures PrivateTable(ram'.frames[s.level1][i], s')
    {
      assert PrivateTable(ram.frames[s.level1][i], s);
    }
  }

  function WithPages(s: Space, pages: seq<Record>): Space {
    Space(s.root, s.level1, s.owned, pages)
  }

  lemma MappingAdded(ram: Ram, pool: set<nat>, kernel: set<nat>, s: Space, r: Record, e: Word)
    requires Formed(ram) && SpaceOk(ram, pool, kernel, s) && UserPage(r.virtual) && !r.kind.Table?
    requires s.owned[Index(r.virtual, 1)] && !Valid(EntryAt(ram, s, Index(r.virtual, 1), Index(r.virtual, 0)))
    requires UserLeaf(ram, e) && Target(e) == r.page
    requires r.kind.Anonymous? ==> 0 < r.page && r.page !in pool && r.page !in kernel && r.page !in Owned(s.pages)
    ensures TableFor(ram, s, Index(r.virtual, 1)) < |ram.frames|
    ensures SpaceOk(Written(ram, TableFor(ram, s, Index(r.virtual, 1)), Index(r.virtual, 0), e), pool, kernel, WithRecord(s, r))
  {
    hide Index, UserPage, Readable, Writable, Executable, User, Reserved, Permits, Target, TablesOk, Unique;
    var i1, i0 := Index(r.virtual, 1), Index(r.virtual, 0);
    EntryWritten(ram, pool, kernel, s, i1, i0, e);
    TablesKept(ram, pool, kernel, s, i1, i0, e, s.pages + [r]);
    var ram', s' := Written(ram, TableFor(ram, s, i1), i0, e), WithRecord(s, r);
    RecordAdded(s.pages, r);
    PageSlot(r.virtual);
    forall i, j: nat
      ensures EntryAt(ram', s', i, j) == EntryAt(ram', s, i, j)
    {
    }
    forall q | q in s.pages && !q.kind.Table?
      ensures q.virtual != r.virtual && MappedAt(ram', s', q)
    {
      assert MappedAt(ram, s, q);
      PageSlot(q.virtual);
    }
    assert MappedAt(ram', s', r);
    UniqueAdded(s.pages, r);
    forall i, j | 0 <= i < ENTRIES && 0 <= j < ENTRIES && s.owned[i]
      ensures Accounted(ram', s', i, j)
    {
      assert Accounted(ram, s, i, j);
      if i == i1 && j == i0 {
        assert r in s'.pages;
      }
    }
  }

  function Without(pages: seq<Record>, k: nat): (r: seq<Record>)
    requires k < |pages|
  {
    pages[..k] + pages[k + 1..]
  }

  lemma WithoutOne(pages: seq<Record>, k: nat)
    requires k < |pages|
    requires Unique(pages) && !pages[k].kind.Table?
    ensures Unique(Without(pages, k))
    ensures forall q :: q in Without(pages, k) <==> q in pages && q != pages[k]
    ensures Owned(Without(pages, k)) == Owned(pages) - (if pages[k].kind.External? then {} else {pages[k].page})
    ensures Mappings(Without(pages, k)) == Mappings(pages) - {pages[k]}
  {
    var rest := Without(pages, k);
    forall q | q in pages && q != pages[k]
      ensures q in rest
    {
      var i :| 0 <= i < |pages| && pages[i] == q;
      assert rest[if i < k then i else i - 1] == q;
    }
    forall q | q in rest
      ensures q in pages && q != pages[k]
    {
      var i :| 0 <= i < |rest| && rest[i] == q;
      assert q == pages[if i < k then i else i + 1];
    }
  }

  lemma MappingRemoved(ram: Ram, pool: set<nat>, kernel: set<nat>, s: Space, k: nat)
    requires Formed(ram) && SpaceOk(ram, pool, kernel, s) && k < |s.pages| && !s.pages[k].kind.Table?
    ensures
      var v := s.pages[k].virtual;
      && UserPage(v) && s.owned[Index(v, 1)] && TableFor(ram, s, Index(v, 1)) < |ram.frames|
      && SpaceOk(Written(ram, TableFor(ram, s, Index(v, 1)), Index(v, 0), 0), pool, kernel, WithPages(s, Without(s.pages, k)))
  {
    hide Index, UserPage, Readable, Writable, Executable, User, Reserved, Permits, Target, TablesOk, Unique, Without;
    var r := s.pages[k];
    assert MappedAt(ram, s, r);
    var i1, i0 := Index(r.virtual, 1), Index(r.virtual, 0);
    WithoutOne(s.pages, k);
    EntryWritten(ram, pool, kernel, s, i1, i0, 0);
    TablesKept(ram, pool, kernel, s, i1, i0, 0, Without(s.pages, k));
    var ram', s' := Written(ram, TableFor(ram, s, i1), i0, 0), WithPages(s, Without(s.pages, k));
    PageSlot(r.virtual);
    forall i, j: nat
      ensures EntryAt(ram', s', i, j) == EntryAt(ram', s, i, j)
    {
    }
    forall q | q in s'.pages && !q.kind.Table?
      ensures MappedAt(ram', s', q)
    {
      assert MappedAt(ram, s, q);
      OtherVirtual(s.pages, k, q);
      PageSlot(q.virtual);
    }
    forall i, j | 0 <= i < ENTRIES && 0 <= j < ENTRIES && s.owned[i]
      ensures Accounted(ram', s', i, j)
    {
      assert Accounted(ram, s, i, j);
      SlotPage(i, j);
    }
  }

  lemma OtherVirtual(pages: seq<Record>, k: nat, q: Record)
    requires k < |pages| && q in pages && q != pages[k] && !q.kind.Table? && !pages[k].kind.Table?
    requires Unique(pages)
    ensures q.virtual != pages[k].virtual
  {
    var i :| 0 <= i < |pages| && pages[i] == q;
  }

  /** The page of the changed entry is translated anew, every other address as before. */
  lemma EntryWalk(ram: Ram, pool: set<nat>, kernel: set<nat>, kernelRoot: nat, s: Space, pages: seq<Record>, v: nat, e: Word, w: nat)
    requires KernelOk(ram, kernel, kernelRoot) && SpaceOk(ram, pool, kernel, s) && UserPage(v) && s.owned[Index(v, 1)]
    requires w < VIRTUAL_LIMIT && TableFor(ram, s, Index(v, 1)) < |ram.frames|
    requires TableFor(ram, s, Index(v, 1)) !in kernel
    requires SpaceOk(Written(ram, TableFor(ram, s, Index(v, 1)), Index(v, 0), e), pool, kernel, WithPages(s, pages))
    ensures
      var ram' := Written(ram, TableFor(ram, s, Index(v, 1)), Index(v, 0), e);
      Walk(ram', s.root, w, 2) == if v <= w < v + PAGE then WalkEntry(ram', e, w, 0) else Walk(ram, s.root, w, 2)
  {
    hide Index, RecordsOk, MappingsOk, Readable, Writable, Executable, User, Reserved, Permits, Span, UserPage;
    var i1, i0 := Index(v, 1), Index(v, 0);
    var ram', s' := Written(ram, TableFor(ram, s, i1), i0, e), WithPages(s, pages);
    EntryWritten(ram, pool, kernel, s, i1, i0, e);
    SpaceWalk(ram, pool, kernel, s, w);
    SpaceWalk(ram', pool, kernel, s', w);
    InPage(v, w);
    assert EntryAt(ram', s', Index(w, 1), Index(w, 0)) == EntryAt(ram', s, Index(w, 1), Index(w, 0));
    if Index(w, 2) != 0 {
      KernelWalk(ram, ram', kernel, kernelRoot, ram.frames[s.root][Index(w, 2)], w, 2);
    } else if !s.owned[Index(w, 1)] {
      KernelWalk(ram, ram', kernel, kernelRoot, ram.frames[s.level1][Index(w, 1)], w, 1);
    }
  }
}
