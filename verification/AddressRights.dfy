/** What holds of every address space in every reachable state: isolation, rights, conservation of
    pages, and the agreement of the kernel's software translation with the hardware. */
module AddressRights {
  import opened Options
  import opened PageTables
  import opened AddressSpaces
  import opened AddressOperations

  // ---------------------------------------------------------------- isolation

  /** Isolation: an operation on one space changes no translation of the kernel or of another space. */
  lemma Isolation(m: State, n: State, kernel: set<nat>, kernelRoot: nat, id: nat, other: nat, v: nat)
    requires Sound(m, kernel, kernelRoot) && Sound(n, kernel, kernelRoot) && Touches(m, n, id)
    ensures n.ram.size == m.ram.size && Walk(n.ram, kernelRoot, v, 2) == Walk(m.ram, kernelRoot, v, 2)
    ensures other in m.spaces && other != id ==> n.spaces[other] == m.spaces[other] && View(n, other, v) == View(m, other, v)
  {
    hide TablesOk, MappingsOk, RecordsOk, Index;
    OthersUntouched(m, n, kernel, kernelRoot, id, other);
    KernelWalk(m.ram, n.ram, kernel, kernelRoot, m.ram.frames[kernelRoot][Index(v, 2)], v, 2);
    if other in m.spaces && other != id {
      SpaceWalkFrame(m.ram, n.ram, m.pool, n.pool, kernel, kernelRoot, m.spaces[other], v);
    }
  }

  /** The hardware's translation depends on the walk and on the size of memory only. */
  lemma SameTranslation(ram: Ram, ram': Ram, root: nat, user: bool, v: nat, access: Access)
    requires Formed(ram) && Formed(ram') && ram'.size == ram.size && root < |ram.frames|
    requires v < VIRTUAL_LIMIT ==> Walk(ram', root, v, 2) == Walk(ram, root, v, 2)
    ensures Translation(ram', root * PAGE, user, v, access) == Translation(ram, root * PAGE, user, v, access)
  {
    hide Walk;
    assert root * PAGE / PAGE == root;
  }

  /** One operation on space `id`. */
  ghost predicate Step(m: State, n: State, kernel: set<nat>, kernelRoot: nat, id: nat) {
    Sound(m, kernel, kernelRoot) && Touches(m, n, id) && Sound(n, kernel, kernelRoot)
  }

  /** A run: operation `i` acts on space `ids[i]` and leads from state `i` to the next. */
  ghost predicate Run(states: seq<State>, ids: seq<nat>, kernel: set<nat>, kernelRoot: nat) {
    |states| == |ids| + 1 && forall i :: 0 <= i < |ids| ==> Step(states[i], states[i + 1], kernel, kernelRoot, ids[i])
  }

  /** However long others run, the hardware translates for the kernel and for a space none of them
      acts on as it did at the start. */
  lemma {:induction false} IsolatedOverRuns(states: seq<State>, ids: seq<nat>, kernel: set<nat>, kernelRoot: nat, other: nat,
                                            user: bool, v: nat, access: Access)
    requires Run(states, ids, kernel, kernelRoot) && ids != [] && other in states[0].spaces && other !in ids
    ensures
      var m, n := states[0], states[|ids|];
      && other in n.spaces && n.spaces[other] == m.spaces[other] && Formed(m.ram) && Formed(n.ram)
      && Translation(n.ram, kernelRoot * PAGE, user, v, access) == Translation(m.ram, kernelRoot * PAGE, user, v, access)
      && Translation(n.ram, n.spaces[other].root * PAGE, user, v, access) == Translation(m.ram, m.spaces[other].root * PAGE, user, v, access)
    decreases |ids|
  {
    hide Sound, Walk, Translation, Touches;
    var k := |ids| - 1;
    if k > 0 {
      assert Run(states[..k + 1], ids[..k], kernel, kernelRoot) by {
        forall i | 0 <= i < k
          ensures Step(states[..k + 1][i], states[..k + 1][i + 1], kernel, kernelRoot, ids[..k][i])
        {
          assert Step(states[i], states[i + 1], kernel, kernelRoot, ids[i]);
        }
      }
      IsolatedOverRuns(states[..k + 1], ids[..k], kernel, kernelRoot, other, user, v, access);
    }
    assert Step(states[k], states[k + 1], kernel, kernelRoot, ids[k]) && ids[k] in ids;
    OneStep(states[k], states[k + 1], kernel, kernelRoot, ids[k], other, user, v, access);
  }

  lemma OneStep(m: State, n: State, kernel: set<nat>, kernelRoot: nat, id: nat, other: nat, user: bool, v: nat, access: Access)
    requires Step(m, n, kernel, kernelRoot, id) && other in m.spaces && other != id
    ensures other in n.spaces && n.spaces[other] == m.spaces[other] && Formed(m.ram) && Formed(n.ram)
    ensures Translation(n.ram, kernelRoot * PAGE, user, v, access) == Translation(m.ram, kernelRoot * PAGE, user, v, access)
    ensures Translation(n.ram, n.spaces[other].root * PAGE, user, v, access) == Translation(m.ram, m.spaces[other].root * PAGE, user, v, access)
  {
    hide Walk, Translation, TablesOk, MappingsOk, RecordsOk;
    Isolation(m, n, kernel, kernelRoot, id, other, v);
    SpaceFacts(m, kernel, kernelRoot, other);
    SameTranslation(m.ram, n.ram, kernelRoot, user, v, access);
    SameTranslation(m.ram, n.ram, m.spaces[other].root, user, v, access);
  }

  // ---------------------------------------------------------------- conservation

  /** Free pages and the pages of all spaces together. */
  ghost function AllPages(m: State): set<nat> {
    m.pool + set id, p | id in m.spaces && p in OwnedBy(m, id) :: p
  }

  /** No operation loses a page or makes one up. */
  lemma PagesConserved(m: State, n: State, id: nat)
    requires Touches(m, n, id)
    ensures AllPages(n) == AllPages(m)
  {
    PagesStay(m, n, id);
    forall p | p in AllPages(n)
      ensures p in AllPages(m)
    {
      if p !in n.pool {
        var other :| other in n.spaces && p in OwnedBy(n, other);
        if other != id {
          assert OwnedBy(m, other) == OwnedBy(n, other);
        } else {
          assert p in m.pool + OwnedBy(m, id);
        }
      } else {
        assert p in m.pool + OwnedBy(m, id);
      }
    }
  }

  lemma PagesStay(m: State, n: State, id: nat)
    requires Touches(m, n, id)
    ensures AllPages(m) <= AllPages(n)
  {
    forall p | p in AllPages(m)
      ensures p in AllPages(n)
    {
      if p in m.pool {
        assert p in n.pool + OwnedBy(n, id);
      } else {
        var other :| other in m.spaces && p in OwnedBy(m, other);
        if other != id {
          assert OwnedBy(n, other) == OwnedBy(m, other);
        } else {
          assert p in n.pool + OwnedBy(n, id);
        }
      }
    }
  }

  // ---------------------------------------------------------------- rights

  /** The hardware lets user mode at `va`, with all the rights in `required`, to `pa`. */
  ghost predicate UserAccess(ram: Ram, root: nat, va: nat, required: Word, pa: nat)
    requires Formed(ram)
  {
    && Translation(ram, root * PAGE, true, va, Read) == Ok(pa)
    && (Writable(required) ==> Translation(ram, root * PAGE, true, va, Write) == Ok(pa))
    && (Executable(required) ==> Translation(ram, root * PAGE, true, va, Execute) == Ok(pa))
  }

  /** No leaf reached through the kernel's entries is for user mode. */
  lemma {:induction false} KernelLeaf(ram: Ram, kernel: set<nat>, kernelRoot: nat, e: Word, v: nat, level: nat)
    requires KernelOk(ram, kernel, kernelRoot) && KernelEntry(e, kernel) && level <= 2
    ensures WalkEntry(ram, e, v, level).Page? ==> !User(WalkEntry(ram, e, v, level).entry)
    decreases level
  {
    hide Index, Span, Target, Readable, Writable, Executable, User, Reserved;
    if Classify(ram, e, level).Next? {
      var t := Target(e);
      assert KernelEntry(ram.frames[t][Index(v, level - 1)], kernel);
      KernelLeaf(ram, kernel, kernelRoot, ram.frames[t][Index(v, level - 1)], v, level - 1);
    }
  }

  /** A leaf for user mode comes from a private table, where it is readable, in RAM, and not both
      writable and executable. */
  lemma UserLeaves(m: State, kernel: set<nat>, kernelRoot: nat, id: nat, v: nat)
    requires Sound(m, kernel, kernelRoot) && id in m.spaces && v < VIRTUAL_LIMIT
    ensures View(m, id, v).Page? && User(View(m, id, v).entry) ==>
      && |m.spaces[id].owned| == ENTRIES && Index(v, 2) == 0 && m.spaces[id].owned[Index(v, 1)]
      && View(m, id, v) == Page(EntryAt(m.ram, m.spaces[id], Index(v, 1), Index(v, 0)), 0)
      && UserLeaf(m.ram, View(m, id, v).entry)
  {
    hide RecordsOk, Walk, Span, Target, Readable, Writable, Executable, Reserved;
    var s := m.spaces[id];
    SpaceFacts(m, kernel, kernelRoot, id);
    SpaceWalk(m.ram, m.pool, kernel, s, v);
    var i1, i0 := Index(v, 1), Index(v, 0);
    if Index(v, 2) != 0 {
      KernelLeaf(m.ram, kernel, kernelRoot, m.ram.frames[s.root][Index(v, 2)], v, 2);
    } else if !s.owned[i1] {
      KernelLeaf(m.ram, kernel, kernelRoot, m.ram.frames[s.level1][i1], v, 1);
    } else if View(m, id, v).Page? && User(View(m, id, v).entry) {
      AccountedLeaf(m.ram, s, i1, i0);
    }
  }

  lemma AccountedLeaf(ram: Ram, s: Space, i1: nat, i0: nat)
    requires |s.owned| == ENTRIES && MappingsOk(ram, s) && i1 < ENTRIES && i0 < ENTRIES && s.owned[i1]
    requires Valid(EntryAt(ram, s, i1, i0)) && User(EntryAt(ram, s, i1, i0))
    ensures UserLeaf(ram, EntryAt(ram, s, i1, i0))
  {
    hide Index, UserLeaf, EntryAt, Target;
    assert Accounted(ram, s, i1, i0);
    var r :| r in s.pages && !r.kind.Table? && r.virtual == i1 * LARGE + i0 * PAGE;
    assert MappedAt(ram, s, r);
    SlotPage(i1, i0);
  }

  /** User mode can never both write and execute at an address. */
  lemma WriteXorExecute(m: State, kernel: set<nat>, kernelRoot: nat, id: nat, v: nat)
    requires Sound(m, kernel, kernelRoot) && id in m.spaces
    ensures Formed(m.ram)
    ensures !(Translation(m.ram, m.spaces[id].root * PAGE, true, v, Write).Ok? &&
              Translation(m.ram, m.spaces[id].root * PAGE, true, v, Execute).Ok?)
  {
    hide Walk, Index, Span, Readable, Reserved, TablesOk, RecordsOk, MappingsOk;
    SpaceFacts(m, kernel, kernelRoot, id);
    assert m.spaces[id].root * PAGE / PAGE == m.spaces[id].root;
    if v < VIRTUAL_LIMIT {
      UserLeaves(m, kernel, kernelRoot, id, v);
    }
  }

  // ---------------------------------------------------------------- the kernel's software translation

  predicate HasRights(e: Word, required: Word) {
    (Readable(required) ==> Readable(e)) && (Writable(required) ==> Writable(e)) && (Executable(required) ==> Executable(e))
  }

  /** The entry is for user mode and carries the rights asked for. */
  predicate Passes(e: Word, required: Word) {
    Valid(e) && User(e) && HasRights(e, required)
  }

  /** A valid entry taken for a pointer, whatever else it says. */
  function Down(ram: Ram, e: Word): (r: Option<nat>)
    ensures r.Some? ==> r.value < |ram.frames|
  {
    if Valid(e) && Target(e) < |ram.frames| then Some(Target(e)) else None
  }

  /** kernel_address_space_resolve: unlike the hardware it does not ask whether an upper entry is a leaf. */
  function Resolve(ram: Ram, s: Space, va: nat, required: Word): Option<nat>
    requires Formed(ram)
  {
    if required >= 16 || Valid(required) || va < USER_BASE || va >= USER_TOP || s.root >= |ram.frames| then None
    else
      match Down(ram, ram.frames[s.root][Index(va, 2)])
      case None => None
      case Some(level1) =>
        match Down(ram, ram.frames[level1][Index(va, 1)])
        case None => None
        case Some(level0) =>
          var e := ram.frames[level0][Index(va, 0)];
          if Passes(e, required) then Some(Target(e) * PAGE + va % PAGE) else None
  }

  /** The word that stands where Resolve looks for the level-0 entry. */
  ghost function Consulted(ram: Ram, s: Space, va: nat): Word {
    EntryAt(ram, s, Index(va, 1), Index(va, 0))
  }

  lemma ResolveReads(m: State, kernel: set<nat>, kernelRoot: nat, id: nat, va: nat, required: Word)
    requires Sound(m, kernel, kernelRoot) && id in m.spaces && USER_BASE <= va < USER_TOP && required < 16 && !Valid(required)
    ensures Formed(m.ram) && m.spaces[id].level1 < |m.ram.frames|
    ensures Resolve(m.ram, m.spaces[id], va, required) ==
      var e := Consulted(m.ram, m.spaces[id], va);
      if Valid(m.ram.frames[m.spaces[id].level1][Index(va, 1)]) && Passes(e, required) then Some(Target(e) * PAGE + va % PAGE) else None
  {
    hide RecordsOk, MappingsOk, Walk, Readable, Writable, Executable, Reserved, User, HasRights, KernelEntry;
    SpaceFacts(m, kernel, kernelRoot, id);
    TablePointer(m.spaces[id].level1);
    assert Index(va, 2) == 0;
    hide Index;
  }

  /** Where the kernel has no large page, its software translation is the hardware's for user mode. */
  lemma ResolveAgrees(m: State, kernel: set<nat>, kernelRoot: nat, id: nat, va: nat, required: Word, pa: nat)
    requires Sound(m, kernel, kernelRoot) && id in m.spaces && USER_BASE <= va < USER_TOP && required < 16 && !Valid(required)
    ensures Formed(m.ram) && m.spaces[id].level1 < |m.ram.frames| && |m.spaces[id].owned| == ENTRIES
    ensures !Large(m.ram, m.spaces[id], Index(va, 1)) ==>
      (Resolve(m.ram, m.spaces[id], va, required) == Some(pa) <==> UserAccess(m.ram, m.spaces[id].root, va, required, pa))
    ensures Large(m.ram, m.spaces[id], Index(va, 1)) ==> !UserAccess(m.ram, m.spaces[id].root, va, required, pa)
  {
    hide RecordsOk, MappingsOk, TablesOk, Walk, Reserved, Resolve;
    var s := m.spaces[id];
    SpaceFacts(m, kernel, kernelRoot, id);
    ResolveReads(m, kernel, kernelRoot, id, va, required);
    UserLeaves(m, kernel, kernelRoot, id, va);
    assert s.root * PAGE / PAGE == s.root;
    assert Index(va, 2) == 0;
    hide Index, Target;
    OwnedWalk(m, kernel, kernelRoot, id, va);
  }

  /** Under a private table the entry decides; elsewhere there is nothing for user mode. */
  lemma OwnedWalk(m: State, kernel: set<nat>, kernelRoot: nat, id: nat, va: nat)
    requires Sound(m, kernel, kernelRoot) && id in m.spaces && USER_BASE <= va < USER_TOP
    ensures |m.spaces[id].owned| == ENTRIES
    ensures m.spaces[id].owned[Index(va, 1)] && Valid(Consulted(m.ram, m.spaces[id], va)) && User(Consulted(m.ram, m.spaces[id], va)) ==>
      View(m, id, va) == Page(Consulted(m.ram, m.spaces[id], va), 0)
    ensures m.spaces[id].level1 < |m.ram.frames|
    ensures m.spaces[id].owned[Index(va, 1)] ==> Valid(m.ram.frames[m.spaces[id].level1][Index(va, 1)])
    ensures !m.spaces[id].owned[Index(va, 1)] && !Large(m.ram, m.spaces[id], Index(va, 1)) && Valid(m.ram.frames[m.spaces[id].level1][Index(va, 1)]) ==>
      !(Valid(Consulted(m.ram, m.spaces[id], va)) && User(Consulted(m.ram, m.spaces[id], va)))
  {
    hide RecordsOk, Walk, Reserved, Target, Readable, Writable, Executable;
    var s := m.spaces[id];
    SpaceFacts(m, kernel, kernelRoot, id);
    SpaceWalk(m.ram, m.pool, kernel, s, va);
    assert Index(va, 2) == 0;
    hide Index;
    var i1, i0 := Index(va, 1), Index(va, 0);
    var e := m.ram.frames[s.level1][i1];
    if s.owned[i1] {
      assert PrivateTable(e, s);
      if Valid(EntryAt(m.ram, s, i1, i0)) && User(EntryAt(m.ram, s, i1, i0)) {
        AccountedLeaf(m.ram, s, i1, i0);
        LeafWalk(m.ram, EntryAt(m.ram, s, i1, i0));
      }
    } else if Valid(e) && !Permits(e) {
      CopySupervisor(m.ram, kernel, kernelRoot, e, m.ram.frames[Target(e)]);
    }
  }

  ghost predicate Agree(ram: Ram, s: Space, va: nat, required: Word)
    requires Formed(ram)
  {
    forall pa: nat :: Resolve(ram, s, va, required) == Some(pa) <==> UserAccess(ram, s.root, va, required, pa)
  }

  /** The two translations agree exactly when the kernel has no large page there, or the word of that
      page which Resolve mistakes for an entry does not pass for one. */
  lemma ResolveExactly(m: State, kernel: set<nat>, kernelRoot: nat, id: nat, va: nat, required: Word)
    requires Sound(m, kernel, kernelRoot) && id in m.spaces && USER_BASE <= va < USER_TOP && required < 16 && !Valid(required)
    ensures Formed(m.ram) && m.spaces[id].level1 < |m.ram.frames| && |m.spaces[id].owned| == ENTRIES
    ensures Agree(m.ram, m.spaces[id], va, required) <==>
      !(Large(m.ram, m.spaces[id], Index(va, 1)) && Passes(Consulted(m.ram, m.spaces[id], va), required))
  {
    hide Resolve, UserAccess, Consulted, Passes, Index, Sound;
    var s := m.spaces[id];
    ResolveReads(m, kernel, kernelRoot, id, va, required);
    ResolveAgrees(m, kernel, kernelRoot, id, va, required, 0);
    forall pa: nat
      ensures !Large(m.ram, s, Index(va, 1)) ==> (Resolve(m.ram, s, va, required) == Some(pa) <==> UserAccess(m.ram, s.root, va, required, pa))
      ensures Large(m.ram, s, Index(va, 1)) ==> !UserAccess(m.ram, s.root, va, required, pa)
    {
      ResolveAgrees(m, kernel, kernelRoot, id, va, required, pa);
    }
    if !Large(m.ram, s, Index(va, 1)) {
      assert Agree(m.ram, s, va, required);
    } else if !Passes(Consulted(m.ram, s, va), required) {
      assert Resolve(m.ram, s, va, required) == None;
      assert Agree(m.ram, s, va, required);
    } else {
      var pa := Resolve(m.ram, s, va, required).value;
      assert Resolve(m.ram, s, va, required) == Some(pa) && !UserAccess(m.ram, s.root, va, required, pa);
    }
  }

  // ---------------------------------------------------------------- where they differ

  const DATA: nat := 512

  /** A word of kernel data that reads like a user entry for page 5, readable and writable. */
  function Lookalike(): Word {
    5 * PAGE + 23
  }

  /** 4 MiB of memory with the kernel's root in page 1 and a table in page 2, whose entry 8 is a large page for the
      kernel at the second 2 MiB; the data there begins with that word. */
  function LargeRam(): (ram: Ram)
    ensures Formed(ram)
  {
    Ram(1024 * PAGE, seq(1024, t => LargeFrame(t)))
  }

  function LargeFrame(t: int): (f: Frame)
    ensures |f| == ENTRIES && forall i :: 0 <= i < ENTRIES ==> f[i] == LargeWord(t, i)
  {
    seq(ENTRIES, i => LargeWord(t, i))
  }

  function LargeWord(t: int, i: int): Word {
    if t == 1 && i == 0 then 2 * PAGE + 1
    else if t == 2 && i == 8 then DATA * PAGE + 7
    else if t == DATA && i == 0 then Lookalike()
    else 0
  }

  lemma LargeRamOk()
    ensures KernelOk(LargeRam(), {1, 2}, 1) && PoolOk(LargeRam(), {3, 4}, {1, 2})
  {
    hide LargeFrame;
    var ram := LargeRam();
    EntryParts(2, 1);
    EntryParts(DATA, 7);
    forall t, i | t in {1, 2} && 0 <= i < ENTRIES
      ensures KernelEntry(ram.frames[t][i], {1, 2})
    {
      assert ram.frames[t][i] == LargeWord(t, i);
    }
    assert ram.frames[1][0] == LargeWord(1, 0);
  }

  /** The state after a space is created over that memory. */
  ghost function LargeState(): State {
    State(NewTables(LargeRam(), 1, 3, 4), {}, map[0 := NewSpace(3, 4)])
  }

  /** The kernel's translation gives user memory where the hardware gives none: it takes the large page for a table. */
  lemma ResolveDiffers()
    ensures Sound(LargeState(), {1, 2}, 1) && 0 in LargeState().spaces && Formed(LargeState().ram)
    ensures Resolve(LargeState().ram, LargeState().spaces[0], USER_BASE, 6) == Some(5 * PAGE)
    ensures forall access :: !Translation(LargeState().ram, LargeState().spaces[0].root * PAGE, true, USER_BASE, access).Ok?
    ensures !Agree(LargeState().ram, LargeState().spaces[0], USER_BASE, 6)
  {
    hide SpaceOk, Walk, Translation;
    var m, n := State(LargeRam(), {3, 4}, map[]), LargeState();
    LargeRamOk();
    SpaceCreated(m, {1, 2}, 1, 0, 3, 4);
    assert m.pool - {3, 4} == {} && m.spaces[0 := NewSpace(3, 4)] == n.spaces;
    LargeResolve();
    LargeWalk();
    assert Resolve(n.ram, n.spaces[0], USER_BASE, 6) == Some(5 * PAGE) && !UserAccess(n.ram, n.spaces[0].root, USER_BASE, 6, 5 * PAGE);
  }

  lemma LargeFrames()
    ensures |LargeState().ram.frames| == 1024 && Formed(LargeState().ram) && LargeState().ram.size == 1024 * PAGE
    ensures LargeState().ram.frames[3][0] == 4 * PAGE + 1
    ensures LargeState().ram.frames[4][8] == DATA * PAGE + 7
    ensures LargeState().ram.frames[DATA][0] == Lookalike()
    ensures Index(USER_BASE, 2) == 0 && Index(USER_BASE, 1) == 8 && Index(USER_BASE, 0) == 0
  {
    hide LargeFrame;
    var ram := LargeRam();
    EntryParts(2, 1);
    assert ram.frames[1][0] == LargeWord(1, 0) && ram.frames[2][8] == LargeWord(2, 8) && ram.frames[DATA][0] == LargeWord(DATA, 0);
  }

  lemma LargeResolve()
    ensures Formed(LargeState().ram) && Resolve(LargeState().ram, LargeState().spaces[0], USER_BASE, 6) == Some(5 * PAGE)
  {
    LargeFrames();
    hide LargeState, Index;
    assert LargeState().spaces[0].root == 3 by { LargeRoot(); }
    EntryParts(4, 1);
    EntryParts(DATA, 7);
    EntryParts(5, 23);
  }

  lemma LargeRoot()
    ensures 0 in LargeState().spaces && LargeState().spaces[0].root == 3
  {
  }

  lemma LargeWalk()
    ensures Formed(LargeState().ram)
    ensures forall access :: Translation(LargeState().ram, 3 * PAGE, true, USER_BASE, access) == PermissionDenied
  {
    LargeFrames();
    hide LargeState, Index;
    EntryParts(4, 1);
    EntryParts(DATA, 7);
    var ram := LargeState().ram;
    assert Classify(ram, ram.frames[3][0], 2) == Next(4);
    assert Classify(ram, ram.frames[4][8], 1) == Leaf(ram.frames[4][8]);
    assert Walk(ram, 4, USER_BASE, 1) == Page(ram.frames[4][8], 1);
    assert Walk(ram, 3, USER_BASE, 2) == Page(ram.frames[4][8], 1);
  }
}
