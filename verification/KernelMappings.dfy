/** The kernel changes its own tables while user address spaces exist (kernel/mmu.c, which the heap and the
    device drivers call at any time). The spaces share these tables, so such a change shows in all of them, but
    not to user mode. */
module KernelMappings {
  import opened PageTables
  import opened AddressSpaces
  import opened AddressOperations
  import opened AddressRights

  /** The kernel wrote its own tables, and may have taken pages from the pool for new ones or for other use. */
  ghost predicate KernelStep(m: State, n: State, kernel: set<nat>, kernel': set<nat>, kernelRoot: nat) {
    && KernelOk(n.ram, kernel', kernelRoot)
    && kernel <= kernel' <= kernel + m.pool && n.pool <= m.pool && kernel' !! n.pool
    && n.ram.size == m.ram.size && |n.ram.frames| == |m.ram.frames| && n.spaces == m.spaces
    && forall t :: 0 <= t < |m.ram.frames| && t !in kernel && t !in m.pool ==> n.ram.frames[t] == m.ram.frames[t]
  }

  // ---------------------------------------------------------------- the steps of kernel/mmu.c

  /** An entry of a kernel table is written: an unmapping, or a leaf that is not for user mode. */
  lemma EntryPut(m: State, kernel: set<nat>, kernelRoot: nat, t: nat, i: nat, e: Word)
    requires Sound(m, kernel, kernelRoot) && t in kernel && i < ENTRIES && KernelEntry(e, kernel)
    requires t == kernelRoot && i == 0 && Valid(e) ==> !Permits(e)
    ensures KernelStep(m, State(Written(m.ram, t, i, e), m.pool, m.spaces), kernel, kernel, kernelRoot)
  {
    hide KernelEntry, SpaceOk;
    var ram' := Written(m.ram, t, i, e);
    forall u, j | u in kernel && 0 <= j < ENTRIES
      ensures KernelEntry(ram'.frames[u][j], kernel)
    {
      assert KernelEntry(m.ram.frames[u][j], kernel);
    }
    OutOfReach(m, kernel, kernelRoot, 0);
  }

  /** A cleared page becomes a kernel table and is linked into another one. */
  lemma TablePut(m: State, kernel: set<nat>, kernelRoot: nat, t: nat, i: nat, page: nat)
    requires Sound(m, kernel, kernelRoot) && t in kernel && i < ENTRIES && page in m.pool
    ensures page < |m.ram.frames| && page * PAGE + 1 < WORD_LIMIT
    ensures KernelStep(m, State(Written(Refilled(m.ram, page, Empty()), t, i, page * PAGE + 1), m.pool - {page}, m.spaces),
                       kernel, kernel + {page}, kernelRoot)
  {
    hide SpaceOk;
    OutOfReach(m, kernel, kernelRoot, 0);
    var kernel' := kernel + {page};
    var ram' := Written(Refilled(m.ram, page, Empty()), t, i, page * PAGE + 1);
    TablePointer(page);
    hide Target, Valid, User, Permits, Pointer, Reserved;
    forall u, j | u in kernel' && 0 <= j < ENTRIES
      ensures KernelEntry(ram'.frames[u][j], kernel')
    {
      if u == page {
        NothingThere(kernel');
      } else if u != t || j != i {
        assert KernelEntry(m.ram.frames[u][j], kernel);
      }
    }
  }

  lemma NothingThere(kernel: set<nat>)
    ensures KernelEntry(0, kernel)
  {
  }

  // ---------------------------------------------------------------- what they leave alone

  lemma SpacesApart(m: State, n: State, kernel: set<nat>, kernel': set<nat>, kernelRoot: nat, id: nat)
    requires Sound(m, kernel, kernelRoot) && KernelStep(m, n, kernel, kernel', kernelRoot) && id in m.spaces
    ensures SameFrames(m.ram, n.ram, Owned(m.spaces[id].pages)) && n.pool !! Owned(m.spaces[id].pages) && kernel' !! Owned(m.spaces[id].pages)
  {
    hide SpaceOk, KernelOk;
    OutOfReach(m, kernel, kernelRoot, id);
    assert OwnedBy(m, id) == Owned(m.spaces[id].pages);
  }

  /** More kernel tables do no harm to a space that does not own them. */
  lemma MoreKernel(ram: Ram, pool: set<nat>, kernel: set<nat>, kernel': set<nat>, s: Space)
    requires Formed(ram) && SpaceOk(ram, pool, kernel, s) && kernel <= kernel' && kernel' !! Owned(s.pages)
    ensures SpaceOk(ram, pool, kernel', s)
  {
    hide MappingsOk, Unique, PrivateTable, Target, Valid, User, Permits, Reserved;
    forall r | r in s.pages && !r.kind.External?
      ensures r.page !in kernel'
    {
      assert r.page in Owned(s.pages);
    }
    forall i | 0 < i < ENTRIES
      ensures KernelEntry(ram.frames[s.root][i], kernel')
    {
      assert KernelEntry(ram.frames[s.root][i], kernel);
    }
    forall i | 0 <= i < ENTRIES && !s.owned[i]
      ensures KernelEntry(ram.frames[s.level1][i], kernel')
    {
      assert KernelEntry(ram.frames[s.level1][i], kernel);
    }
  }

  /** The whole system stays in order. */
  lemma KernelStepSound(m: State, n: State, kernel: set<nat>, kernel': set<nat>, kernelRoot: nat)
    requires Sound(m, kernel, kernelRoot) && KernelStep(m, n, kernel, kernel', kernelRoot)
    ensures Sound(n, kernel', kernelRoot)
  {
    hide SpaceOk;
    forall id | id in n.spaces
      ensures SpaceOk(n.ram, n.pool, kernel', n.spaces[id])
    {
      SpacesApart(m, n, kernel, kernel', kernelRoot, id);
      SpaceFrame(m.ram, n.ram, m.pool, n.pool, kernel, m.spaces[id]);
      MoreKernel(n.ram, n.pool, kernel, kernel', m.spaces[id]);
    }
    forall a, b | a in n.spaces && b in n.spaces && a != b
      ensures OwnedBy(n, a) !! OwnedBy(n, b)
    {
      assert OwnedBy(m, a) !! OwnedBy(m, b);
    }
  }

  /** User mode is let through to `p` at `v`. */
  ghost predicate Lets(m: State, id: nat, v: nat, access: Access, p: nat) {
    && Formed(m.ram) && id in m.spaces
    && Translation(m.ram, m.spaces[id].root * PAGE, true, v, access) == Ok(p)
  }

  /** What user mode is let through to is decided by one entry of a private table. */
  ghost predicate LetBy(ram: Ram, s: Space, v: nat, access: Access, p: nat) {
    && v < VIRTUAL_LIMIT && |s.owned| == ENTRIES && Index(v, 2) == 0 && s.owned[Index(v, 1)]
    && var e := EntryAt(ram, s, Index(v, 1), Index(v, 0));
    UserLeaf(ram, e) && Granted(e, true, access) && p == Physical(Page(e, 0), v)
  }

  lemma LetsByEntry(m: State, kernel: set<nat>, kernelRoot: nat, id: nat, v: nat, access: Access, p: nat)
    requires Sound(m, kernel, kernelRoot) && id in m.spaces
    ensures Lets(m, id, v, access, p) <==> LetBy(m.ram, m.spaces[id], v, access, p)
  {
    hide Sound, Lets, LetBy;
    if Lets(m, id, v, access, p) {
      LetsNeeds(m, kernel, kernelRoot, id, v, access, p);
    }
    if LetBy(m.ram, m.spaces[id], v, access, p) {
      LetByLets(m, kernel, kernelRoot, id, v, access, p);
    }
  }

  lemma LetsNeeds(m: State, kernel: set<nat>, kernelRoot: nat, id: nat, v: nat, access: Access, p: nat)
    requires Sound(m, kernel, kernelRoot) && id in m.spaces && Lets(m, id, v, access, p)
    ensures LetBy(m.ram, m.spaces[id], v, access, p)
  {
    hide Sound, SpaceOk, Walk, Index, UserLeaf, Granted, EntryAt, Translation, Span, Target, Physical, Fits, TableFor, PoolOk, Valid, Permits;
    if v >= VIRTUAL_LIMIT {
      BeyondLimit(m.ram, m.spaces[id].root, v, access);
    } else {
      SpaceFacts(m, kernel, kernelRoot, id);
      TranslationIs(m.ram, m.spaces[id].root, v, access);
      GrantedUser(Walk(m.ram, m.spaces[id].root, v, 2).entry, access);
      UserLeaves(m, kernel, kernelRoot, id, v);
    }
  }

  lemma LetByLets(m: State, kernel: set<nat>, kernelRoot: nat, id: nat, v: nat, access: Access, p: nat)
    requires Sound(m, kernel, kernelRoot) && id in m.spaces && LetBy(m.ram, m.spaces[id], v, access, p)
    ensures Lets(m, id, v, access, p)
  {
    hide Sound, SpaceOk, Walk, WalkEntry, Index, UserLeaf, Granted, EntryAt, Translation, Span, Target, Physical, Fits, TableFor, PoolOk, Valid, Permits;
    var s := m.spaces[id];
    SpaceFacts(m, kernel, kernelRoot, id);
    TranslationIs(m.ram, s.root, v, access);
    SpaceWalk(m.ram, m.pool, kernel, s, v);
    LeafWalk(m.ram, EntryAt(m.ram, s, Index(v, 1), Index(v, 0)), v);
  }

  lemma BeyondLimit(ram: Ram, root: nat, v: nat, access: Access)
    requires Formed(ram) && v >= VIRTUAL_LIMIT
    ensures Translation(ram, root * PAGE, true, v, access) == InvalidVirtualAddress
  {
  }

  lemma TranslationIs(ram: Ram, root: nat, v: nat, access: Access)
    requires Formed(ram) && root < |ram.frames| && v < VIRTUAL_LIMIT
    ensures
      var f, r := Walk(ram, root, v, 2), Translation(ram, root * PAGE, true, v, access);
      && (r.Ok? <==> f.Page? && Granted(f.entry, true, access) && Fits(ram, Target(f.entry) * PAGE, Span(f.level)))
      && (r.Ok? ==> r == Ok(Physical(f, v)))
  {
    hide Walk, Granted, Fits;
    assert root * PAGE / PAGE == root;
  }

  lemma GrantedUser(e: Word, access: Access)
    requires Granted(e, true, access)
    ensures User(e)
  {
  }

  lemma LeafWalk(ram: Ram, e: Word, v: nat)
    requires Formed(ram) && UserLeaf(ram, e)
    ensures WalkEntry(ram, e, v, 0) == Page(e, 0) && Fits(ram, Target(e) * PAGE, Span(0))
  {
    assert (Target(e) + 1) * PAGE <= ram.size;
  }

  /** Private tables are read as before. */
  lemma EntrySame(ram: Ram, ram': Ram, pool: set<nat>, kernel: set<nat>, s: Space, i: nat, j: nat)
    requires Formed(ram) && Formed(ram') && SpaceOk(ram, pool, kernel, s) && SameFrames(ram, ram', Owned(s.pages))
    requires i < ENTRIES && j < ENTRIES && s.owned[i]
    ensures EntryAt(ram', s, i, j) == EntryAt(ram, s, i, j)
  {
    hide MappingsOk, RecordsOk, KernelEntry, Target, Pointer, Flags;
    OwnsTables(s, s.level1);
    assert PrivateTable(ram.frames[s.level1][i], s);
    OwnsTables(s, Target(ram.frames[s.level1][i]));
  }

  /** A change to the kernel's own tables changes nothing for user mode in any space. */
  lemma UserUnmoved(m: State, n: State, kernel: set<nat>, kernel': set<nat>, kernelRoot: nat, id: nat, v: nat, access: Access, p: nat)
    requires Sound(m, kernel, kernelRoot) && KernelStep(m, n, kernel, kernel', kernelRoot) && id in m.spaces
    ensures Lets(n, id, v, access, p) <==> Lets(m, id, v, access, p)
  {
    hide Sound, SpaceOk, Lets, Index, EntryAt, Granted, Physical, KernelOk, Target, TableFor, PoolOk, Valid, Permits, User, Readable, Writable, Executable, Reserved;
    KernelStepSound(m, n, kernel, kernel', kernelRoot);
    LetsByEntry(m, kernel, kernelRoot, id, v, access, p);
    LetsByEntry(n, kernel', kernelRoot, id, v, access, p);
    SpaceFacts(m, kernel, kernelRoot, id);
    SpaceFacts(n, kernel', kernelRoot, id);
    SpacesApart(m, n, kernel, kernel', kernelRoot, id);
    if v < VIRTUAL_LIMIT && m.spaces[id].owned[Index(v, 1)] {
      EntrySame(m.ram, n.ram, m.pool, kernel, m.spaces[id], Index(v, 1), Index(v, 0));
    }
  }

  // ---------------------------------------------------------------- runs of both kinds of steps

  datatype Act = OnSpace(id: nat) | OnKernel

  ghost predicate Acts(m: State, n: State, kernel: set<nat>, kernel': set<nat>, kernelRoot: nat, a: Act) {
    match a
    case OnSpace(id) => kernel' == kernel && AddressRights.Step(m, n, kernel, kernelRoot, id)
    case OnKernel => Sound(m, kernel, kernelRoot) && KernelStep(m, n, kernel, kernel', kernelRoot)
  }

  /** A run in which operations on spaces and on the kernel's tables mix; `kernels` says which tables are the
      kernel's in each state. */
  ghost predicate MixedRun(states: seq<State>, kernels: seq<set<nat>>, kernelRoot: nat, acts: seq<Act>) {
    && |states| == |kernels| == |acts| + 1 && Sound(states[0], kernels[0], kernelRoot)
    && forall i :: 0 <= i < |acts| ==> Acts(states[i], states[i + 1], kernels[i], kernels[i + 1], kernelRoot, acts[i])
  }

  lemma ActKeeps(m: State, n: State, kernel: set<nat>, kernel': set<nat>, kernelRoot: nat, a: Act, id: nat, v: nat, access: Access, p: nat)
    requires Acts(m, n, kernel, kernel', kernelRoot, a) && id in m.spaces && a != OnSpace(id)
    ensures Sound(n, kernel', kernelRoot) && id in n.spaces && n.spaces[id] == m.spaces[id]
    ensures Lets(n, id, v, access, p) <==> Lets(m, id, v, access, p)
  {
    match a
    case OnSpace(other) =>
      hide Sound, Touches, Translation;
      OneStep(m, n, kernel, kernelRoot, other, id, true, v, access);
    case OnKernel =>
      hide Sound, Lets;
      KernelStepSound(m, n, kernel, kernel', kernelRoot);
      UserUnmoved(m, n, kernel, kernel', kernelRoot, id, v, access, p);
  }

  /** However long the kernel and the other spaces run, user mode in a space none of them acts on reaches what it
      reached at the start, and nothing else; and every state of the run is in order. */
  lemma {:induction false} UserIsolated(states: seq<State>, kernels: seq<set<nat>>, kernelRoot: nat, acts: seq<Act>, k: nat,
                                        id: nat, v: nat, access: Access, p: nat)
    requires MixedRun(states, kernels, kernelRoot, acts) && k <= |acts| && id in states[0].spaces
    requires forall i :: 0 <= i < |acts| ==> acts[i] != OnSpace(id)
    ensures Sound(states[k], kernels[k], kernelRoot) && id in states[k].spaces && states[k].spaces[id] == states[0].spaces[id]
    ensures Lets(states[k], id, v, access, p) <==> Lets(states[0], id, v, access, p)
  {
    hide Sound, Lets, Acts;
    if k > 0 {
      UserIsolated(states, kernels, kernelRoot, acts, k - 1, id, v, access, p);
      ActKeeps(states[k - 1], states[k], kernels[k - 1], kernels[k], kernelRoot, acts[k - 1], id, v, access, p);
    }
  }
}
