/** The operations of kernel/address_space.c on the spaces of a running kernel. */
module UserSpaces {
  import opened Options
  import opened PageTables
  import opened AddressSpaces
  import opened AddressOperations

  class Machine {
    var ram: Ram
    /** Pages the page manager has left. */
    var pool: set<nat>
    var spaces: map<nat, Space>
    /** Page number of the kernel's root table, and the tables reached from it. */
    const kernelRoot: nat
    ghost const kernel: set<nat>

    constructor (ram: Ram, pool: set<nat>, kernelRoot: nat, ghost kernel: set<nat>)
      requires KernelOk(ram, kernel, kernelRoot) && PoolOk(ram, pool, kernel)
      ensures Ok() && spaces == map[]
    {
      this.ram, this.pool, this.kernelRoot, this.kernel, spaces := ram, pool, kernelRoot, kernel, map[];
    }

    ghost function Now(): State
      reads this
    {
      State(ram, pool, spaces)
    }

    ghost predicate Ok()
      reads this
    {
      Sound(Now(), kernel, kernelRoot)
    }

    /** A cleared page for the kernel's use, or 0 when the heap or the page manager has nothing left. */
    method TakePage() returns (page: nat)
      requires PoolOk(ram, pool, kernel)
      modifies `ram, `pool
      ensures page == 0 ==> ram == old(ram) && pool == old(pool)
      ensures page != 0 ==> page in old(pool) && pool == old(pool) - {page} && ram == Cleared(old(ram), page)
    {
      var heapFull := *;
      if heapFull || pool == {} {
        return 0;
      }
      page :| page in pool;
      pool := pool - {page};
      ram := Cleared(ram, page);
    }

    /** A page goes back to the page manager, which keeps its free list in the pages. */
    method GiveBack(page: nat) returns (link: Word)
      requires Formed(ram) && page < |ram.frames| && page !in pool
      modifies `ram, `pool
      ensures pool == old(pool) + {page} && ram == Written(old(ram), page, 0, link)
    {
      link := *;
      ram := Written(ram, page, 0, link);
      pool := pool + {page};
    }

    /** kernel_address_space_create: all of a new space, or nothing. */
    method Create(id: nat) returns (ok: bool)
      requires Ok() && id !in spaces
      modifies this
      ensures Ok() && Touches(old(Now()), Now(), id)
      ensures !ok ==> spaces == old(spaces) && pool == old(pool)
      ensures ok ==> id in spaces && Mappings(spaces[id].pages) == {}
      ensures ok ==> old(kernelRoot < |ram.frames|) && forall w :: 0 <= w < VIRTUAL_LIMIT ==> View(Now(), id, w) == old(Walk(ram, kernelRoot, w, 2))
    {
      hide Walk, View, Copied, SpaceOk, TablesOk, Target, Permits, Reserved, User, Mappings;
      var root := TakePage();
      var level1 := TakePage();
      if root == 0 || level1 == 0 {
        if root != 0 {
          var _ := GiveBack(root);
        }
        if level1 != 0 {
          var _ := GiveBack(level1);
        }
        StaysSound(old(Now()), Now(), kernel, kernelRoot, id);
        return false;
      }
      SpaceCreated(old(Now()), kernel, kernelRoot, id, root, level1);
      var e := ram.frames[kernelRoot][0];
      assert KernelEntry(e, kernel);
      assert Copied(ram, e) == Copied(old(ram), e) by { SameCopy(old(ram), ram, kernel, e); }
      ram := Refilled(ram, level1, Copied(ram, e));
      ram := Refilled(ram, root, Replaced(ram.frames[kernelRoot], 0, level1 * PAGE + 1));
      assert ram == NewTables(old(ram), kernelRoot, root, level1);
      spaces := spaces[id := NewSpace(root, level1)];
      assert pool == old(pool) - {root, level1};
      return true;
    }

    /** kernel_address_space_destroy: exactly the pages the space had from the page manager go back. */
    method Destroy(id: nat)
      requires Ok() && id in spaces
      modifies this
      ensures Ok() && id !in spaces && Touches(old(Now()), Now(), id)
      ensures pool == old(pool) + old(OwnedBy(Now(), id))
    {
      hide TablesOk, MappingsOk, RecordsOk, Walk, Sound, SpaceOk, Unique, Owned;
      OutOfReach(Now(), kernel, kernelRoot, id);
      SpaceFacts(Now(), kernel, kernelRoot, id);
      assert Unique(spaces[id].pages) by { UniqueRecords(Now(), kernel, kernelRoot, id); }
      var rest := spaces[id].pages;
      spaces := spaces - {id};
      while rest != []
        invariant spaces == old(spaces) - {id} && Formed(ram) && ram.size == old(ram.size)
        invariant Unique(rest) && Owned(rest) !! pool && Owned(rest) <= old(OwnedBy(Now(), id))
        invariant pool + Owned(rest) == old(pool) + old(OwnedBy(Now(), id))
        invariant forall t :: 0 <= t < |ram.frames| && t !in old(pool) && t !in old(OwnedBy(Now(), id)) ==> ram.frames[t] == old(ram.frames[t])
        decreases |rest|
      {
        var r := rest[0];
        FirstRecord(rest);
        rest := rest[1..];
        if !r.kind.External? {
          var _ := GiveBack(r.page);
        }
      }
      assert Owned([]) == {} by { NothingOwned(); }
      StaysSound(old(Now()), Now(), kernel, kernelRoot, id);
    }

    /** address_private_level0: the space's own level-0 table for an index, copied from the kernel's
        on first use. */
    method PrivateLevel0(id: nat, i1: nat) returns (ok: bool, level0: nat, ghost refused: bool)
      requires Ok() && id in spaces && i1 < ENTRIES
      modifies this
      ensures Ok() && id in spaces && Touches(old(Now()), Now(), id) && SameView(old(Now()), Now(), id)
      ensures Mappings(spaces[id].pages) == old(Mappings(spaces[id].pages)) && DataKept(old(Now()), Now(), id)
      ensures pool <= old(pool) && |ram.frames| == old(|ram.frames|)
      ensures ok ==> spaces[id].owned[i1] && level0 == TableFor(ram, spaces[id], i1)
      ensures !ok && !refused ==> old(Large(ram, spaces[id], i1))
    {
      hide SpaceOk, View, Sound, Index, Permits, Target, Mappings, Touches, SameView, DataKept, Copied;
      TouchesSelf(Now(), id);
      ViewSelf(Now(), id);
      var s := spaces[id];
      SpaceFacts(Now(), kernel, kernelRoot, id);
      var e := ram.frames[s.level1][i1];
      DataSelf(Now(), kernel, kernelRoot, id);
      if s.owned[i1] {
        return true, Target(e), false;
      }
      var page := TakePage();
      if page == 0 {
        return false, 0, true;
      }
      s := WithRecord(s, Record(page, 0, Table));
      spaces := spaces[id := s];
      if Valid(e) && Permits(e) {
        AddTable(old(Now()), kernel, kernelRoot, id, page, Empty());
        AddedData(old(Now()), kernel, kernelRoot, id, page, Empty());
        return false, 0, false;
      }
      MakePrivate(old(Now()), kernel, kernelRoot, id, i1, page);
      PrivatisedData(old(Now()), kernel, kernelRoot, id, i1, page);
      assert e == old(ram).frames[s.level1][i1] && (Valid(e) ==> TableFor(old(ram), s, i1) != page);
      CopyThenLink(old(ram), s, i1, page);
      ram := Refilled(ram, page, Copied(ram, e));
      ram := Written(ram, s.level1, i1, page * PAGE + 1);
      spaces := spaces[id := WithTable(s, i1)];
      assert Now() == Privatised(old(Now()), id, i1, page);
      return true, page, false;
    }
  
    /** kernel_address_space_map_anonymous: a cleared page of the space's own at a free address. */
    method MapAnonymous(id: nat, va: nat, flags: Word) returns (ok: bool, page: nat, ghost refused: bool)
      requires Ok() && id in spaces
      modifies this
      ensures Ok() && id in spaces && Touches(old(Now()), Now(), id)
      ensures ok ==> UserPage(va) && RightsOk(flags) && old(View(Now(), id, va)) == Missing
      ensures !ok && !refused ==> !UserPage(va) || !RightsOk(flags) || old(View(Now(), id, va)) != Missing
      ensures !ok ==> SameView(old(Now()), Now(), id) && Mappings(spaces[id].pages) == old(Mappings(spaces[id].pages))
      ensures ok ==> page in old(pool) && page < |ram.frames| && ram.frames[page] == Empty() && (page + 1) * PAGE <= WORD_LIMIT
      ensures ok ==> ViewChanged(old(Now()), Now(), id, va, Page(UserWord(page, flags), 0))
      ensures ok ==> Mappings(spaces[id].pages) == old(Mappings(spaces[id].pages)) + {Record(page, va, Anonymous)}
      ensures DataKept(old(Now()), Now(), id)
    {
      hide TablesOk, MappingsOk, RecordsOk, View, Sound, Index, Permits, Target, Mappings, Touches, UserLeaf, Readable, Writable, Executable, DataKept;
      TouchesSelf(Now(), id);
      DataSelf(Now(), kernel, kernelRoot, id);
      if !UserPage(va) || !RightsOk(flags) {
        return false, 0, false;
      }
      var i1, i0 := Index(va, 1), Index(va, 0);
      OwnedView(Now(), kernel, kernelRoot, id, va);
      var level0;
      ok, level0, refused := PrivateLevel0(id, i1);
      if !ok {
        return false, 0, refused;
      }
      SpaceFacts(Now(), kernel, kernelRoot, id);
      OwnedView(Now(), kernel, kernelRoot, id, va);
      if Valid(ram.frames[level0][i0]) {
        return false, 0, false;
      }
      label Private:
      ghost var m := Now();
      page := TakePage();
      if page == 0 {
        return false, 0, true;
      }
      ghost var r := Record(page, va, Anonymous);
      UserWordIsLeaf(m.ram, page, flags);
      AddMapping(m, kernel, kernelRoot, id, Record(page, va, Anonymous), UserWord(page, flags));
      ExtendedData(m, kernel, kernelRoot, id, Record(page, va, Anonymous), UserWord(page, flags));
      spaces := spaces[id := WithRecord(spaces[id], Record(page, va, Anonymous))];
      ram := Written(ram, level0, i0, UserWord(page, flags));
      assert Now() == Extended(m, id, r, UserWord(page, flags));
      TouchesCompose(old(Now()), m, Now(), id);
      DataCompose(old(Now()), m, Now(), id);
    }

    /** One page of kernel_address_space_map_physical. */
    method MapExternal(id: nat, va: nat, page: nat, flags: Word) returns (ok: bool, ghost refused: bool)
      requires Ok() && id in spaces && UserPage(va) && RightsOk(flags) && page < |ram.frames| && (page + 1) * PAGE <= WORD_LIMIT
      modifies this
      ensures Ok() && id in spaces && Touches(old(Now()), Now(), id) && |ram.frames| == old(|ram.frames|)
      ensures ok ==> forall w :: va <= w < va + PAGE ==> old(View(Now(), id, w)) == Missing
      ensures !ok && !refused ==> old(View(Now(), id, va)) != Missing
      ensures !ok ==> SameView(old(Now()), Now(), id) && Mappings(spaces[id].pages) == old(Mappings(spaces[id].pages))
      ensures ok ==> ViewChanged(old(Now()), Now(), id, va, Page(UserWord(page, flags), 0))
      ensures ok ==> Mappings(spaces[id].pages) == old(Mappings(spaces[id].pages)) + {Record(page, va, External)}
    {
      hide TablesOk, MappingsOk, RecordsOk, View, Sound, Index, Permits, Target, Mappings, Touches, UserLeaf, Readable, Writable, Executable;
      var i1, i0 := Index(va, 1), Index(va, 0);
      OwnedView(Now(), kernel, kernelRoot, id, va);
      var level0;
      ok, level0, refused := PrivateLevel0(id, i1);
      if !ok {
        return;
      }
      SpaceFacts(Now(), kernel, kernelRoot, id);
      OwnedView(Now(), kernel, kernelRoot, id, va);
      if Valid(ram.frames[level0][i0]) {
        return false, false;
      }
      ghost var m := Now();
      var heapFull := *;
      if heapFull {
        return false, true;
      }
      UserWordIsLeaf(ram, page, flags);
      AddMapping(m, kernel, kernelRoot, id, Record(page, va, External), UserWord(page, flags));
      spaces := spaces[id := WithRecord(spaces[id], Record(page, va, External))];
      ram := Written(ram, level0, i0, UserWord(page, flags));
      assert Now() == Extended(m, id, Record(page, va, External), UserWord(page, flags));
      TouchesCompose(old(Now()), m, Now(), id);
      SamePageViews(old(Now()), id, va);
    }

    /** address_find_user_page: the record of the mapping at `va`. */
    method FindUserPage(pages: seq<Record>, va: nat) returns (k: nat)
      ensures k <= |pages|
      ensures k < |pages| ==> !pages[k].kind.Table? && pages[k].virtual == va
      ensures k == |pages| <==> !HasMapping(pages, va)
    {
      k := 0;
      while k < |pages|
        invariant 0 <= k <= |pages|
        invariant forall j :: 0 <= j < k ==> pages[j].kind.Table? || pages[j].virtual != va
      {
        if !pages[k].kind.Table? && pages[k].virtual == va {
          assert pages[k] in pages;
          return;
        }
        k := k + 1;
      }
    }

    /** The mapping at `va` is taken away; a page of the space's own goes back to the pool. */
    method UnmapOne(id: nat, va: nat) returns (ghost r: Record)
      requires Ok() && id in spaces && HasMapping(spaces[id].pages, va)
      modifies this
      ensures Ok() && id in spaces && Touches(old(Now()), Now(), id)
      ensures r in old(Mappings(spaces[id].pages)) && r.virtual == va
      ensures forall q :: q in old(Mappings(spaces[id].pages)) && q.virtual == va ==> q == r
      ensures Mappings(spaces[id].pages) == old(Mappings(spaces[id].pages)) - {r}
      ensures pool == GivenPool(old(pool), r)
      ensures ViewChanged(old(Now()), Now(), id, va, Missing)
    {
      hide TablesOk, MappingsOk, RecordsOk, View, Sound, Index, Permits, Target, Touches, UserLeaf, Readable, Writable, Executable, UserPage;
      var s := spaces[id];
      var k := FindUserPage(s.pages, va);
      r := s.pages[k];
      assert r in s.pages;
      OneRecord(Now(), kernel, kernelRoot, id, k);
      Removable(Now(), kernel, kernelRoot, id, k);
      LookupFinds(Now(), kernel, kernelRoot, id, va);
      var level0 := LookupLevel0(ram, s, va).value;
      ram := Written(ram, level0, Index(va, 0), 0);
      spaces := spaces[id := WithPages(s, Without(s.pages, k))];
      var link: Word := 0;
      if s.pages[k].kind.Anonymous? {
        link := GiveBack(s.pages[k].page);
      }
      RemoveMapping(old(Now()), kernel, kernelRoot, id, k, link);
      assert Now() == Reduced(old(Now()), id, k, link);
    }

    /** Pages are mapped one by one until one cannot be. */
    method MapPages(id: nat, va: nat, page: nat, n: nat, flags: Word) returns (k: nat, ghost refused: bool)
      requires Ok() && id in spaces && RightsOk(flags) && va % PAGE == 0 && USER_BASE <= va && va + n * PAGE <= USER_TOP
      requires page + n <= |ram.frames|
      modifies this
      ensures Ok() && id in spaces && Touches(old(Now()), Now(), id) && k <= n
      ensures RangeView(old(Now()), Now(), id, va, page, 0, k, flags)
      ensures Mappings(spaces[id].pages) == old(Mappings(spaces[id].pages)) + Externals(va, page, 0, k)
      ensures forall w :: va <= w < va + k * PAGE ==> old(View(Now(), id, w)) == Missing
      ensures k < n && !refused ==> old(View(Now(), id, va + k * PAGE)) != Missing
    {
      hide View, Sound, Mappings, Touches, Externals, RangeView, RightsOk, ViewChanged, SameView;
      TouchesSelf(Now(), id);
      SpaceFacts(Now(), kernel, kernelRoot, id);
      RangeEmpty(Now(), Now(), id, va, page, 0, flags);
      k, refused := 0, false;
      assert SameView(Now(), Now(), id) by { ViewSelf(Now(), id); }
      while k < n
        invariant 0 <= k <= n
        invariant Ok() && id in spaces && Touches(old(Now()), Now(), id) && |ram.frames| == old(|ram.frames|)
        invariant RangeView(old(Now()), Now(), id, va, page, 0, k, flags)
        invariant Mappings(spaces[id].pages) == old(Mappings(spaces[id].pages)) + Externals(va, page, 0, k)
        invariant forall w :: va <= w < va + k * PAGE ==> old(View(Now(), id, w)) == Missing
      {
        ghost var m := Now();
        var ok;
        ok, refused := MapExternal(id, va + k * PAGE, page + k, flags);
        TouchesCompose(old(Now()), m, Now(), id);
        RangeOutside(old(Now()), m, id, va, page, k, flags);
        if !ok {
          RangeSame(old(Now()), m, Now(), id, va, page, 0, k, flags);
          return;
        }
        RightsCases(flags);
        RangeGrows(old(Now()), m, Now(), id, va, page, k, flags);
        k := k + 1;
      }
    }

    /** The pages mapped so far are unmapped again. */
    method Rollback(id: nat, va: nat, page: nat, k: nat, flags: Word, ghost m0: State)
      requires Sound(m0, kernel, kernelRoot) && id in m0.spaces && va % PAGE == 0 && USER_BASE <= va && va + k * PAGE <= USER_TOP
      requires Ok() && id in spaces && Touches(m0, Now(), id) && RangeView(m0, Now(), id, va, page, 0, k, flags)
      requires Mappings(spaces[id].pages) == Mappings(m0.spaces[id].pages) + Externals(va, page, 0, k)
      requires forall w :: va <= w < va + k * PAGE ==> View(m0, id, w) == Missing
      modifies this
      ensures Ok() && id in spaces && Touches(m0, Now(), id) && SameView(m0, Now(), id)
      ensures Mappings(spaces[id].pages) == Mappings(m0.spaces[id].pages)
    {
      hide View, Sound, Mappings, Touches, RangeView, Externals, ViewChanged, SameView;
      var j := 0;
      while j < k
        invariant 0 <= j <= k
        invariant Ok() && id in spaces && Touches(m0, Now(), id)
        invariant RangeView(m0, Now(), id, va, page, j, k, flags)
        invariant Mappings(spaces[id].pages) == Mappings(m0.spaces[id].pages) + Externals(va, page, j, k)
      {
        ghost var m, r := Now(), Record(page + j, va + j * PAGE, External);
        FirstExternal(va, page, j, k);
        RecordedHere(spaces[id].pages, r);
        ghost var q := UnmapOne(id, va + j * PAGE);
        TouchesCompose(m0, m, Now(), id);
        RangeShrinks(m0, m, Now(), id, va, page, j, k, flags);
        if r in Mappings(m0.spaces[id].pages) {
          MissingIsUnrecorded(m0, kernel, kernelRoot, id, r);
          assert false;
        }
        j := j + 1;
      }
      RangeEmpty(m0, Now(), id, va, page, k, flags);
    }

    /** kernel_address_space_map_physical: all pages of the range or none. */
    method MapPhysical(id: nat, va: nat, pa: nat, size: nat, flags: Word) returns (ok: bool, ghost refused: bool)
      requires Ok() && id in spaces
      modifies this
      ensures Ok() && id in spaces && Touches(old(Now()), Now(), id)
      ensures ok ==> PhysicalOk(va, pa, size, flags, old(|ram.frames|))
      ensures ok ==> forall w :: va <= w < va + size ==> old(View(Now(), id, w)) == Missing
      ensures !ok && !refused && PhysicalOk(va, pa, size, flags, old(|ram.frames|)) ==>
        exists w :: va <= w < va + size && old(View(Now(), id, w)) != Missing
      ensures ok ==> RangeView(old(Now()), Now(), id, va, pa / PAGE, 0, size / PAGE, flags)
      ensures ok ==> Mappings(spaces[id].pages) == old(Mappings(spaces[id].pages)) + Externals(va, pa / PAGE, 0, size / PAGE)
      ensures !ok ==> SameView(old(Now()), Now(), id) && Mappings(spaces[id].pages) == old(Mappings(spaces[id].pages))
    {
      hide View, Sound, Mappings, Touches, Externals, RangeView, RightsOk, ViewChanged, SameView;
      TouchesSelf(Now(), id);
      ViewSelf(Now(), id);
      if !PhysicalOk(va, pa, size, flags, |ram.frames|) {
        return false, false;
      }
      var page, n := pa / PAGE, size / PAGE;
      var k;
      k, refused := MapPages(id, va, page, n, flags);
      if k == n {
        return true, refused;
      }
      Rollback(id, va, page, k, flags, old(Now()));
      return false, refused;
    }

    /** The first pass of kernel_address_space_unmap_range: every page must be a user mapping with a record. */
    method CheckMapped(id: nat, va: nat, end: nat) returns (ok: bool)
      requires Ok() && id in spaces && va % PAGE == 0 && end % PAGE == 0 && USER_BASE <= va <= end <= USER_TOP
      ensures ok <==> AllMapped(Now(), id, va, end)
    {
      hide TablesOk, MappingsOk, RecordsOk, LookupLevel0, Index, Sound;
      var page := va;
      while page < end
        invariant va <= page <= end && page % PAGE == 0
        invariant AllMapped(Now(), id, va, page)
      {
        UserMappedIsRecorded(Now(), kernel, kernelRoot, id, page);
        var level0 := LookupLevel0(ram, spaces[id], page);
        if level0.None? {
          return false;
        }
        var e := ram.frames[level0.value][Index(page, 0)];
        var k := FindUserPage(spaces[id].pages, page);
        if !Valid(e) || !User(e) || k == |spaces[id].pages| {
          return false;
        }
        page := page + PAGE;
      }
      return true;
    }

    /** kernel_address_space_unmap_range: all pages of the range or none, and the pages of the space's
        own that were mapped there are free again. */
    method UnmapRange(id: nat, va: nat, size: nat) returns (ok: bool)
      requires Ok() && id in spaces
      modifies this
      ensures Ok() && id in spaces && Touches(old(Now()), Now(), id)
      ensures ok <==> RangeOk(va, size) && AllMapped(old(Now()), id, va, va + size)
      ensures !ok ==> Now() == old(Now())
      ensures ok ==> RangeGone(old(Now()), Now(), id, va, va + size)
      ensures ok ==> Mappings(spaces[id].pages) == old(Mappings(spaces[id].pages)) - old(RecordsIn(spaces[id].pages, va, va + size))
      ensures ok ==> pool == old(pool) + PagesOf(old(RecordsIn(spaces[id].pages, va, va + size)))
    {
      hide View, Sound, Mappings, Touches, ViewChanged, PagesOf, RangeGone, HasMapping;
      TouchesSelf(Now(), id);
      if !RangeOk(va, size) {
        return false;
      }
      ok := CheckMapped(id, va, va + size);
      if !ok {
        return;
      }
      ghost var m0, start := Now(), Mappings(spaces[id].pages);
      UserPages(m0, kernel, kernelRoot, id);
      var page, end := va, va + size;
      RangeStarts(m0, id, va, start);
      while page < end
        invariant va <= page <= end && page % PAGE == 0
        invariant Ok() && id in spaces && Touches(m0, Now(), id)
        invariant RangeGone(m0, Now(), id, va, page)
        invariant Mappings(spaces[id].pages) == start - (set q | q in start && va <= q.virtual < page)
        invariant pool == old(pool) + PagesOf(set q | q in start && va <= q.virtual < page)
      {
        ghost var m := Now();
        StillMapped(m0.spaces[id].pages, spaces[id].pages, start, va, page);
        ghost var r := UnmapOne(id, page);
        TouchesCompose(m0, m, Now(), id);
        GoneGrows(m0, m, Now(), id, va, page);
        RecordsAdvance(m.spaces[id].pages, spaces[id].pages, start, va, page, r, m.pool, old(pool));
        page := page + PAGE;
      }
    }
  }

  lemma RangeStarts(m: State, id: nat, va: nat, start: set<Record>)
    ensures RangeGone(m, m, id, va, va)
    ensures start == start - (set q | q in start && va <= q.virtual < va)
    ensures PagesOf(set q | q in start && va <= q.virtual < va) == {}
  {
  }

  lemma UserPages(m: State, kernel: set<nat>, kernelRoot: nat, id: nat)
    requires Sound(m, kernel, kernelRoot) && id in m.spaces
    ensures forall q :: q in Mappings(m.spaces[id].pages) ==> UserPage(q.virtual)
  {
    hide TablesOk, RecordsOk, Index, UserLeaf;
    forall q | q in Mappings(m.spaces[id].pages)
      ensures UserPage(q.virtual)
    {
      assert MappedAt(m.ram, m.spaces[id], q);
    }
  }

  lemma StillMapped(pages0: seq<Record>, pages: seq<Record>, start: set<Record>, va: nat, page: nat)
    requires start == Mappings(pages0) && HasMapping(pages0, page)
    requires Mappings(pages) == start - (set q | q in start && va <= q.virtual < page)
    ensures HasMapping(pages, page)
  {
    var r :| r in pages0 && !r.kind.Table? && r.virtual == page;
    assert r in Mappings(pages);
  }

  predicate RangeOk(va: nat, size: nat) {
    size > 0 && va % PAGE == 0 && size % PAGE == 0 && USER_BASE <= va && va + size <= USER_TOP
  }

  /** What kernel_address_space_map_physical demands of its arguments. */
  predicate PhysicalOk(va: nat, pa: nat, size: nat, flags: Word, pages: nat) {
    && size > 0 && va % PAGE == 0 && pa % PAGE == 0 && size % PAGE == 0
    && USER_BASE <= va && va + size <= USER_TOP && pa + size <= pages * PAGE
    && RightsOk(flags)
  }

  lemma NothingOwned()
    ensures Owned([]) == {}
  {
  }

  lemma FirstRecord(rest: seq<Record>)
    requires rest != [] && Unique(rest)
    ensures Unique(rest[1..])
    ensures Owned(rest) == Owned(rest[1..]) + (if rest[0].kind.External? then {} else {rest[0].page})
    ensures !rest[0].kind.External? ==> rest[0].page !in Owned(rest[1..])
  {
    assert rest == [rest[0]] + rest[1..];
    assert forall r :: r in rest <==> r == rest[0] || r in rest[1..];
  }

  lemma SameCopy(ram: Ram, ram': Ram, kernel: set<nat>, e: Word)
    requires Valid(e) ==> Target(e) in kernel
    requires |ram'.frames| == |ram.frames| && forall t :: t in kernel && t < |ram.frames| ==> ram'.frames[t] == ram.frames[t]
    ensures Copied(ram', e) == Copied(ram, e)
  {
  }

  lemma ViewSelf(m: State, id: nat)
    ensures SameView(m, m, id)
  {
  }

  /** Beyond the mapped part the translations are those of before. */
  lemma RangeOutside(l: State, m: State, id: nat, va: nat, page: nat, k: nat, flags: Word)
    requires RangeView(l, m, id, va, page, 0, k, flags)
    ensures forall w :: va + k * PAGE <= w < VIRTUAL_LIMIT ==> View(m, id, w) == View(l, id, w)
  {
    hide View;
  }

  lemma FirstExternal(va: nat, page: nat, j: nat, k: nat)
    requires j < k
    ensures Record(page + j, va + j * PAGE, External) in Externals(va, page, j, k)
  {
  }

  lemma RecordedHere(pages: seq<Record>, r: Record)
    requires r in Mappings(pages)
    ensures HasMapping(pages, r.virtual)
  {
  }

  lemma OneRecord(m: State, kernel: set<nat>, kernelRoot: nat, id: nat, k: nat)
    requires Sound(m, kernel, kernelRoot) && id in m.spaces && k < |m.spaces[id].pages| && !m.spaces[id].pages[k].kind.Table?
    ensures forall q :: q in Mappings(m.spaces[id].pages) && q.virtual == m.spaces[id].pages[k].virtual ==> q == m.spaces[id].pages[k]
  {
    var pages := m.spaces[id].pages;
    assert SpaceOk(m.ram, m.pool, kernel, m.spaces[id]);
    forall q | q in Mappings(pages) && q.virtual == pages[k].virtual
      ensures q == pages[k]
    {
      if q != pages[k] {
        OtherVirtual(pages, k, q);
      }
    }
  }

  /** Addresses of one page are translated alike. */
  lemma SamePageViews(m: State, id: nat, va: nat)
    requires va % PAGE == 0
    ensures forall w :: va <= w < va + PAGE ==> (View(m, id, w) == Missing <==> View(m, id, va) == Missing)
  {
    forall w | va <= w < va + PAGE
      ensures View(m, id, w) == Missing <==> View(m, id, va) == Missing
    {
      if id in m.spaces && Formed(m.ram) && m.spaces[id].root < |m.ram.frames| {
        SamePageWalk(m.ram, m.spaces[id].root, va, w, 2);
      }
    }
  }

  /** The copy made after the page was cleared is the copy of what was there. */
  lemma CopyThenLink(ram: Ram, s: Space, i1: nat, page: nat)
    requires Formed(ram) && s.level1 < |ram.frames| && page < |ram.frames| && page != s.level1 && i1 < ENTRIES && page * PAGE + 1 < WORD_LIMIT
    requires Valid(ram.frames[s.level1][i1]) ==> TableFor(ram, s, i1) != page
    ensures
      var e := ram.frames[s.level1][i1];
      var ram1 := Cleared(ram, page);
      && s.level1 < |ram1.frames| && ram1.frames[s.level1] == ram.frames[s.level1] && page < |ram1.frames|
      && Formed(Refilled(ram1, page, Copied(ram1, e))) && s.level1 < |Refilled(ram1, page, Copied(ram1, e)).frames|
      && Refilled(ram1, page, Copied(ram1, e)) == Refilled(ram, page, Copied(ram, e))
  {
    hide Target;
  }
}
