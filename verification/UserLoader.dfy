/** Loading a program into a new address space (kernel/user_loader.c). */
module UserLoader {
  import opened PageTables
  import opened AddressSpaces
  import opened AddressOperations
  import opened UserSpaces
  import opened ProgramImage

  // ---------------------------------------------------------------- validation

  /** Whether a segment meets one of those before it. */
  method Meets(segments: seq<Segment>, i: nat) returns (found: bool)
    requires i < |segments|
    ensures found <==> exists k :: 0 <= k < i && Overlap(segments[k], segments[i])
  {
    hide Overlap;
    for j := 0 to i
      invariant forall k :: 0 <= k < j ==> !Overlap(segments[k], segments[i])
    {
      if Overlap(segments[j], segments[i]) {
        return true;
      }
    }
    return false;
  }

  /** The segment table of user_validate_image. */
  method Validate(segments: seq<Segment>, size: nat, tableEnd: nat, entry: nat) returns (ok: bool, low: nat, high: nat)
    ensures ok <==> Accepted(segments, size, tableEnd, entry)
    ensures ok ==> Bounds(segments, |segments|, low, high)
  {
    hide SegmentOk, Overlap, HasEntry, Bounds;
    low, high := ADDRESS_LIMIT - 1, 0;
    if |segments| == 0 || |segments| > MAX_SEGMENTS {
      return false, low, high;
    }
    var found := false;
    NoBounds(segments);
    for i := 0 to |segments|
      invariant GoodUpTo(segments, i, size, tableEnd)
      invariant found <==> EntryIn(segments, i, entry)
      invariant Bounds(segments, i, low, high)
    {
      var s := segments[i];
      if !SegmentOk(s, size, tableEnd) {
        return false, low, high;
      }
      var meets := Meets(segments, i);
      if meets {
        return false, low, high;
      }
      if HasEntry(s, entry) {
        found := true;
      }
      Placement(s, size, tableEnd);
      BoundsGrow(segments, i, low, high);
      if s.virtual < low {
        low := s.virtual;
      }
      if s.virtual + s.memorySize > high {
        high := s.virtual + s.memorySize;
      }
    }
    return found, low, high;
  }

  lemma NoBounds(segments: seq<Segment>)
    ensures Bounds(segments, 0, ADDRESS_LIMIT - 1, 0)
  {
  }

  // ---------------------------------------------------------------- one page

  /** The copy loop of user_load_segment: into a cleared page at `va` go the bytes of the file that belong there. */
  method CopyBytes(image: seq<Byte>, s: Segment, va: nat) returns (f: Frame)
    requires s.virtual <= va && (s.fileSize != 0 ==> s.fileOffset + s.fileSize <= |image|)
    ensures HoldsBytes(f, image, s, va, PAGE)
  {
    hide ByteOf;
    f := Empty();
    var pageEnd, fileEnd := va + PAGE, s.virtual + s.fileSize;
    var copyStart := if va > s.virtual then va else s.virtual;
    var copyEnd := if pageEnd < fileEnd then pageEnd else fileEnd;
    forall k: nat | k < PAGE
      ensures ByteOf(f, k) == 0
    {
      ZeroByte(k);
    }
    if copyEnd > copyStart {
      var source, target, count := s.fileOffset + copyStart - s.virtual, copyStart - va, copyEnd - copyStart;
      for i := 0 to count
        invariant HoldsBytes(f, image, s, va, i)
      {
        ghost var g := f;
        f := WithByte(f, target + i, image[source + i]);
        forall k: nat | k < PAGE
          ensures ByteOf(f, k) == if k == i then image[source + i] else ByteOf(g, k)
        {
          ByteWritten(g, target + i, image[source + i], k);
        }
      }
    }
  }

  /** One page of a segment: a page of the space's own is mapped and filled. */
  method LoadPage(k: Machine, id: nat, image: seq<Byte>, s: Segment, va: nat) returns (ok: bool, ghost refused: bool)
    requires k.Ok() && id in k.spaces && RightsOk(PageFlags(s)) && UserPage(va) && s.virtual <= va
    requires s.fileSize != 0 ==> s.fileOffset + s.fileSize <= |image|
    modifies k
    ensures k.Ok() && id in k.spaces && Touches(old(k.Now()), k.Now(), id)
    ensures ok ==> Keeps(old(k.Now()), k.Now(), id) && PageLoaded(k.Now(), id, image, s, va)
    ensures ok ==> OnlyIn(old(k.Now()), k.Now(), id, va, va + PAGE)
    ensures !ok && !refused ==> old(View(k.Now(), id, va)) != Missing
  {
    hide Sound, View, Mappings, Touches, Keeps, MappedHere, HoldsBytes, RightsOk, PageFlags, DataKept, UserWord;
    ghost var l := k.Now();
    var page;
    ok, page, refused := k.MapAnonymous(id, va, PageFlags(s));
    if !ok {
      return;
    }
    ghost var m := k.Now();
    SpaceFacts(m, k.kernel, k.kernelRoot, id);
    MappingKeeps(l, m, id, va, page, PageFlags(s));
    var f := CopyBytes(image, s, va);
    BytesFill(f, image, s, va);
    FillKeeps(l, m, k.kernel, k.kernelRoot, id, va, PageFlags(s), page, f);
    k.ram := Refilled(k.ram, page, f);
    assert k.Now() == State(Refilled(m.ram, page, f), m.pool, m.spaces);
    assert LoadedAs(k.Now(), id, image, s, va, page);
    TouchesCompose(l, m, k.Now(), id);
  }

  lemma BytesFill(f: Frame, image: seq<Byte>, s: Segment, va: nat)
    requires HoldsBytes(f, image, s, va, PAGE)
    ensures |f| == ENTRIES
  {
  }

  // ---------------------------------------------------------------- segments

  /** user_load_segment: every page of the segment is mapped with its rights and holds its bytes. */
  method LoadSegment(k: Machine, id: nat, image: seq<Byte>, s: Segment, ghost tableEnd: nat) returns (ok: bool, ghost refused: bool)
    requires k.Ok() && id in k.spaces && SegmentOk(s, |image|, tableEnd)
    modifies k
    ensures k.Ok() && id in k.spaces && Touches(old(k.Now()), k.Now(), id)
    ensures ok ==> Keeps(old(k.Now()), k.Now(), id) && PagesLoaded(k.Now(), id, image, s, MappedEnd(s))
    ensures ok ==> OnlyIn(old(k.Now()), k.Now(), id, s.virtual, MappedEnd(s))
    ensures !ok && !refused ==> Taken(old(k.Now()), id, s.virtual, MappedEnd(s))
  {
    hide Sound, View, Mappings, Touches, Keeps, PageLoaded, RightsOk, PageFlags, SegmentOk, MappedEnd;
    ghost var m0 := k.Now();
    Placement(s, |image|, tableEnd);
    TouchesSelf(m0, id);
    KeepsSelf(m0, k.kernel, k.kernelRoot, id);
    var page := s.virtual;
    while page < MappedEnd(s)
      invariant s.virtual <= page <= MappedEnd(s) && page % PAGE == 0
      invariant k.Ok() && id in k.spaces && Touches(m0, k.Now(), id) && Keeps(m0, k.Now(), id)
      invariant PagesLoaded(k.Now(), id, image, s, page)
      invariant OnlyIn(m0, k.Now(), id, s.virtual, page)
    {
      ghost var m := k.Now();
      ok, refused := LoadPage(k, id, image, s, page);
      TouchesCompose(m0, m, k.Now(), id);
      if !ok {
        return;
      }
      KeepsCompose(m0, m, k.Now(), id);
      KeepsLoaded(m, k.Now(), id, image, s, page);
      NextPage(page, MappedEnd(s));
      OnePageMore(k.Now(), id, image, s, page);
      page := page + PAGE;
    }
    return true, false;
  }

  /** Some page of the range is already in use. */
  ghost predicate Taken(m: State, id: nat, lo: nat, hi: nat) {
    exists va :: lo <= va < hi && va < VIRTUAL_LIMIT && View(m, id, va) != Missing
  }

  lemma NextPage(page: nat, end: nat)
    requires page % 0x1000 == 0 && end % 0x1000 == 0 && page < end
    ensures page + 0x1000 <= end && (page + 0x1000) % 0x1000 == 0
  {
  }

  lemma OnePageMore(m: State, id: nat, image: seq<Byte>, s: Segment, page: nat)
    requires PagesLoaded(m, id, image, s, page) && PageLoaded(m, id, image, s, page) && page % PAGE == 0
    ensures PagesLoaded(m, id, image, s, page + PAGE)
  {
    hide PageLoaded;
    forall va | s.virtual <= va < page + PAGE && va % PAGE == 0
      ensures PageLoaded(m, id, image, s, va)
    {
      LastPage(va, page);
    }
  }

  lemma LastPage(va: nat, page: nat)
    requires va % 0x1000 == 0 && page % 0x1000 == 0 && va < page + 0x1000
    ensures va <= page
  {
  }

  lemma KeepsSelf(m: State, kernel: set<nat>, kernelRoot: nat, id: nat)
    requires Sound(m, kernel, kernelRoot) && id in m.spaces
    ensures Keeps(m, m, id)
  {
    hide View, Mappings, SpaceOk;
    SpaceFacts(m, kernel, kernelRoot, id);
    DataSelf(m, kernel, kernelRoot, id);
  }

  // ---------------------------------------------------------------- the program

  /** The first `n` segments are in place. */
  ghost predicate SegmentsLoaded(m: State, id: nat, image: seq<Byte>, segments: seq<Segment>, n: nat)
    requires n <= |segments|
  {
    forall i :: 0 <= i < n ==> PagesLoaded(m, id, image, segments[i], MappedEnd(segments[i]))
  }

  /** `w` is in a page of one of the first `n` segments. */
  ghost predicate InProgram(segments: seq<Segment>, n: nat, w: nat)
    requires n <= |segments|
  {
    exists i :: 0 <= i < n && segments[i].virtual <= w < MappedEnd(segments[i])
  }

  ghost predicate OnlyProgram(m: State, n: State, id: nat, segments: seq<Segment>, k: nat)
    requires k <= |segments|
  {
    forall w :: 0 <= w < VIRTUAL_LIMIT && !InProgram(segments, k, w) ==> View(n, id, w) == View(m, id, w)
  }

  /** Some page the program needs is already in use. */
  ghost predicate InTheWay(m: State, id: nat, segments: seq<Segment>) {
    Taken(m, id, STACK_BOTTOM, STACK_TOP) || exists i :: 0 <= i < |segments| && Taken(m, id, segments[i].virtual, MappedEnd(segments[i]))
  }

  /** A segment whose place is taken now had it taken from the start, for the segments before it are elsewhere. */
  lemma TakenFromStart(m: State, n: State, id: nat, segments: seq<Segment>, size: nat, tableEnd: nat, k: nat)
    requires k < |segments| && GoodUpTo(segments, |segments|, size, tableEnd) && OnlyProgram(m, n, id, segments, k)
    requires Taken(n, id, segments[k].virtual, MappedEnd(segments[k]))
    ensures InTheWay(m, id, segments)
  {
    hide View, SegmentOk, MappedEnd, Overlap;
    var va :| segments[k].virtual <= va < MappedEnd(segments[k]) && va < VIRTUAL_LIMIT && View(n, id, va) != Missing;
    forall i | 0 <= i < k
      ensures !(segments[i].virtual <= va < MappedEnd(segments[i]))
    {
      NoCollision(segments, size, tableEnd, i, k);
    }
    assert !InProgram(segments, k, va);
    assert Taken(m, id, segments[k].virtual, MappedEnd(segments[k]));
  }

  lemma ProgramGrows(l: State, m: State, n: State, id: nat, segments: seq<Segment>, k: nat)
    requires k < |segments| && OnlyProgram(l, m, id, segments, k) && OnlyIn(m, n, id, segments[k].virtual, MappedEnd(segments[k]))
    ensures OnlyProgram(l, n, id, segments, k + 1)
  {
    hide View, MappedEnd;
    forall w | 0 <= w < VIRTUAL_LIMIT && !InProgram(segments, k + 1, w)
      ensures View(n, id, w) == View(l, id, w)
    {
      assert !InProgram(segments, k, w);
    }
  }

  lemma SegmentsKept(m: State, n: State, id: nat, image: seq<Byte>, segments: seq<Segment>, size: nat, tableEnd: nat, k: nat)
    requires k <= |segments| && GoodUpTo(segments, |segments|, size, tableEnd) && SegmentsLoaded(m, id, image, segments, k) && Keeps(m, n, id)
    ensures SegmentsLoaded(n, id, image, segments, k)
  {
    hide Keeps, PagesLoaded, SegmentOk, MappedEnd;
    forall i | 0 <= i < k
      ensures PagesLoaded(n, id, image, segments[i], MappedEnd(segments[i]))
    {
      Placement(segments[i], size, tableEnd);
      KeepsLoaded(m, n, id, image, segments[i], MappedEnd(segments[i]));
    }
  }

  /** The segment loop of kernel_user_image_load. */
  method LoadSegments(k: Machine, id: nat, image: seq<Byte>, segments: seq<Segment>, ghost tableEnd: nat) returns (ok: bool, ghost refused: bool)
    requires k.Ok() && id in k.spaces && GoodUpTo(segments, |segments|, |image|, tableEnd)
    modifies k
    ensures k.Ok() && id in k.spaces && Touches(old(k.Now()), k.Now(), id)
    ensures ok ==> SegmentsLoaded(k.Now(), id, image, segments, |segments|)
    ensures ok ==> OnlyProgram(old(k.Now()), k.Now(), id, segments, |segments|)
    ensures !ok && !refused ==> InTheWay(old(k.Now()), id, segments)
  {
    hide Sound, View, Touches, Keeps, PagesLoaded, SegmentOk, MappedEnd, Taken, InTheWay, Apart;
    ghost var m0 := k.Now();
    TouchesSelf(m0, id);
    ok, refused := true, false;
    for i := 0 to |segments|
      invariant ok && k.Ok() && id in k.spaces && Touches(m0, k.Now(), id)
      invariant SegmentsLoaded(k.Now(), id, image, segments, i)
      invariant OnlyProgram(m0, k.Now(), id, segments, i)
    {
      ghost var m := k.Now();
      ok, refused := LoadSegment(k, id, image, segments[i], tableEnd);
      TouchesCompose(m0, m, k.Now(), id);
      if !ok {
        if !refused {
          TakenFromStart(m0, m, id, segments, |image|, tableEnd, i);
        }
        return;
      }
      SegmentsKept(m, k.Now(), id, image, segments, |image|, tableEnd, i);
      ProgramGrows(m0, m, k.Now(), id, segments, i);
    }
  }

  /** The stack loop of kernel_user_image_load. */
  method MapStack(k: Machine, id: nat) returns (ok: bool, ghost refused: bool)
    requires k.Ok() && id in k.spaces
    modifies k
    ensures k.Ok() && id in k.spaces && Touches(old(k.Now()), k.Now(), id)
    ensures ok ==> Keeps(old(k.Now()), k.Now(), id) && StackPages(k.Now(), id, STACK_TOP)
    ensures ok ==> OnlyIn(old(k.Now()), k.Now(), id, STACK_BOTTOM, STACK_TOP)
    ensures !ok && !refused ==> Taken(old(k.Now()), id, STACK_BOTTOM, STACK_TOP)
  {
    hide Sound, View, Mappings, Touches, Keeps, MappedHere, DataKept, StackPage, UserWord;
    ghost var m0 := k.Now();
    TouchesSelf(m0, id);
    KeepsSelf(m0, k.kernel, k.kernelRoot, id);
    var page := STACK_BOTTOM;
    while page < STACK_TOP
      invariant STACK_BOTTOM <= page <= STACK_TOP && page % PAGE == 0
      invariant k.Ok() && id in k.spaces && Touches(m0, k.Now(), id) && Keeps(m0, k.Now(), id)
      invariant StackPages(k.Now(), id, page)
      invariant OnlyIn(m0, k.Now(), id, STACK_BOTTOM, page)
    {
      ghost var m := k.Now();
      var frame;
      ok, frame, refused := k.MapAnonymous(id, page, 6);
      TouchesCompose(m0, m, k.Now(), id);
      if !ok {
        return;
      }
      SpaceFacts(k.Now(), k.kernel, k.kernelRoot, id);
      MappingKeeps(m, k.Now(), id, page, frame, 6);
      KeepsCompose(m0, m, k.Now(), id);
      KeepsStack(m, k.Now(), id, page);
      assert ClearedAs(k.Now(), id, page, frame);
      OneStackPageMore(k.Now(), id, page);
      page := page + PAGE;
    }
    return true, false;
  }

  lemma OneStackPageMore(m: State, id: nat, page: nat)
    requires StackPages(m, id, page) && (exists frame: nat :: ClearedAs(m, id, page, frame)) && page % PAGE == 0
    ensures StackPages(m, id, page + PAGE)
  {
    hide ClearedAs;
    forall va | STACK_BOTTOM <= va < page + PAGE && va % PAGE == 0
      ensures StackPage(m, id, va)
    {
      LastPage(va, page);
    }
  }

  // ---------------------------------------------------------------- what the program sees

  /** User mode finds every byte of every segment: from the file, or zero past its end, with exactly the
      rights of the segment. */
  ghost predicate ProgramSeen(m: State, id: nat, image: seq<Byte>, segments: seq<Segment>) {
    forall i, v :: 0 <= i < |segments| && segments[i].virtual <= v < MappedEnd(segments[i]) ==>
      UserSees(m, id, v, PageFlags(segments[i]), SegmentByte(image, segments[i], v))
  }

  /** The whole stack reads as zero and may be written, not executed. */
  ghost predicate StackSeen(m: State, id: nat) {
    forall v :: STACK_BOTTOM <= v < STACK_TOP ==> UserSees(m, id, v, 6, 0)
  }

  lemma SegmentSeen(m: State, kernel: set<nat>, kernelRoot: nat, id: nat, image: seq<Byte>, s: Segment, tableEnd: nat, v: nat)
    requires Sound(m, kernel, kernelRoot) && SegmentOk(s, |image|, tableEnd)
    requires PagesLoaded(m, id, image, s, MappedEnd(s)) && s.virtual <= v < MappedEnd(s)
    ensures UserSees(m, id, v, PageFlags(s), SegmentByte(image, s, v))
  {
    hide Sound, View, Mappings, SegmentOk, RightsOk, PageFlags, MappedEnd, SegmentByte, UserSees, ByteOf;
    Placement(s, |image|, tableEnd);
    var va := v - v % PAGE;
    PageStart(s.virtual, v);
    assert PageLoaded(m, id, image, s, va);
    var page: nat :| LoadedAs(m, id, image, s, va, page);
    SeenThrough(m, kernel, kernelRoot, id, va, PageFlags(s), page, v);
    assert ByteOf(m.ram.frames[page], v - va) == SegmentByte(image, s, va + (v - va));
  }

  lemma PageStart(lo: nat, v: nat)
    requires lo % 0x1000 == 0 && lo <= v
    ensures lo <= v - v % 0x1000 <= v < v - v % 0x1000 + 0x1000 && (v - v % 0x1000) % 0x1000 == 0
  {
  }

  lemma StackByte(m: State, kernel: set<nat>, kernelRoot: nat, id: nat, v: nat)
    requires Sound(m, kernel, kernelRoot) && StackPages(m, id, STACK_TOP) && STACK_BOTTOM <= v < STACK_TOP
    ensures UserSees(m, id, v, 6, 0)
  {
    hide Sound, MappedHere, UserSees, Empty, StackPages, ByteOf;
    PageStart(STACK_BOTTOM, v);
    var va := v - v % PAGE;
    var page := StackPageAt(m, id, va);
    SeenThrough(m, kernel, kernelRoot, id, va, 6, page, v);
    ZeroByte(v - va);
  }

  lemma StackPageAt(m: State, id: nat, va: nat) returns (page: nat)
    requires StackPages(m, id, STACK_TOP) && STACK_BOTTOM <= va < STACK_TOP && va % PAGE == 0
    ensures ClearedAs(m, id, va, page)
  {
    hide ClearedAs;
    assert StackPage(m, id, va);
    page :| ClearedAs(m, id, va, page);
  }

  lemma AllSeen(m: State, kernel: set<nat>, kernelRoot: nat, id: nat, image: seq<Byte>, segments: seq<Segment>, tableEnd: nat)
    requires Sound(m, kernel, kernelRoot) && GoodUpTo(segments, |segments|, |image|, tableEnd)
    requires SegmentsLoaded(m, id, image, segments, |segments|) && StackPages(m, id, STACK_TOP)
    ensures ProgramSeen(m, id, image, segments) && StackSeen(m, id)
  {
    hide Sound, SegmentOk, PagesLoaded, StackPages, MappedEnd, UserSees, PageFlags, SegmentByte, Apart;
    forall i, v | 0 <= i < |segments| && segments[i].virtual <= v < MappedEnd(segments[i])
      ensures UserSees(m, id, v, PageFlags(segments[i]), SegmentByte(image, segments[i], v))
    {
      SegmentSeen(m, kernel, kernelRoot, id, image, segments[i], tableEnd, v);
    }
    forall v | STACK_BOTTOM <= v < STACK_TOP
      ensures UserSees(m, id, v, 6, 0)
    {
      StackByte(m, kernel, kernelRoot, id, v);
    }
  }

  // ---------------------------------------------------------------- the loader

  datatype Loaded = Failed | Program(entry: nat, stackPointer: nat, base: nat, end: nat)

  /** What a load does to the spaces: the program in space `id`, or nothing. */
  ghost predicate LoadDone(m: State, n: State, kernelRoot: nat, id: nat, image: seq<Byte>, segments: seq<Segment>) {
    && ProgramSeen(n, id, image, segments) && StackSeen(n, id)
    && Formed(m.ram) && kernelRoot < |m.ram.frames|
    && forall w :: 0 <= w < VIRTUAL_LIMIT && !InProgram(segments, |segments|, w) && !(STACK_BOTTOM <= w < STACK_TOP) ==>
         View(n, id, w) == Walk(m.ram, kernelRoot, w, 2)
  }

  /** The kernel itself maps something where the program or its stack would go. */
  ghost predicate KernelInTheWay(m: State, kernelRoot: nat, segments: seq<Segment>) {
    Formed(m.ram) && kernelRoot < |m.ram.frames| && exists w ::
      && 0 <= w < VIRTUAL_LIMIT && (InProgram(segments, |segments|, w) || STACK_BOTTOM <= w < STACK_TOP)
      && Walk(m.ram, kernelRoot, w, 2) != Missing
  }

  /** What is in the way in a new space is the kernel's. */
  lemma WayOfKernel(m: State, n: State, kernelRoot: nat, id: nat, segments: seq<Segment>)
    requires Formed(m.ram) && kernelRoot < |m.ram.frames| && InTheWay(n, id, segments)
    requires forall w :: 0 <= w < VIRTUAL_LIMIT ==> View(n, id, w) == Walk(m.ram, kernelRoot, w, 2)
    ensures KernelInTheWay(m, kernelRoot, segments)
  {
    hide View, Walk, MappedEnd;
    if Taken(n, id, STACK_BOTTOM, STACK_TOP) {
      var va :| STACK_BOTTOM <= va < STACK_TOP && va < VIRTUAL_LIMIT && View(n, id, va) != Missing;
      assert Walk(m.ram, kernelRoot, va, 2) != Missing;
    } else {
      var i :| 0 <= i < |segments| && Taken(n, id, segments[i].virtual, MappedEnd(segments[i]));
      var va :| segments[i].virtual <= va < MappedEnd(segments[i]) && va < VIRTUAL_LIMIT && View(n, id, va) != Missing;
      assert InProgram(segments, |segments|, va) && Walk(m.ram, kernelRoot, va, 2) != Missing;
    }
  }

  /** Segments and stack go into a space. */
  method Fill(k: Machine, id: nat, image: seq<Byte>, segments: seq<Segment>, ghost tableEnd: nat) returns (ok: bool, ghost refused: bool)
    requires k.Ok() && id in k.spaces && GoodUpTo(segments, |segments|, |image|, tableEnd)
    modifies k
    ensures k.Ok() && id in k.spaces && Touches(old(k.Now()), k.Now(), id)
    ensures ok ==> ProgramSeen(k.Now(), id, image, segments) && StackSeen(k.Now(), id)
    ensures ok ==> forall w :: 0 <= w < VIRTUAL_LIMIT && !InProgram(segments, |segments|, w) && !(STACK_BOTTOM <= w < STACK_TOP) ==>
      View(k.Now(), id, w) == old(View(k.Now(), id, w))
    ensures !ok && !refused ==> InTheWay(old(k.Now()), id, segments)
  {
    hide Sound, View, Touches, Keeps, SegmentsLoaded, GoodUpTo, StackPages, ProgramSeen, StackSeen, InProgram;
    ghost var m0 := k.Now();
    ok, refused := LoadSegments(k, id, image, segments, tableEnd);
    if !ok {
      return;
    }
    ghost var m := k.Now();
    ok, refused := MapStack(k, id);
    TouchesCompose(m0, m, k.Now(), id);
    if !ok {
      if !refused {
        StackFree(m0, m, id, segments, |image|, tableEnd);
      }
      return;
    }
    SegmentsKept(m, k.Now(), id, image, segments, |image|, tableEnd, |segments|);
    AllSeen(k.Now(), k.kernel, k.kernelRoot, id, image, segments, tableEnd);
  }

  /** No segment lies in the stack. */
  lemma StackFree(m: State, n: State, id: nat, segments: seq<Segment>, size: nat, tableEnd: nat)
    requires GoodUpTo(segments, |segments|, size, tableEnd) && OnlyProgram(m, n, id, segments, |segments|)
    requires Taken(n, id, STACK_BOTTOM, STACK_TOP)
    ensures InTheWay(m, id, segments)
  {
    hide View, SegmentOk, MappedEnd, Overlap;
    var va :| STACK_BOTTOM <= va < STACK_TOP && va < VIRTUAL_LIMIT && View(n, id, va) != Missing;
    forall i | 0 <= i < |segments|
      ensures !(segments[i].virtual <= va < MappedEnd(segments[i]))
    {
      Placement(segments[i], size, tableEnd);
    }
    assert !InProgram(segments, |segments|, va);
  }

  /** kernel_user_image_load: the whole program in a new space, or no space and no page less than before. */
  method LoadImage(k: Machine, id: nat, image: seq<Byte>, segments: seq<Segment>, tableEnd: nat, entry: nat)
    returns (r: Loaded, ghost refused: bool)
    requires k.Ok() && id !in k.spaces
    modifies k
    ensures k.Ok() && Touches(old(k.Now()), k.Now(), id)
    ensures r.Failed? ==> k.spaces == old(k.spaces) && k.pool == old(k.pool)
    ensures r.Failed? && !refused ==> !Accepted(segments, |image|, tableEnd, entry) || KernelInTheWay(old(k.Now()), k.kernelRoot, segments)
    ensures r.Program? ==> Accepted(segments, |image|, tableEnd, entry) && id in k.spaces
    ensures r.Program? ==> LoadDone(old(k.Now()), k.Now(), k.kernelRoot, id, image, segments)
    ensures r.Program? ==> r.entry == entry && r.stackPointer == STACK_TOP && Bounds(segments, |segments|, r.base, r.end)
  {
    hide Sound, View, Walk, ProgramSeen, StackSeen, InProgram, InTheWay, KernelInTheWay, GoodUpTo, EntryIn, Bounds;
    ghost var m0 := k.Now();
    TouchesSelf(m0, id);
    var ok, low, high := Validate(segments, |image|, tableEnd, entry);
    if !ok {
      return Failed, false;
    }
    ok := k.Create(id);
    if !ok {
      return Failed, true;
    }
    ghost var m := k.Now();
    SizeFormed(m0, k.kernel, k.kernelRoot);
    ok, refused := Fill(k, id, image, segments, tableEnd);
    ghost var n := k.Now();
    TouchesCompose(m0, m, n, id);
    if !ok {
      if !refused {
        WayOfKernel(m0, m, k.kernelRoot, id, segments);
      }
      k.Destroy(id);
      TouchesCompose(m0, n, k.Now(), id);
      AllBack(m0, k.Now(), id);
      return Failed, refused;
    }
    return Program(entry, STACK_TOP, low, high), false;
  }

  lemma SizeFormed(m: State, kernel: set<nat>, kernelRoot: nat)
    requires Sound(m, kernel, kernelRoot)
    ensures Formed(m.ram) && kernelRoot < |m.ram.frames|
  {
  }

  /** Without the space, the others are as before and so are the free pages. */
  lemma AllBack(m: State, n: State, id: nat)
    requires Touches(m, n, id) && id !in m.spaces && id !in n.spaces
    ensures n.spaces == m.spaces && n.pool == m.pool
  {
  }
}
