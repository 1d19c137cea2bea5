/** What a program file asks for (kernel/user_loader.c), from the decoded segment table on, and what it means
    for its bytes to be in an address space. */
module ProgramImage {
  import opened PageTables
  import opened AddressSpaces
  import opened AddressOperations
  import Cpu = CpuMemory

  const IMAGE_LIMIT: nat := 0x3E00_0000
  const STACK_BOTTOM: nat := 0x3EFF_0000
  const STACK_TOP: nat := 0x3F00_0000
  const MAX_SEGMENTS: nat := 64
  const ADDRESS_LIMIT: nat := 0x1_0000_0000_0000_0000

  type Byte = Cpu.Byte

  /** An entry of the segment table. */
  datatype Segment = Segment(loadable: bool, flags: nat, fileOffset: nat, loadAddress: nat, virtual: nat, fileSize: nat,
                             memorySize: nat, alignment: nat, reserved: nat)

  predicate MayRead(s: Segment) {
    s.flags % 2 == 1
  }

  predicate MayWrite(s: Segment) {
    s.flags / 2 % 2 == 1
  }

  predicate MayExecute(s: Segment) {
    s.flags / 4 % 2 == 1
  }

  // ---------------------------------------------------------------- acceptance

  /** A power of two below 2^64. */
  predicate PowerOfTwo(n: nat) {
    n > 0 && ADDRESS_LIMIT % n == 0 && n < ADDRESS_LIMIT
  }

  /** What is asked of a segment by itself. */
  predicate SegmentOk(s: Segment, size: nat, tableEnd: nat) {
    && s.loadable && s.flags < 8 && MayRead(s) && !(MayWrite(s) && MayExecute(s))
    && s.memorySize > 0 && s.fileSize <= s.memorySize && PowerOfTwo(s.alignment) && s.loadAddress == s.virtual
    && s.virtual % PAGE == 0 && s.virtual % s.alignment == 0 && USER_BASE <= s.virtual && s.virtual + s.memorySize <= IMAGE_LIMIT
    && s.reserved == 0
    && (s.fileSize != 0 ==> tableEnd <= s.fileOffset && s.fileOffset + s.fileSize <= size)
  }

  predicate Overlap(s: Segment, t: Segment) {
    s.virtual < t.virtual + t.memorySize && t.virtual < s.virtual + s.memorySize
  }

  predicate HasEntry(s: Segment, entry: nat) {
    MayExecute(s) && s.virtual <= entry < s.virtual + s.memorySize
  }

  ghost predicate Apart(segments: seq<Segment>, n: nat)
    requires n <= |segments|
  {
    forall i, j :: 0 <= i < j < n ==> !Overlap(segments[i], segments[j])
  }

  /** The first `n` segments are good and do not overlap. */
  ghost predicate GoodUpTo(segments: seq<Segment>, n: nat, size: nat, tableEnd: nat)
    requires n <= |segments|
  {
    (forall i :: 0 <= i < n ==> SegmentOk(segments[i], size, tableEnd)) && Apart(segments, n)
  }

  ghost predicate EntryIn(segments: seq<Segment>, n: nat, entry: nat)
    requires n <= |segments|
  {
    exists i :: 0 <= i < n && HasEntry(segments[i], entry)
  }

  /** A program that may be loaded: good segments that do not overlap, one of them with the entry in it. */
  ghost predicate Accepted(segments: seq<Segment>, size: nat, tableEnd: nat, entry: nat) {
    0 < |segments| <= MAX_SEGMENTS && GoodUpTo(segments, |segments|, size, tableEnd) && EntryIn(segments, |segments|, entry)
  }

  /** `low` and `high` are the least address and the least end of the first `n` segments. */
  ghost predicate Bounds(segments: seq<Segment>, n: nat, low: nat, high: nat)
    requires n <= |segments|
  {
    && (forall k :: 0 <= k < n ==> low <= segments[k].virtual && segments[k].virtual + segments[k].memorySize <= high)
    && (if n == 0 then low == ADDRESS_LIMIT - 1 && high == 0
        else (exists k :: 0 <= k < n && segments[k].virtual == low)
             && exists k :: 0 <= k < n && segments[k].virtual + segments[k].memorySize == high)
  }

  lemma BoundsGrow(segments: seq<Segment>, n: nat, low: nat, high: nat)
    requires n < |segments| && Bounds(segments, n, low, high) && segments[n].virtual < ADDRESS_LIMIT
    ensures
      var s := segments[n];
      Bounds(segments, n + 1, if s.virtual < low then s.virtual else low,
             if s.virtual + s.memorySize > high then s.virtual + s.memorySize else high)
  {
    var s := segments[n];
    assert segments[n].virtual == s.virtual && segments[n].virtual + segments[n].memorySize == s.virtual + s.memorySize;
    if n > 0 {
      var i :| 0 <= i < n && segments[i].virtual == low;
      var j :| 0 <= j < n && segments[j].virtual + segments[j].memorySize == high;
    }
  }

  /** The end of the pages that a segment takes. */
  function MappedEnd(s: Segment): (e: nat)
    ensures e % PAGE == 0 && s.virtual + s.memorySize <= e < s.virtual + s.memorySize + PAGE
  {
    (s.virtual + s.memorySize + (PAGE - 1)) / PAGE * PAGE
  }

  lemma PageRounds(e: nat, a: nat)
    requires e % 0x1000 == 0 && a % 0x1000 == 0 && e < a + 0x1000
    ensures e <= a
  {
  }

  lemma EndsBefore(s: Segment, a: nat)
    requires a % PAGE == 0 && s.virtual + s.memorySize <= a
    ensures MappedEnd(s) <= a
  {
    hide MappedEnd;
    PageRounds(MappedEnd(s), a);
  }

  lemma FlagsOk(s: Segment)
    requires !(MayWrite(s) && MayExecute(s))
    ensures RightsOk(PageFlags(s))
  {
  }

  /** Where a good segment lies. */
  lemma Placement(s: Segment, size: nat, tableEnd: nat)
    requires SegmentOk(s, size, tableEnd)
    ensures s.virtual % PAGE == 0 && USER_BASE <= s.virtual && MappedEnd(s) <= IMAGE_LIMIT <= STACK_BOTTOM
    ensures RightsOk(PageFlags(s)) && s.virtual < MappedEnd(s)
    ensures s.fileSize != 0 ==> s.fileOffset + s.fileSize <= size
  {
    hide PowerOfTwo, MappedEnd, PageFlags, RightsOk;
    EndsBefore(s, IMAGE_LIMIT);
    FlagsOk(s);
  }

  /** Rounded to whole pages, segments that were accepted still do not meet. */
  lemma NoCollision(segments: seq<Segment>, size: nat, tableEnd: nat, i: nat, j: nat)
    requires GoodUpTo(segments, |segments|, size, tableEnd) && i < j < |segments|
    ensures MappedEnd(segments[i]) <= segments[j].virtual || MappedEnd(segments[j]) <= segments[i].virtual
  {
    hide SegmentOk, MappedEnd;
    var s, t := segments[i], segments[j];
    assert !Overlap(s, t);
    assert SegmentOk(s, size, tableEnd) && SegmentOk(t, size, tableEnd);
    Placement(s, size, tableEnd);
    Placement(t, size, tableEnd);
    if s.virtual + s.memorySize <= t.virtual {
      EndsBefore(s, t.virtual);
    } else {
      EndsBefore(t, s.virtual);
    }
  }

  /** user_page_flags */
  function PageFlags(s: Segment): (flags: Word)
    ensures flags < 16 && Writable(flags) == MayWrite(s) && Executable(flags) == MayExecute(s)
  {
    2 + (if MayWrite(s) then 4 else 0) + (if MayExecute(s) then 8 else 0)
  }

  /** The byte a program has at address `v` of a segment: from the file, and zero past its end. */
  function SegmentByte(image: seq<Byte>, s: Segment, v: nat): Byte {
    if s.virtual <= v < s.virtual + s.fileSize && s.fileOffset + (v - s.virtual) < |image| then image[s.fileOffset + (v - s.virtual)] else 0
  }

  // ---------------------------------------------------------------- bytes of a page

  /** Byte `k` of a page. */
  function ByteOf(f: Frame, k: nat): Byte
    requires |f| == ENTRIES && k < PAGE
  {
    Cpu.Encode(f[k / 8], 8)[k % 8]
  }

  lemma {:induction false} EncodeValue(s: seq<Byte>)
    ensures Cpu.Encode(Cpu.Value(s), |s|) == s
  {
    if s != [] {
      EncodeValue(s[1..]);
      var v := Cpu.Value(s[1..]);
      assert (s[0] + 256 * v) % 256 == s[0] && (s[0] + 256 * v) / 256 == v;
      assert [s[0]] + s[1..] == s;
    }
  }

  function WithByte(f: Frame, k: nat, b: Byte): Frame
    requires |f| == ENTRIES && k < PAGE
  {
    Cpu.EightBytes();
    Replaced(f, k / 8, Cpu.Value(Cpu.Encode(f[k / 8], 8)[k % 8 := b]))
  }

  lemma ByteWritten(f: Frame, k: nat, b: Byte, j: nat)
    requires |f| == ENTRIES && k < PAGE && j < PAGE
    ensures |WithByte(f, k, b)| == ENTRIES && ByteOf(WithByte(f, k, b), j) == if j == k then b else ByteOf(f, j)
  {
    EncodeValue(Cpu.Encode(f[k / 8], 8)[k % 8 := b]);
    hide Cpu.Encode, Cpu.Value;
    assert j / 8 == k / 8 && j % 8 == k % 8 ==> j == k;
  }

  lemma ZeroByte(k: nat)
    requires k < PAGE
    ensures ByteOf(Empty(), k) == 0
  {
    ZeroBytes(8);
  }

  lemma {:induction false} ZeroBytes(n: nat)
    ensures forall i :: 0 <= i < n ==> Cpu.Encode(0, n)[i] == 0
  {
    if n > 0 {
      ZeroBytes(n - 1);
    }
  }

  /** Byte `a` of memory. */
  function ByteAt(ram: Ram, a: nat): Byte
    requires Formed(ram) && a / PAGE < |ram.frames|
  {
    ByteOf(ram.frames[a / PAGE], a % PAGE)
  }

  /** It is the byte that the processor loads there. */
  lemma ByteAgrees(bytes: seq<Byte>, a: nat)
    requires a / PAGE < |bytes| / PAGE
    ensures a < |bytes| && ByteAt(Cpu.RamOf(bytes), a) == bytes[a]
  {
    var t, i := a / PAGE, a % PAGE / 8;
    ByteSplit(a);
    EncodeValue(bytes[t * PAGE + i * 8..t * PAGE + i * 8 + 8]);
    assert Cpu.RamOf(bytes).frames[t] == Cpu.FrameAt(bytes, t);
    hide Cpu.Encode, Cpu.Value;
  }

  lemma ByteSplit(a: nat)
    ensures a / 0x1000 * 0x1000 + a % 0x1000 / 8 * 8 + a % 0x1000 % 8 == a
  {
  }

  // ---------------------------------------------------------------- pages that are loaded

  /** `page` is the space's own, and user mode finds it at `va` with exactly the rights in `flags`. */
  ghost predicate MappedHere(m: State, id: nat, va: nat, flags: Word, page: nat) {
    && Formed(m.ram) && id in m.spaces && page < |m.ram.frames| && (page + 1) * PAGE <= WORD_LIMIT && flags < 16
    && Record(page, va, Anonymous) in Mappings(m.spaces[id].pages)
    && forall w :: va <= w < va + PAGE ==> View(m, id, w) == Page(UserWord(page, flags), 0)
  }

  /** The page at `va` is mapped and holds the bytes of the segment. */
  ghost predicate PageLoaded(m: State, id: nat, image: seq<Byte>, s: Segment, va: nat) {
    exists page: nat :: LoadedAs(m, id, image, s, va, page)
  }

  ghost predicate LoadedAs(m: State, id: nat, image: seq<Byte>, s: Segment, va: nat, page: nat) {
    MappedHere(m, id, va, PageFlags(s), page) && HoldsBytes(m.ram.frames[page], image, s, va, PAGE)
  }

  /** The first `n` bytes of the page at `va` are those of the segment, and the others are zero. */
  ghost predicate HoldsBytes(f: Frame, image: seq<Byte>, s: Segment, va: nat, n: nat) {
    && |f| == ENTRIES
    && forall k :: 0 <= k < PAGE ==> ByteOf(f, k) == if k < n then SegmentByte(image, s, va + k) else 0
  }

  ghost predicate PagesLoaded(m: State, id: nat, image: seq<Byte>, s: Segment, end: nat) {
    forall va :: s.virtual <= va < end && va % PAGE == 0 ==> PageLoaded(m, id, image, s, va)
  }

  /** A page of the stack: cleared, readable and writable. */
  ghost predicate StackPage(m: State, id: nat, va: nat) {
    exists page: nat :: ClearedAs(m, id, va, page)
  }

  ghost predicate ClearedAs(m: State, id: nat, va: nat, page: nat) {
    MappedHere(m, id, va, 6, page) && m.ram.frames[page] == Empty()
  }

  ghost predicate StackPages(m: State, id: nat, end: nat) {
    forall va :: STACK_BOTTOM <= va < end && va % PAGE == 0 ==> StackPage(m, id, va)
  }

  /** What user mode finds at `v`: byte `b`, which it may write or execute exactly as `flags` say. */
  ghost predicate UserSees(m: State, id: nat, v: nat, flags: Word, b: Byte) {
    && id in m.spaces && Formed(m.ram) && exists pa: nat ::
      && pa / PAGE < |m.ram.frames| && ByteAt(m.ram, pa) == b
      && Translation(m.ram, m.spaces[id].root * PAGE, true, v, Read) == Ok(pa)
      && Translation(m.ram, m.spaces[id].root * PAGE, true, v, Write) == (if Writable(flags) then Ok(pa) else PermissionDenied)
      && Translation(m.ram, m.spaces[id].root * PAGE, true, v, Execute) == if Executable(flags) then Ok(pa) else PermissionDenied
  }

  lemma SeenThrough(m: State, kernel: set<nat>, kernelRoot: nat, id: nat, va: nat, flags: Word, page: nat, v: nat)
    requires Sound(m, kernel, kernelRoot) && MappedHere(m, id, va, flags, page) && RightsOk(flags)
    requires va % PAGE == 0 && va <= v < va + PAGE && v < VIRTUAL_LIMIT
    ensures UserSees(m, id, v, flags, ByteOf(m.ram.frames[page], v - va))
  {
    hide Walk, TablesOk, MappingsOk, RecordsOk, ByteOf;
    SpaceFacts(m, kernel, kernelRoot, id);
    UserWordIsLeaf(m.ram, page, flags);
    RightsCases(flags);
    EntryParts(page, 17 + flags);
    var root := m.spaces[id].root;
    assert root * PAGE / PAGE == root;
    RootFits(m.ram, root);
    assert View(m, id, v) == Page(UserWord(page, flags), 0);
    PageAddress(va, v, page);
    RootFits(m.ram, page);
    var pa := page * PAGE + v % PAGE;
    assert ByteAt(m.ram, pa) == ByteOf(m.ram.frames[page], v - va);
    hide RightsOk, UserLeaf, Readable, Writable, Executable, User, Valid, Reserved;
  }

  lemma RootFits(ram: Ram, t: nat)
    requires Formed(ram) && t < |ram.frames|
    ensures TableAt(ram, t * PAGE)
  {
  }

  lemma PageAddress(va: nat, v: nat, page: nat)
    requires va % 0x1000 == 0 && va <= v < va + 0x1000
    ensures v % 0x1000 == v - va && (page * 0x1000 + v % 0x1000) / 0x1000 == page && (page * 0x1000 + v % 0x1000) % 0x1000 == v - va
  {
  }

  // ---------------------------------------------------------------- what loading keeps

  /** What was mapped stays mapped with the same contents. */
  ghost predicate Keeps(m: State, n: State, id: nat) {
    && id in m.spaces && id in n.spaces && Formed(n.ram) && DataKept(m, n, id)
    && Mappings(m.spaces[id].pages) <= Mappings(n.spaces[id].pages)
    && forall w :: 0 <= w < VIRTUAL_LIMIT && View(m, id, w) != Missing ==> View(n, id, w) == View(m, id, w)
  }

  lemma KeepsCompose(l: State, m: State, n: State, id: nat)
    requires Keeps(l, m, id) && Keeps(m, n, id)
    ensures Keeps(l, n, id)
  {
    hide View;
    DataCompose(l, m, n, id);
  }

  lemma KeepsMapped(m: State, n: State, id: nat, va: nat, flags: Word, page: nat)
    requires Keeps(m, n, id) && MappedHere(m, id, va, flags, page) && va + PAGE <= VIRTUAL_LIMIT
    ensures MappedHere(n, id, va, flags, page) && n.ram.frames[page] == m.ram.frames[page]
  {
    hide View, Mappings, UserWord;
  }

  lemma LoadedStays(m: State, n: State, id: nat, image: seq<Byte>, s: Segment, va: nat, page: nat)
    requires Keeps(m, n, id) && LoadedAs(m, id, image, s, va, page) && va + PAGE <= VIRTUAL_LIMIT
    ensures LoadedAs(n, id, image, s, va, page)
  {
    hide Keeps, HoldsBytes;
    KeepsMapped(m, n, id, va, PageFlags(s), page);
  }

  lemma ClearedStays(m: State, n: State, id: nat, va: nat, page: nat)
    requires Keeps(m, n, id) && ClearedAs(m, id, va, page) && va + PAGE <= VIRTUAL_LIMIT
    ensures ClearedAs(n, id, va, page)
  {
    hide Keeps;
    KeepsMapped(m, n, id, va, 6, page);
  }

  lemma KeepsLoaded(m: State, n: State, id: nat, image: seq<Byte>, s: Segment, end: nat)
    requires Keeps(m, n, id) && PagesLoaded(m, id, image, s, end) && end <= USER_TOP
    ensures PagesLoaded(n, id, image, s, end)
  {
    hide Keeps, MappedHere, HoldsBytes, LoadedAs;
    forall va | s.virtual <= va < end && va % PAGE == 0
      ensures PageLoaded(n, id, image, s, va)
    {
      assert PageLoaded(m, id, image, s, va);
      var page: nat :| LoadedAs(m, id, image, s, va, page);
      LoadedStays(m, n, id, image, s, va, page);
    }
  }

  lemma KeepsStack(m: State, n: State, id: nat, end: nat)
    requires Keeps(m, n, id) && StackPages(m, id, end) && end <= USER_TOP
    ensures StackPages(n, id, end)
  {
    hide Keeps, MappedHere, ClearedAs;
    forall va | STACK_BOTTOM <= va < end && va % PAGE == 0
      ensures StackPage(n, id, va)
    {
      assert StackPage(m, id, va);
      var page: nat :| ClearedAs(m, id, va, page);
      ClearedStays(m, n, id, va, page);
    }
  }

  /** A page newly mapped where nothing was. */
  lemma MappingKeeps(m: State, n: State, id: nat, va: nat, page: nat, flags: Word)
    requires id in m.spaces && id in n.spaces && Formed(n.ram) && DataKept(m, n, id) && page < |n.ram.frames| && (page + 1) * PAGE <= WORD_LIMIT && flags < 16
    requires View(m, id, va) == Missing && va % PAGE == 0 && ViewChanged(m, n, id, va, Page(UserWord(page, flags), 0))
    requires Mappings(n.spaces[id].pages) == Mappings(m.spaces[id].pages) + {Record(page, va, Anonymous)} && va + PAGE <= VIRTUAL_LIMIT
    ensures Keeps(m, n, id) && MappedHere(n, id, va, flags, page)
  {
    hide Walk, Mappings, UserWord, DataKept;
    forall w: nat | va <= w < va + PAGE
      ensures View(m, id, w) == Missing
    {
      SamePageView(m, id, va, w);
    }
  }

  lemma SamePageView(m: State, id: nat, va: nat, w: nat)
    requires va % PAGE == 0 && va <= w < va + PAGE
    ensures View(m, id, w) == View(m, id, va)
  {
    hide Walk;
    PageAddress(va, w, 0);
    assert w / PAGE == va / PAGE;
    if id in m.spaces && Formed(m.ram) && m.spaces[id].root < |m.ram.frames| {
      SamePageWalk(m.ram, m.spaces[id].root, w, va, 2);
    }
  }

  /** Writing into a page that was free before keeps what was mapped before. */
  lemma FillKeeps(l: State, m: State, kernel: set<nat>, kernelRoot: nat, id: nat, va: nat, flags: Word, page: nat, f: Frame)
    requires Sound(l, kernel, kernelRoot) && Sound(m, kernel, kernelRoot) && Keeps(l, m, id) && page in l.pool
    requires MappedHere(m, id, va, flags, page) && |f| == ENTRIES && va + PAGE <= VIRTUAL_LIMIT
    ensures
      var n := State(Refilled(m.ram, page, f), m.pool, m.spaces);
      && Sound(n, kernel, kernelRoot) && Touches(m, n, id) && SameView(m, n, id) && Keeps(l, n, id)
      && MappedHere(n, id, va, flags, page) && n.ram.frames[page] == f
  {
    hide Sound, View, Touches;
    var n := State(Refilled(m.ram, page, f), m.pool, m.spaces);
    FillData(m, kernel, kernelRoot, id, Record(page, va, Anonymous), f);
    forall r | r in Mappings(l.spaces[id].pages) && r.kind.Anonymous?
      ensures r.page < |l.ram.frames| && r.page < |n.ram.frames| && n.ram.frames[r.page] == l.ram.frames[r.page]
    {
      DataIsApart(l, kernel, kernelRoot, id, r);
    }
  }

  /** Only addresses from `lo` up to `hi` are found differently. */
  ghost predicate OnlyIn(m: State, n: State, id: nat, lo: nat, hi: nat) {
    forall w :: 0 <= w < VIRTUAL_LIMIT && !(lo <= w < hi) ==> View(n, id, w) == View(m, id, w)
  }
}
