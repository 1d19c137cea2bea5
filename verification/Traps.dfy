/** Trap entry and return as a pair of inverses (src/cpu.c): what is saved, what is restored, and why nesting
    does not matter. */
module Traps {
  import opened Options
  import opened PageTables
  import opened CpuMemory

  const INTERRUPT_ENABLE: nat := 16
  const FLAG_LIMIT: nat := 64
  const USER_BIT: nat := 0x4000_0000_0000_0000
  const EXCEPTION_BIT: nat := 0x8000_0000_0000_0000

  /** What a trap saves and a return restores. */
  datatype Context = Context(pc: nat, sp: nat, user: bool, flags: nat, ksp: nat, active: bool)

  /** The processor with its memory and the translation in force. */
  datatype State = State(context: Context, bytes: seq<Byte>, mmu: bool, ptbr: nat)

  /** Memory as supervisor mode sees it. */
  function Supervisor(s: State): Machine {
    Machine(s.bytes, s.mmu, s.ptbr, false)
  }

  /** The word at virtual address `v`, for supervisor mode. */
  ghost function WordRead(s: State, v: nat): Option<nat> {
    var a := Addresses(Supervisor(s), v, 8, Read);
    if Legal(v, 8) && a.Some? && AllBelow(a.value, |s.bytes|) then Some(Value(Loaded(s.bytes, a.value))) else None
  }

  // ---------------------------------------------------------------- saving and restoring

  /** make_saved_flags */
  function SavedFlags(c: Context, exception: bool): nat {
    c.flags % FLAG_LIMIT + (if c.user then USER_BIT else 0) + (if exception then EXCEPTION_BIT else 0)
  }

  predicate FromUser(saved: nat) {
    saved / USER_BIT % 2 == 1
  }

  predicate FromException(saved: nat) {
    saved / EXCEPTION_BIT % 2 == 1
  }

  function FrameSize(c: Context): nat {
    if c.user then 24 else 16
  }

  /** Where the frame begins: on the kernel stack for a trap from user mode, else below the stack pointer. */
  function FrameTop(c: Context): nat {
    if c.user then c.ksp else c.sp
  }

  function WithoutInterrupts(flags: nat): nat {
    if flags / INTERRUPT_ENABLE % 2 == 1 then flags - INTERRUPT_ENABLE else flags
  }

  /** The context in which a handler starts. */
  function Entered(c: Context, handler: nat, exception: bool): Context
    requires FrameTop(c) >= FrameSize(c)
  {
    Context(handler, FrameTop(c) - FrameSize(c), false, WithoutInterrupts(c.flags), c.ksp, c.active || exception)
  }

  /** The context that a return makes of the words in the frame. */
  function Restored(c: Context, address: nat, saved: nat, userSp: nat): Context {
    if FromUser(saved) then Context(address, userSp, true, saved % FLAG_LIMIT, c.sp + 24, c.active && !FromException(saved))
    else Context(address, c.sp + 16, false, saved % FLAG_LIMIT, c.ksp, c.active && !FromException(saved))
  }

  lemma SavedBits(c: Context, exception: bool)
    ensures SavedFlags(c, exception) % FLAG_LIMIT == c.flags % FLAG_LIMIT
    ensures FromUser(SavedFlags(c, exception)) == c.user && FromException(SavedFlags(c, exception)) == exception
  {
  }

  /** What was saved is what is restored. An exception is only taken when none is being handled. */
  lemma RoundTrip(c: Context, handler: nat, address: nat, exception: bool, h: Context)
    requires c.flags < FLAG_LIMIT && FrameTop(c) >= FrameSize(c) && (exception ==> !c.active)
    requires h.sp == Entered(c, handler, exception).sp && h.ksp == c.ksp && h.active == (c.active || exception)
    ensures Restored(h, address, SavedFlags(c, exception), c.sp) == c.(pc := address)
  {
    SavedBits(c, exception);
  }

  // ---------------------------------------------------------------- one trap

  /** The frame of a trap taken in `c` holds what a return needs. */
  ghost predicate FrameHolds(s: State, frame: nat, c: Context, address: nat, exception: bool) {
    && WordRead(s, frame) == Some(address)
    && WordRead(s, frame + 8) == Some(SavedFlags(c, exception))
    && (c.user ==> WordRead(s, frame + 16) == Some(c.sp))
  }

  /** A trap leads from `a` to `b`: the frame is written, and nothing else in memory. */
  ghost predicate Enters(a: State, b: State, handler: nat, address: nat, exception: bool) {
    && FrameTop(a.context) >= FrameSize(a.context) && (exception ==> !a.context.active)
    && b.context == Entered(a.context, handler, exception) && b.mmu == a.mmu && b.ptbr == a.ptbr
    && FrameHolds(b, b.context.sp, a.context, address, exception)
    && Elsewhere(Supervisor(a), b.context.sp, FrameSize(a.context), b.bytes)
  }

  /** A return leads from `a` to `b`. */
  ghost predicate Returns(a: State, b: State) {
    && !a.context.user && WordRead(a, a.context.sp).Some? && WordRead(a, a.context.sp + 8).Some?
    && var saved := WordRead(a, a.context.sp + 8).value;
       && (FromUser(saved) ==> WordRead(a, a.context.sp + 16).Some?)
       && b == a.(context := Restored(a.context, WordRead(a, a.context.sp).value, saved,
                                      if FromUser(saved) then WordRead(a, a.context.sp + 16).value else 0))
  }

  // ---------------------------------------------------------------- frames and the tables that map them

  /** The tables that the walk for `v` goes through. */
  ghost function Path(ram: Ram, t: nat, v: nat, level: nat): set<nat>
    requires level <= 2 && Formed(ram) && t < |ram.frames|
    decreases level
  {
    var next := Classify(ram, ram.frames[t][Index(v, level)], level);
    {t} + if next.Next? then Path(ram, next.table, v, level - 1) else {}
  }

  lemma {:induction false} PathWalk(ram: Ram, ram': Ram, t: nat, v: nat, level: nat)
    requires level <= 2 && Formed(ram) && Formed(ram') && ram'.size == ram.size && t < |ram.frames|
    requires forall u :: u in Path(ram, t, v, level) ==> u < |ram.frames| && ram'.frames[u] == ram.frames[u]
    ensures Walk(ram', t, v, level) == Walk(ram, t, v, level)
    decreases level
  {
    hide Index, Classify;
    assert t in Path(ram, t, v, level);
    var next := Classify(ram, ram.frames[t][Index(v, level)], level);
    SameStep(ram, ram', ram.frames[t][Index(v, level)], level);
    if next.Next? {
      PathWalk(ram, ram', next.table, v, level - 1);
    }
  }

  lemma SameStep(ram: Ram, ram': Ram, e: Word, level: nat)
    requires level <= 2 && ram'.size == ram.size
    ensures Classify(ram', e, level) == Classify(ram, e, level)
  {
  }

  /** The pages of memory on which the translation of `v` depends. */
  ghost function Tables(m: Machine, v: nat): set<nat> {
    if m.mmu && TableAt(RamOf(m.bytes), m.ptbr) then Path(RamOf(m.bytes), m.ptbr / PAGE, v, 2) else {}
  }

  /** Memory that differs in other pages translates `v` as before. */
  lemma TranslateKept(m: Machine, bytes: seq<Byte>, v: nat, access: Access)
    requires |bytes| == |m.bytes| && forall k :: 0 <= k < |bytes| && bytes[k] != m.bytes[k] ==> k / PAGE !in Tables(m, v)
    ensures CpuMemory.Translate(Machine(bytes, m.mmu, m.ptbr, m.user), v, access) == CpuMemory.Translate(m, v, access)
  {
    hide Walk, Path, FrameAt;
    var ram, ram' := RamOf(m.bytes), RamOf(bytes);
    if m.mmu && TableAt(ram, m.ptbr) {
      var tables := Path(ram, m.ptbr / PAGE, v, 2);
      forall u | u in tables
        ensures u < |ram.frames| && ram'.frames[u] == ram.frames[u]
      {
        PathInside(ram, m.ptbr / PAGE, v, 2, u);
        SameTable(m.bytes, bytes, u);
      }
      PathWalk(ram, ram', m.ptbr / PAGE, v, 2);
    }
  }

  lemma {:induction false} PathInside(ram: Ram, t: nat, v: nat, level: nat, u: nat)
    requires level <= 2 && Formed(ram) && t < |ram.frames| && u in Path(ram, t, v, level)
    ensures u < |ram.frames|
    decreases level
  {
    hide Index, Classify;
    var next := Classify(ram, ram.frames[t][Index(v, level)], level);
    if u != t {
      PathInside(ram, next.table, v, level - 1, u);
    }
  }

  lemma SameTable(bytes: seq<Byte>, bytes': seq<Byte>, t: nat)
    requires |bytes'| == |bytes| && t < |bytes| / PAGE && forall k :: 0 <= k < |bytes| && bytes'[k] != bytes[k] ==> k / PAGE != t
    ensures RamOf(bytes').frames[t] == RamOf(bytes).frames[t]
  {
    hide Value;
    forall i | 0 <= i < ENTRIES
      ensures WordAt(bytes', t * PAGE + i * 8) == WordAt(bytes, t * PAGE + i * 8)
    {
      var a := t * PAGE + i * 8;
      forall k | a <= k < a + 8
        ensures bytes'[k] == bytes[k]
      {
        InTable(t, i, k);
      }
      assert bytes'[a..a + 8] == bytes[a..a + 8];
    }
    assert FrameAt(bytes', t) == FrameAt(bytes, t);
  }

  lemma InTable(t: nat, i: nat, k: nat)
    requires i < 512 && t * 0x1000 + i * 8 <= k < t * 0x1000 + i * 8 + 8
    ensures k / 0x1000 == t
  {
  }

  /** No byte of the run of `size` bytes at `v` lies in a table that maps the run of `n` bytes at `w`. */
  ghost predicate OffTables(m: Machine, v: nat, size: nat, w: nat, n: nat) {
    var a := Addresses(m, v, size, Write);
    a.Some? ==> forall k, i :: k in a.value && 0 <= i < n ==> k / PAGE !in TablesOf(m, w, i)
  }

  ghost function TablesOf(m: Machine, w: nat, i: nat): set<nat> {
    Tables(m, w + i)
  }

  /** Writing to the run of `size` bytes at `v` does not change where these bytes are: the stack does not lie on the
      page tables that map it. */
  ghost predicate Apart(m: Machine, v: nat, size: nat) {
    OffTables(m, v, size, v, size)
  }

  /** Memory that differs from that of `m` in the run only. */
  ghost predicate Elsewhere(m: Machine, v: nat, size: nat, bytes: seq<Byte>) {
    var a := Addresses(m, v, size, Write);
    a.Some? && |bytes| == |m.bytes| && forall k :: 0 <= k < |bytes| && k !in a.value ==> bytes[k] == m.bytes[k]
  }

  /** A write to one run leaves the addresses of another where they were. */
  lemma RunKept(m: Machine, v: nat, size: nat, bytes: seq<Byte>, w: nat, n: nat, access: Access)
    requires Elsewhere(m, v, size, bytes) && OffTables(m, v, size, w, n)
    ensures forall i :: 0 <= i < n ==> Single(Machine(bytes, m.mmu, m.ptbr, m.user), w, i, access) == Single(m, w, i, access)
  {
    hide Addresses, Tables, CpuMemory.Translate;
    var a := Addresses(m, v, size, Write).value;
    forall i | 0 <= i < n
      ensures Single(Machine(bytes, m.mmu, m.ptbr, m.user), w, i, access) == Single(m, w, i, access)
    {
      forall k | 0 <= k < |bytes| && bytes[k] != m.bytes[k]
        ensures k / PAGE !in Tables(m, w + i)
      {
        assert k in a;
        assert k / PAGE !in TablesOf(m, w, i);
      }
      TranslateKept(m, bytes, w + i, access);
    }
  }

  /** A word that a trap taken in `s` leaves alone: the frame will lie neither on it nor on a table that maps it. */
  ghost predicate Spares(s: State, w: nat) {
    var m := Supervisor(s);
    FrameTop(s.context) >= FrameSize(s.context) ==>
      var frame := FrameTop(s.context) - FrameSize(s.context);
      && OffTables(m, frame, FrameSize(s.context), w, 8)
      && var a, b := Addresses(m, frame, FrameSize(s.context), Write), Addresses(m, w, 8, Read);
         a.Some? && b.Some? ==> forall k :: k in a.value ==> k !in b.value
  }

  lemma SparedWord(a: State, b: State, handler: nat, address: nat, exception: bool, w: nat)
    requires Enters(a, b, handler, address, exception) && Spares(a, w)
    ensures WordRead(b, w) == WordRead(a, w)
  {
    hide Addresses, Single, FrameHolds, Value;
    var m := Supervisor(a);
    RunKept(m, b.context.sp, FrameSize(a.context), b.bytes, w, 8, Read);
    AddressesSame(m, Supervisor(b), w, 8, Read);
    var r := Addresses(m, w, 8, Read);
    if r.Some? && AllBelow(r.value, |a.bytes|) {
      forall i | 0 <= i < 8
        ensures b.bytes[r.value[i]] == a.bytes[r.value[i]]
      {
        assert r.value[i] in r.value;
      }
      assert Loaded(b.bytes, r.value) == Loaded(a.bytes, r.value);
    }
  }

  /** Without paging the conditions on the stack come to this: words at or above its top are spared. */
  lemma FlatStack(s: State, w: nat)
    requires !s.mmu && w >= FrameTop(s.context)
    ensures Spares(s, w)
    ensures FrameTop(s.context) >= FrameSize(s.context) ==>
      Apart(Supervisor(s), FrameTop(s.context) - FrameSize(s.context), FrameSize(s.context))
  {
    hide Addresses;
    var m := Supervisor(s);
    if FrameTop(s.context) >= FrameSize(s.context) {
      var frame, size := FrameTop(s.context) - FrameSize(s.context), FrameSize(s.context);
      FlatRun(m, frame, size, Write);
      FlatRun(m, w, 8, Read);
    }
  }

  lemma FlatRun(m: Machine, v: nat, n: nat, access: Access)
    requires !m.mmu
    ensures Addresses(m, v, n, access) == Some(From(v, n))
  {
    AddressesAre(m, v, n, access, From(v, n));
  }

  /** Under paging two bytes are apart when they lie in one page, or when their pages have different targets. */
  ghost predicate BytesApart(m: Machine, x: nat, y: nat) {
    x != y && (x / PAGE == y / PAGE || !CpuMemory.Translate(m, x, Write).Ok? || !CpuMemory.Translate(m, y, Read).Ok? ||
               CpuMemory.Translate(m, x, Write).physical / PAGE != CpuMemory.Translate(m, y, Read).physical / PAGE)
  }

  /** ... and a byte is off the tables of another when it is mapped to none of them. */
  ghost predicate ByteOffTables(m: Machine, x: nat, y: nat) {
    CpuMemory.Translate(m, x, Write).Ok? ==> CpuMemory.Translate(m, x, Write).physical / PAGE !in Tables(m, y)
  }

  /** The same for byte `i` of the frame of a trap taken in `s` and byte `j` of the word at `w`. */
  ghost predicate FrameByteApart(s: State, w: nat, i: nat, j: nat)
    requires FrameTop(s.context) >= FrameSize(s.context)
  {
    var x, y := FrameTop(s.context) - FrameSize(s.context) + i, w + j;
    BytesApart(Supervisor(s), x, y) && ByteOffTables(Supervisor(s), x, y)
  }

  /** With paging: a word is spared if each of its bytes and each byte of the frame share a page or have pages with
      different targets, and no byte of the frame is mapped to a table of the word. */
  lemma PagedStack(s: State, w: nat)
    requires FrameTop(s.context) >= FrameSize(s.context)
    requires forall i, j :: 0 <= i < FrameSize(s.context) && 0 <= j < 8 ==> FrameByteApart(s, w, i, j)
    ensures Spares(s, w)
  {
    hide Addresses, Tables, CpuMemory.Translate, BytesApart;
    var m, frame, size := Supervisor(s), FrameTop(s.context) - FrameSize(s.context), FrameSize(s.context);
    var a, b := Addresses(m, frame, size, Write), Addresses(m, w, 8, Read);
    if a.Some? {
      forall k, i | k in a.value && 0 <= i < 8
        ensures k / PAGE !in TablesOf(m, w, i)
      {
        var j :| 0 <= j < size && a.value[j] == k;
        assert Single(m, frame, j, Write) == Ok(k) && FrameByteApart(s, w, j, i);
      }
      if b.Some? {
        forall k | k in a.value
          ensures k !in b.value
        {
          var j :| 0 <= j < size && a.value[j] == k;
          assert Single(m, frame, j, Write) == Ok(k);
          forall i | 0 <= i < 8
            ensures b.value[i] != k
          {
            assert Single(m, w, i, Read) == Ok(b.value[i]) && FrameByteApart(s, w, j, i);
            ApartBytes(m, frame + j, w + i);
          }
        }
      }
    }
  }

  lemma ApartBytes(m: Machine, x: nat, y: nat)
    requires BytesApart(m, x, y) && CpuMemory.Translate(m, x, Write).Ok? && CpuMemory.Translate(m, y, Read).Ok?
    ensures CpuMemory.Translate(m, x, Write).physical != CpuMemory.Translate(m, y, Read).physical
  {
    hide CpuMemory.Translate;
    if x / PAGE == y / PAGE {
      WritableIsReadable(m, x);
      if x < y {
        InOnePage(x, y);
        TranslateLinear(m, x, y - x, Read);
      } else {
        InOnePage(y, x);
        TranslateLinear(m, y, x - y, Read);
      }
    }
  }

  lemma InOnePage(x: nat, y: nat)
    requires x / 0x1000 == y / 0x1000 && x < y
    ensures x % 0x1000 + (y - x) < 0x1000
  {
  }

  // ---------------------------------------------------------------- runs

  /** What the processor does next: a trap, a return through whatever the stack pointer names, or anything else. */
  datatype Event = Work | Trap(handler: nat, address: nat, exception: bool) | Iret

  /** One event. Work may change mode, stack, tables and any memory. */
  ghost predicate StepOk(e: Event, a: State, b: State) {
    match e
    case Work => b.context.flags < FLAG_LIMIT
    case Trap(handler, address, exception) => Enters(a, b, handler, address, exception)
    case Iret => Returns(a, b)
  }

  /** A run of the processor from any state. */
  ghost predicate Run(states: seq<State>, events: seq<Event>) {
    && |states| == |events| + 1 && states[0].context.flags < FLAG_LIMIT
    && forall i :: 0 <= i < |events| ==> StepOk(events[i], states[i], states[i + 1])
  }

  lemma {:induction false} RunFlags(states: seq<State>, events: seq<Event>, n: nat)
    requires Run(states, events) && n <= |events|
    ensures states[n].context.flags < FLAG_LIMIT
  {
    hide WordRead, Elsewhere, FrameHolds;
    if n > 0 {
      RunFlags(states, events, n - 1);
      assert StepOk(events[n - 1], states[n - 1], states[n]);
      FlagsStay(states[n - 1].context.flags);
    }
  }

  lemma FlagsStay(flags: nat)
    requires flags < FLAG_LIMIT
    ensures WithoutInterrupts(flags) < FLAG_LIMIT
  {
  }

  // ---------------------------------------------------------------- one frame in a run

  /** A trap that was taken: where its frame is and what it interrupted. */
  datatype Pending = Pending(frame: nat, saved: Context, address: nat, exception: bool)

  /** The trap that is event `j` of a run. */
  function TrapAt(states: seq<State>, events: seq<Event>, j: nat): Pending
    requires |states| == |events| + 1 && j < |events| && events[j].Trap?
  {
    Pending(states[j + 1].context.sp, states[j].context, events[j].address, events[j].exception)
  }

  /** The words of the frame are the same. */
  ghost predicate Intact(a: State, b: State, p: Pending) {
    && WordRead(b, p.frame) == WordRead(a, p.frame) && WordRead(b, p.frame + 8) == WordRead(a, p.frame + 8)
    && (p.saved.user ==> WordRead(b, p.frame + 16) == WordRead(a, p.frame + 16))
  }

  /** A trap taken in `s` leaves the frame alone. */
  ghost predicate FrameSpared(s: State, p: Pending) {
    Spares(s, p.frame) && Spares(s, p.frame + 8) && (p.saved.user ==> Spares(s, p.frame + 16))
  }

  /** An event that does not disturb the frame: work that leaves its words, a trap whose own frame goes elsewhere, any
      return. Nothing is asked for the sake of other frames. */
  ghost predicate LeavesAlone(e: Event, a: State, b: State, p: Pending) {
    match e
    case Work => Intact(a, b, p)
    case Trap(_, _, _) => FrameSpared(a, p)
    case Iret => true
  }

  /** The frame is in memory as it was written. */
  ghost predicate Waiting(s: State, p: Pending) {
    && FrameHolds(s, p.frame, p.saved, p.address, p.exception) && p.saved.flags < FLAG_LIMIT
    && FrameTop(p.saved) >= FrameSize(p.saved) && p.frame == FrameTop(p.saved) - FrameSize(p.saved)
    && (p.exception ==> !p.saved.active)
  }

  lemma TrapWaits(states: seq<State>, events: seq<Event>, j: nat)
    requires Run(states, events) && j < |events| && events[j].Trap?
    ensures Waiting(states[j + 1], TrapAt(states, events, j))
  {
    hide WordRead, Elsewhere, SavedFlags;
    RunFlags(states, events, j);
    assert StepOk(events[j], states[j], states[j + 1]);
  }

  /** An event that leaves the frame alone keeps it. */
  lemma StepKeeps(e: Event, a: State, b: State, p: Pending)
    requires StepOk(e, a, b) && Waiting(a, p) && LeavesAlone(e, a, b, p)
    ensures Waiting(b, p)
  {
    hide WordRead, Spares, Enters, Returns, FrameTop, FrameSize, SavedFlags;
    match e
    case Work =>
    case Trap(handler, address, exception) =>
      SparedWord(a, b, handler, address, exception, p.frame);
      SparedWord(a, b, handler, address, exception, p.frame + 8);
      if p.saved.user {
        SparedWord(a, b, handler, address, exception, p.frame + 16);
      }
    case Iret =>
      ReturnFacts(a, b);
      SameMemory(a, b);
  }

  lemma ReturnFacts(a: State, b: State)
    requires Returns(a, b)
    ensures b == a.(context := b.context) && b.context.flags < FLAG_LIMIT
  {
    hide WordRead;
  }

  lemma SameMemory(a: State, b: State)
    requires b == a.(context := b.context)
    ensures forall v: nat :: WordRead(b, v) == WordRead(a, v)
  {
  }

  /** No event from `lo` up to `hi` disturbs the frame. */
  ghost predicate LeftAlone(states: seq<State>, events: seq<Event>, lo: nat, hi: nat, p: Pending)
    requires |states| == |events| + 1 && hi <= |events|
  {
    forall k :: lo <= k < hi ==> LeavesAlone(events[k], states[k], states[k + 1], p)
  }

  lemma {:induction false} FrameKept(states: seq<State>, events: seq<Event>, lo: nat, hi: nat, p: Pending)
    requires Run(states, events) && lo <= hi <= |events| && Waiting(states[lo], p) && LeftAlone(states, events, lo, hi, p)
    ensures Waiting(states[hi], p)
    decreases hi
  {
    hide Waiting, StepOk, LeavesAlone;
    if lo < hi {
      FrameKept(states, events, lo, hi - 1, p);
      StepKeeps(events[hi - 1], states[hi - 1], states[hi], p);
    }
  }

  /** What a return through the frame makes of the context: all that was saved. The kernel stack pointer is set only on
      the way to user mode, and only the frame of an exception ends the handling of one. */
  ghost function Resumed(p: Pending, now: Context): Context {
    Context(p.address, p.saved.sp, p.saved.user, p.saved.flags, if p.saved.user then p.saved.ksp else now.ksp, now.active && !p.exception)
  }

  /** In every run, whatever else happens to other frames, to the mode or to the tables, a return through a frame that
      was left alone since its trap resumes exactly what that trap interrupted. */
  lemma ReturnResumes(states: seq<State>, events: seq<Event>, j: nat, i: nat)
    requires Run(states, events) && j < i < |events| && events[j].Trap? && events[i].Iret?
    requires LeftAlone(states, events, j + 1, i, TrapAt(states, events, j)) && states[i].context.sp == TrapAt(states, events, j).frame
    ensures states[i + 1] == states[i].(context := Resumed(TrapAt(states, events, j), states[i].context))
  {
    hide LeftAlone, Waiting, Returns, Enters, Resumed;
    var p := TrapAt(states, events, j);
    TrapWaits(states, events, j);
    FrameKept(states, events, j + 1, i, p);
    assert StepOk(events[i], states[i], states[i + 1]);
    ReturnThrough(states[i], states[i + 1], p);
  }

  lemma ReturnThrough(a: State, b: State, p: Pending)
    requires Waiting(a, p) && a.context.sp == p.frame && Returns(a, b)
    ensures b == a.(context := Resumed(p, a.context))
  {
    hide WordRead;
    SavedBits(p.saved, p.exception);
  }

  // ---------------------------------------------------------------- nested traps

  /** The traps not returned from after `n` events, if each return is for the last of them. */
  ghost function OpenAt(states: seq<State>, events: seq<Event>, n: nat): seq<Pending>
    requires |states| == |events| + 1 && n <= |events|
  {
    if n == 0 then [] else After(OpenAt(states, events, n - 1), events[n - 1], states[n - 1], states[n])
  }

  ghost function After(open: seq<Pending>, e: Event, a: State, b: State): seq<Pending> {
    match e
    case Work => open
    case Trap(_, address, exception) => open + [Pending(b.context.sp, a.context, address, exception)]
    case Iret => if open == [] then open else open[..|open| - 1]
  }

  /** Returns come in the opposite order of the traps, each through the frame of its trap; handlers leave the frames
      that are open alone, and neither they nor the traps between change mode, exception state or kernel stack otherwise. */
  ghost predicate Nested(states: seq<State>, events: seq<Event>)
    requires |states| == |events| + 1
  {
    forall i :: 0 <= i < |events| ==> NestedStep(OpenAt(states, events, i), events[i], states[i], states[i + 1])
  }

  ghost predicate NestedStep(open: seq<Pending>, e: Event, a: State, b: State) {
    && (forall p :: p in open ==> LeavesAlone(e, a, b, p))
    && (e.Work? ==> b.context.ksp == a.context.ksp && b.context.user == a.context.user && b.context.active == a.context.active)
    && (e.Iret? ==> open != [] && a.context.sp == open[|open| - 1].frame)
  }

  ghost predicate AllWaiting(s: State, open: seq<Pending>) {
    s.context.flags < FLAG_LIMIT && forall p :: p in open ==> Waiting(s, p)
  }

  /** Each trap was taken in what the one before it started. */
  ghost predicate Chain(open: seq<Pending>, now: Context) {
    && (forall j :: 0 <= j < |open| ==> open[j].saved.ksp == now.ksp && (j > 0 ==> Follows(open[j - 1], open[j].saved)))
    && (open != [] ==> Follows(open[|open| - 1], now))
  }

  ghost predicate Follows(p: Pending, c: Context) {
    !c.user && c.active == (p.saved.active || p.exception)
  }

  lemma ChainStep(open: seq<Pending>, e: Event, a: State, b: State)
    requires AllWaiting(a, open) && Chain(open, a.context) && StepOk(e, a, b) && NestedStep(open, e, a, b)
    ensures Chain(After(open, e, a, b), b.context)
    ensures e.Iret? ==> b == a.(context := open[|open| - 1].saved.(pc := open[|open| - 1].address))
  {
    hide WordRead, Elsewhere, LeavesAlone;
    if e.Iret? {
      var p := open[|open| - 1];
      assert Waiting(a, p);
      ReturnThrough(a, b, p);
      hide SavedFlags;
    }
  }

  lemma WaitingStep(open: seq<Pending>, e: Event, a: State, b: State)
    requires AllWaiting(a, open) && StepOk(e, a, b) && NestedStep(open, e, a, b)
    ensures AllWaiting(b, After(open, e, a, b))
  {
    hide WordRead, Elsewhere, LeavesAlone, SavedFlags;
    FlagsStay(a.context.flags);
    forall p | p in open
      ensures Waiting(b, p)
    {
      StepKeeps(e, a, b, p);
    }
  }

  lemma {:induction false} ChainHolds(states: seq<State>, events: seq<Event>, n: nat)
    requires Run(states, events) && Nested(states, events) && n <= |events|
    ensures Chain(OpenAt(states, events, n), states[n].context) && AllWaiting(states[n], OpenAt(states, events, n))
  {
    hide Chain, StepOk, After, NestedStep, Waiting;
    if n == 0 {
      NoChain(states[0].context);
    } else {
      ChainHolds(states, events, n - 1);
      WaitingStep(OpenAt(states, events, n - 1), events[n - 1], states[n - 1], states[n]);
      ChainStep(OpenAt(states, events, n - 1), events[n - 1], states[n - 1], states[n]);
    }
  }

  lemma NoChain(c: Context)
    ensures Chain([], c)
  {
  }

  /** Where traps are returned from in the opposite order, program counter, stack pointers, mode, flags and the
      exception state are all those of the interrupted program, however deep the nesting. The run may begin anywhere:
      traps taken before it and their frames do not matter. */
  lemma NestedReturn(states: seq<State>, events: seq<Event>, i: nat)
    requires Run(states, events) && Nested(states, events) && i < |events| && events[i].Iret?
    ensures OpenAt(states, events, i) != []
    ensures
      var p := OpenAt(states, events, i)[|OpenAt(states, events, i)| - 1];
      states[i + 1] == states[i].(context := p.saved.(pc := p.address))
  {
    hide Chain, OpenAt, WordRead, StepOk, AllWaiting;
    ChainHolds(states, events, i);
    assert NestedStep(OpenAt(states, events, i), events[i], states[i], states[i + 1]);
    ChainStep(OpenAt(states, events, i), events[i], states[i], states[i + 1]);
  }

  // ---------------------------------------------------------------- writing the frame

  /** The bytes of the words of a frame. */
  function FrameBytes(words: seq<nat>): (r: seq<Byte>)
    ensures |r| == 8 * |words|
  {
    if words == [] then [] else FrameBytes(words[..|words| - 1]) + Encode(words[|words| - 1], 8)
  }

  lemma {:induction false} FrameWord(words: seq<nat>, k: nat)
    requires k < |words|
    ensures FrameBytes(words)[8 * k..8 * k + 8] == Encode(words[k], 8)
    decreases |words|
  {
    var n := |words| - 1;
    if k < n {
      FrameWord(words[..n], k);
    }
  }

  /** Part of the frame written so far. */
  lemma FramePart(m: Machine, v: nat, size: nat, a: seq<nat>, n: nat, data: seq<Byte>)
    requires Addresses(m, v, size, Write) == Some(a) && Apart(m, v, size) && size <= PAGE && n <= size == |data|
    ensures
      var m' := Machine(Stored(m.bytes, a[..n], data[..n]), m.mmu, m.ptbr, m.user);
      Addresses(m', v, size, Write) == Some(a)
  {
    hide Stored, Single, Addresses, Tables;
    var bytes := Stored(m.bytes, a[..n], data[..n]);
    var m' := Machine(bytes, m.mmu, m.ptbr, m.user);
    assert Elsewhere(m, v, size, bytes) by {
      forall i, j | 0 <= i < j < n
        ensures a[..n][i] != a[..n][j]
      {
        AddressesDistinct(m, v, size, Write, i, j);
      }
      StoredExactly(m.bytes, a[..n], data[..n]);
      assert forall k :: k !in a ==> k !in a[..n];
    }
    RunKept(m, v, size, bytes, v, size, Write);
    AddressesSame(m, m', v, size, Write);
  }

  lemma DistinctRun(m: Machine, v: nat, size: nat, a: seq<nat>)
    requires Addresses(m, v, size, Write) == Some(a) && size <= PAGE
    ensures forall i, j :: 0 <= i < j < |a| ==> a[i] != a[j]
  {
    hide Addresses;
    forall i, j | 0 <= i < j < |a|
      ensures a[i] != a[j]
    {
      AddressesDistinct(m, v, size, Write, i, j);
    }
  }

  /** A frame that was written is read back. */
  lemma FrameReadBack(s: State, before: seq<Byte>, frame: nat, words: seq<nat>, a: seq<nat>, k: nat)
    requires k < |words| && 8 * |words| <= PAGE && words[k] < ADDRESS_LIMIT && Legal(frame + 8 * k, 8)
    requires Addresses(Machine(before, s.mmu, s.ptbr, false), frame, 8 * |words|, Write) == Some(a) && AllBelow(a, |before|)
    requires Addresses(Supervisor(s), frame, 8 * |words|, Write) == Some(a) && s.bytes == Stored(before, a, FrameBytes(words))
    ensures WordRead(s, frame + 8 * k) == Some(words[k])
  {
    hide Stored, Single, Addresses, FrameBytes, Encode, Loaded, AllBelow, Value, Power256;
    PartRead(Supervisor(s), frame, 8 * |words|, a, 8 * k);
    DistinctRun(Supervisor(s), frame, 8 * |words|, a);
    PartBack(before, a, words, k);
    WordIs(s, frame + 8 * k, a[8 * k..8 * k + 8], words[k]);
  }

  lemma PartRead(m: Machine, v: nat, size: nat, a: seq<nat>, i: nat)
    requires Addresses(m, v, size, Write) == Some(a) && i + 8 <= size
    ensures |a| == size && Addresses(m, v + i, 8, Read) == Some(a[i..i + 8])
  {
    hide Addresses, Single;
    AddressesPart(m, v, size, Write, i, 8);
    WritableAddresses(m, v + i, 8);
  }

  lemma WordIs(s: State, v: nat, a: seq<nat>, w: nat)
    requires Addresses(Supervisor(s), v, 8, Read) == Some(a) && Legal(v, 8) && AllBelow(a, |s.bytes|) && w < ADDRESS_LIMIT
    requires Loaded(s.bytes, a) == Encode(w, 8)
    ensures WordRead(s, v) == Some(w)
  {
    hide Addresses, Encode, Loaded, AllBelow, Value, Power256;
    EightBytes();
    DecodeEncode(w, 8);
  }

  lemma PartBack(before: seq<Byte>, a: seq<nat>, words: seq<nat>, k: nat)
    requires k < |words| && |a| == 8 * |words| && (forall i, j :: 0 <= i < j < |a| ==> a[i] != a[j]) && AllBelow(a, |before|)
    ensures
      var bytes, part := Stored(before, a, FrameBytes(words)), a[8 * k..8 * k + 8];
      AllBelow(part, |bytes|) && Loaded(bytes, part) == Encode(words[k], 8)
  {
    hide FrameBytes, Encode, Stored, Loaded;
    LoadStored(before, a, FrameBytes(words));
    LoadedPart(Stored(before, a, FrameBytes(words)), a, 8 * k, 8);
    FrameWord(words, k);
  }
}
