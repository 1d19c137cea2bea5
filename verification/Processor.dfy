/** Loads, stores, trap entry and return of the processor (src/cpu.c). */
module Processor {
  import opened Options
  import opened PageTables
  import opened CpuMemory
  import opened Traps

  /** Every byte of the access is in memory. */
  ghost predicate InMemory(m: Machine, v: nat, width: nat, access: Access) {
    Legal(v, width) && Addresses(m, v, width, access).Some? && AllBelow(Addresses(m, v, width, access).value, |m.bytes|)
  }

  class Cpu {
    var bytes: seq<Byte>
    var mmu: bool
    var ptbr: nat
    var user: bool
    var pc: nat
    var sp: nat
    var registers: seq<nat>
    var flags: nat
    var ksp: nat
    /** An exception is being handled. */
    var active: bool
    var waiting: bool
    /** The exception to be delivered, if there is one. */
    var fault: Option<Fault>

    function Now(): Machine
      reads this
    {
      Machine(bytes, mmu, ptbr, user)
    }

    /** set_exception: the first exception of an instruction counts. */
    method Report(f: Fault)
      modifies `fault
      ensures fault == if old(fault).None? then Some(f) else old(fault)
    {
      if fault.None? {
        fault := Some(f);
      }
    }

    /** One piece of a read; outside memory a device answers, or nothing does. */
    method ReadPiece(p: nat, width: nat, useBus: bool) returns (r: Option<seq<Byte>>)
      ensures p + width <= |bytes| ==> AllBelow(From(p, width), |bytes|) && r == Some(Loaded(bytes, From(p, width)))
      ensures p + width > |bytes| && !useBus ==> r == None
      ensures r.Some? ==> |r.value| == width
    {
      if p + width <= |bytes| {
        assert bytes[p..p + width] == Loaded(bytes, From(p, width));
        return Some(bytes[p..p + width]);
      }
      var answers: bool := *;
      if useBus && answers {
        var data: seq<Byte> := *;
        if |data| == width {
          return Some(data);
        }
      }
      return None;
    }

    /** memory_read: the bytes that the addresses translate to one by one. */
    method ReadMemory(v: nat, width: nat, access: Access, useBus: bool, physical: Exception, report: bool) returns (r: Option<seq<Byte>>)
      modifies `fault
      ensures InMemory(Now(), v, width, access) ==> r == Some(Loaded(bytes, Addresses(Now(), v, width, access).value))
      ensures !useBus ==> (r.Some? <==> InMemory(Now(), v, width, access))
      ensures r.Some? ==> |r.value| == width && Legal(v, width) && Addresses(Now(), v, width, access).Some?
      ensures r.Some? || !report ==> fault == old(fault)
      ensures r.None? && report ==> fault.Some?
    {
      hide Addresses, AllBelow, Loaded, Flat, From;
      var segments, failed := BuildSegments(Now(), v, width, access, physical);
      if failed.Some? {
        if report {
          Report(failed.value);
        }
        return None;
      }
      var result: seq<Byte> := [];
      NothingLoaded(bytes);
      for k := 0 to |segments|
        invariant fault == old(fault) && |result| == |Flat(segments[..k])|
        invariant !useBus ==> AllBelow(Flat(segments[..k]), |bytes|)
        invariant AllBelow(Flat(segments[..k]), |bytes|) ==> result == Loaded(bytes, Flat(segments[..k]))
      {
        var s := segments[k];
        assert Piece(segments, v, k);
        assert segments[..k + 1] == segments[..k] + [s];
        FlatMore(segments[..k], s);
        LoadedMore(bytes, Flat(segments[..k]), s.physical, s.width);
        var part := ReadPiece(s.physical, s.width, useBus);
        if part.None? {
          if AllBelow(Flat(segments), |bytes|) {
            FlatPart(segments, k + 1);
            PrefixBelow(Flat(segments[..k + 1]), Flat(segments), |bytes|);
            assert false;
          }
          if report {
            Report(Fault(physical, s.virtual, Ok(s.physical)));
          }
          return None;
        }
        result := result + part.value;
      }
      assert segments[..|segments|] == segments;
      return Some(result);
    }

    /** One piece of a write; a device takes it without any effect on memory, or refuses it. */
    method WritePiece(p: nat, part: seq<Byte>, useBus: bool) returns (ok: bool)
      requires part != []
      modifies `bytes
      ensures ok ==> bytes == Stored(old(bytes), From(p, |part|), part)
      ensures !ok ==> bytes == old(bytes)
      ensures p + |part| <= |old(bytes)| ==> ok
      ensures !useBus ==> (ok <==> p + |part| <= |old(bytes)|)
    {
      if p + |part| <= |bytes| {
        StoredRun(bytes, p, part);
        bytes := bytes[..p] + part + bytes[p + |part|..];
        return true;
      }
      var takes: bool := *;
      if useBus && p >= |bytes| && takes {
        StoredOutside(bytes, From(p, |part|), part);
        return true;
      }
      return false;
    }

    /** The check of memory_write before it writes to memory without the bus. */
    method CheckPieces(segments: seq<Segment>, physical: Exception, report: bool) returns (ok: bool)
      requires forall k :: 0 <= k < |segments| ==> segments[k].width > 0
      modifies `fault
      ensures ok <==> AllBelow(Flat(segments), |bytes|)
      ensures ok || !report ==> fault == old(fault)
      ensures !ok && report ==> fault.Some?
    {
      hide AllBelow, Loaded, Flat, From;
      NothingLoaded(bytes);
      for k := 0 to |segments|
        invariant fault == old(fault) && AllBelow(Flat(segments[..k]), |bytes|)
      {
        var s := segments[k];
        assert segments[..k + 1] == segments[..k] + [s];
        FlatMore(segments[..k], s);
        LoadedMore(bytes, Flat(segments[..k]), s.physical, s.width);
        if s.physical + s.width > |bytes| {
          NotAllBelow(segments, k + 1, |bytes|);
          if report {
            Report(Fault(physical, s.virtual, Ok(s.physical)));
          }
          return false;
        }
      }
      assert segments[..|segments|] == segments;
      return true;
    }

    /** memory_write: a fault of translation, or without the bus any fault, leaves memory as it was; success puts
        each byte where its own address translates to. `done` bytes were written. */
    method WriteMemory(v: nat, data: seq<Byte>, access: Access, useBus: bool, physical: Exception, report: bool)
      returns (ok: bool, ghost done: nat)
      modifies `bytes, `fault
      ensures !useBus ==> (ok <==> old(InMemory(Now(), v, |data|, access)))
      ensures old(InMemory(Now(), v, |data|, access)) ==> ok
      ensures ok ==> Legal(v, |data|) && old(Addresses(Now(), v, |data|, access)).Some? && done == |data|
      ensures done > 0 ==> done <= |data| && old(Addresses(Now(), v, |data|, access)).Some?
      ensures done > 0 ==> bytes == Stored(old(bytes), old(Addresses(Now(), v, |data|, access)).value[..done], data[..done])
      ensures done == 0 ==> bytes == old(bytes)
      ensures !ok && !useBus ==> done == 0
      ensures ok || !report ==> fault == old(fault)
      ensures !ok && report ==> fault.Some?
    {
      hide Addresses, AllBelow, Loaded, Flat, From, Stored;
      done := 0;
      var segments, failed := BuildSegments(Now(), v, |data|, access, physical);
      if failed.Some? {
        if report {
          Report(failed.value);
        }
        return false, 0;
      }
      NothingStored(bytes);
      forall k | 0 <= k < |segments|
        ensures segments[k].width > 0
      {
        assert Piece(segments, v, k);
      }
      if !useBus {
        var fits := CheckPieces(segments, physical, report);
        if !fits {
          return false, 0;
        }
      }
      ok, done := WritePieces(segments, v, data, useBus, physical, report);
    }

    /** The pieces of a write, one after the other. */
    method WritePieces(segments: seq<Segment>, v: nat, data: seq<Byte>, useBus: bool, physical: Exception, report: bool)
      returns (ok: bool, ghost done: nat)
      requires |Flat(segments)| == |data| && (forall k :: 0 <= k < |segments| ==> Piece(segments, v, k)) && data != []
      modifies `bytes, `fault
      ensures AllBelow(Flat(segments), |old(bytes)|) ==> ok
      ensures done <= |data| && (ok ==> done == |data|)
      ensures bytes == Stored(old(bytes), Flat(segments)[..done], data[..done])
      ensures ok || !report ==> fault == old(fault)
      ensures !ok && report ==> fault.Some?
    {
      hide AllBelow, Loaded, Flat, From, Stored;
      done := 0;
      NothingLoaded(bytes);
      NothingStored(bytes);
      for k := 0 to |segments|
        invariant fault == old(fault) && |bytes| == |old(bytes)| && Flat(segments[..k]) <= Flat(segments) && done == |Flat(segments[..k])| <= |data|
        invariant bytes == Stored(old(bytes), Flat(segments)[..done], data[..done])
      {
        var s := segments[k];
        assert Piece(segments, v, k);
        assert segments[..k + 1] == segments[..k] + [s];
        FlatMore(segments[..k], s);
        FlatPart(segments, k + 1);
        var part := data[s.offset..s.offset + s.width];
        ghost var before := bytes;
        var taken := WritePiece(s.physical, part, useBus);
        if !taken {
          SegmentTooHigh(segments, k, s, |bytes|);
          if report {
            Report(Fault(physical, s.virtual, Ok(s.physical)));
          }
          return false, done;
        }
        StoredParts(old(bytes), Flat(segments)[..done], From(s.physical, s.width), data[..done], part);
        assert data[..done] + part == data[..done + s.width];
        assert Flat(segments)[..done] + From(s.physical, s.width) == Flat(segments)[..done + s.width];
        done := done + s.width;
      }
      assert segments[..|segments|] == segments;
      return true, done;
    }

    /** execute_load: a fault changes no register. */
    method Load(destination: nat, address: nat, width: nat, signed: bool) returns (ok: bool)
      requires destination < |registers| && width <= 8
      modifies `registers, `fault
      ensures InMemory(Now(), address, width, Read) ==> ok
      ensures InMemory(Now(), address, width, Read) ==>
        var value := Value(Loaded(bytes, Addresses(Now(), address, width, Read).value));
        registers == old(registers)[destination := if signed then SignExtended(value, width) else value]
      ensures !ok ==> registers == old(registers) && fault.Some?
      ensures ok ==> fault == old(fault)
    {
      hide Addresses, AllBelow, Loaded, Value, SignExtended;
      var value := ReadMemory(address, width, Read, true, DataAccess, true);
      if value.None? {
        return false;
      }
      registers := registers[destination := if signed then SignExtended(Value(value.value), width) else Value(value.value)];
      return true;
    }

    /** execute_store: a page fault on any byte changes neither memory nor a register. */
    method Store(address: nat, source: nat, width: nat) returns (ok: bool, ghost done: nat)
      requires source < |registers|
      modifies `bytes, `fault
      ensures InMemory(old(Now()), address, width, Write) ==> ok && done == width
      ensures ok ==> Legal(address, width) && Addresses(old(Now()), address, width, Write).Some? && done == width
      ensures done > 0 ==> done <= width && Addresses(old(Now()), address, width, Write).Some?
      ensures done > 0 ==>
        bytes == Stored(old(bytes), Addresses(old(Now()), address, width, Write).value[..done], Encode(registers[source], width)[..done])
      ensures done == 0 ==> bytes == old(bytes)
      ensures !ok ==> fault.Some?
    {
      hide Addresses, AllBelow, Stored, Encode;
      ok, done := WriteMemory(address, Encode(registers[source], width), Write, true, DataAccess, true);
    }

    /** stack_push_u64: the word is written whole and the stack pointer moves, or nothing changes. */
    method Push(value: nat) returns (ok: bool)
      modifies `bytes, `sp, `fault
      ensures ok <==> old(sp) >= 8 && InMemory(old(Now()), old(sp) - 8, 8, Write)
      ensures !ok ==> bytes == old(bytes) && sp == old(sp) && fault.Some?
      ensures ok ==> sp == old(sp) - 8 && Addresses(old(Now()), sp, 8, Write).Some? && fault == old(fault)
      ensures ok ==> bytes == Stored(old(bytes), Addresses(old(Now()), sp, 8, Write).value, Encode(value, 8))
    {
      hide Addresses, AllBelow, Stored, Encode;
      if sp < 8 {
        Report(Fault(StackFault, sp, Ok(sp)));
        return false;
      }
      ghost var done;
      ok, done := WriteMemory(sp - 8, Encode(value, 8), Write, false, StackFault, true);
      if ok {
        ghost var a := Addresses(old(Now()), sp - 8, 8, Write).value;
        assert a[..8] == a && Encode(value, 8)[..8] == Encode(value, 8);
        sp := sp - 8;
      }
    }

    /** stack_pop_u64: the word at the stack pointer, which moves past it, or no change. */
    method Pop() returns (r: Option<nat>)
      modifies `sp, `fault
      ensures r.Some? <==> InMemory(old(Now()), old(sp), 8, Read)
      ensures r.Some? ==> r.value == Value(Loaded(bytes, Addresses(Now(), old(sp), 8, Read).value)) && fault == old(fault)
      ensures sp == if r.Some? then (old(sp) + 8) % ADDRESS_LIMIT else old(sp)
      ensures r.None? ==> fault.Some?
    {
      hide Addresses, AllBelow, Loaded, Value;
      var value := ReadMemory(sp, 8, Read, false, StackFault, true);
      if value.None? {
        return None;
      }
      sp := (sp + 8) % ADDRESS_LIMIT;
      return Some(Value(value.value));
    }

    /** What was pushed is popped, wherever the stack is not on the page tables that map it. */
    method PushThenPop(value: nat) returns (ok: bool, r: Option<nat>)
      requires value < ADDRESS_LIMIT && sp < ADDRESS_LIMIT
      modifies `bytes, `sp, `fault
      ensures ok ==> old(sp) >= 8
      ensures ok && Traps.Apart(old(Now()), old(sp) - 8, 8) ==> r == Some(value) && sp == old(sp)
      ensures !ok ==> bytes == old(bytes) && sp == old(sp)
    {
      hide Addresses, AllBelow, Stored, Encode, Loaded, Value, Traps.Apart;
      r := None;
      ok := Push(value);
      if ok {
        if Traps.Apart(old(Now()), sp, 8) {
          PushedWord(old(Now()), Now(), sp, value);
        }
        r := Pop();
      }
    }

    function Whole(): State
      reads this
    {
      State(Context(pc, sp, user, flags, ksp, active), bytes, mmu, ptbr)
    }

    /** ram_write_accessible for one word. */
    method Accessible(v: nat) returns (ok: bool)
      ensures ok <==> InMemory(Now(), v, 8, Write)
    {
      hide Addresses, AllBelow, Flat;
      var segments, failed := BuildSegments(Now(), v, 8, Write, StackFault);
      if failed.Some? {
        return false;
      }
      NothingLoaded(bytes);
      for k := 0 to |segments|
        invariant AllBelow(Flat(segments[..k]), |bytes|)
      {
        assert Piece(segments, v, k);
        assert segments[..k + 1] == segments[..k] + [segments[k]];
        FlatMore(segments[..k], segments[k]);
        LoadedMore(bytes, Flat(segments[..k]), segments[k].physical, segments[k].width);
        if segments[k].physical + segments[k].width > |bytes| {
          NotAllBelow(segments, k + 1, |bytes|);
          return false;
        }
      }
      assert segments[..|segments|] == segments;
      return true;
    }

    /** The words of a frame can all be written. */
    method FrameAccessible(frame: nat, count: nat) returns (ok: bool)
      ensures ok <==> forall k :: 0 <= k < count ==> WordWritable(Now(), frame, k)
    {
      hide InMemory;
      for k := 0 to count
        invariant forall j :: 0 <= j < k ==> WordWritable(Now(), frame, j)
      {
        var one := Accessible(frame + 8 * k);
        if !one {
          assert !WordWritable(Now(), frame, k);
          return false;
        }
      }
      return true;
    }

    /** The words of a frame are written one by one. */
    method WriteFrame(frame: nat, words: seq<nat>) returns (ok: bool)
      requires 8 * |words| <= PAGE && words != [] && forall k :: 0 <= k < |words| ==> WordWritable(Now(), frame, k)
      modifies `bytes, `fault
      ensures |bytes| == |old(bytes)| && fault == old(fault)
      ensures Addresses(old(Now()), frame, 8 * |words|, Write).Some?
      ensures Traps.Apart(old(Now()), frame, 8 * |words|) ==> ok && FrameWritten(old(Now()), Now(), frame, words)
    {
      hide Addresses, AllBelow, Stored, Encode, FrameBytes, Traps.Apart;
      ghost var m, size, data := Now(), 8 * |words|, FrameBytes(words);
      FrameAddresses(m, frame, |words|);
      ghost var a := Addresses(m, frame, size, Write).value;
      assert a[..0] == [] && data[..0] == [];
      NothingStored(bytes);
      for k := 0 to |words|
        invariant |bytes| == |m.bytes| && fault == old(fault)
        invariant Traps.Apart(m, frame, size) ==> bytes == Stored(m.bytes, a[..8 * k], data[..8 * k])
      {
        ghost var before := bytes;
        if Traps.Apart(m, frame, size) {
          FramePart(m, frame, size, a, 8 * k, data);
          AddressesPart(Now(), frame, size, Write, 8 * k, 8);
          PartBelow(a, 8 * k, 8, |bytes|);
          assert WordWritable(m, frame, k);
        }
        ghost var done;
        ok, done := WriteMemory(frame + 8 * k, Encode(words[k], 8), Write, false, StackFault, false);
        if !ok {
          return;
        }
        if Traps.Apart(m, frame, size) {
          FrameWord(words, k);
          FrameStep(m.bytes, before, bytes, a, data, k);
        }
      }
      assert a[..size] == a && data[..size] == data;
      if Traps.Apart(m, frame, size) {
        FramePart(m, frame, size, a, size, data);
      }
      return true;
    }

    /** The words of a frame, all or, if the stack is apart from its page tables, none. */
    method SaveFrame(frame: nat, words: seq<nat>) returns (ok: bool)
      requires 8 * |words| <= PAGE && words != []
      modifies `bytes, `fault
      ensures fault == old(fault)
      ensures Traps.Apart(old(Now()), frame, 8 * |words|) ==> if ok then FrameSaved(old(Now()), Now(), frame, words) else bytes == old(bytes)
    {
      hide Addresses, AllBelow, Stored, FrameBytes, Traps.Apart, WordWritable;
      ok := FrameAccessible(frame, |words|);
      if ok {
        FrameAddresses(Now(), frame, |words|);
        ok := WriteFrame(frame, words);
      }
    }

    /** The words that a trap saves. */
    function FrameWords(address: nat, exception: bool): seq<nat>
      reads this
    {
      var c := Whole().context;
      [address, SavedFlags(c, exception)] + if user then [sp] else []
    }

    /** enter_privileged_handler. A failure leaves the context as it was, and memory too unless the frame lies on the
        page tables that map it. */
    method EnterHandler(handler: nat, address: nat, exception: bool) returns (ok: bool)
      requires flags < FLAG_LIMIT && address < ADDRESS_LIMIT && sp < ADDRESS_LIMIT && ksp < ADDRESS_LIMIT
      modifies this
      ensures mmu == old(mmu) && ptbr == old(ptbr) && registers == old(registers) && active == old(active)
      ensures !ok ==> Whole().context == old(Whole().context) && fault.Some?
      ensures ok ==> old(FrameTop(Whole().context) >= FrameSize(Whole().context)) && fault == old(fault)
      ensures ok ==> Whole().context == old(Entered(Whole().context, handler, false))
      ensures old(FrameTop(Whole().context) >= FrameSize(Whole().context) && StackApart(Whole())) && !ok ==> bytes == old(bytes)
      ensures ok && old(StackApart(Whole())) ==> FrameHolds(Whole(), sp, old(Whole().context), address, exception)
      ensures ok && old(StackApart(Whole())) ==> Elsewhere(Supervisor(old(Whole())), sp, FrameSize(old(Whole().context)), bytes)
    {
      hide Addresses, AllBelow, Stored, Encode, FrameBytes, Traps.Apart, WordRead, Traps.FrameHolds, FrameSaved, SavedFlags, Elsewhere;
      ghost var whole := Whole();
      var previous := user;
      var top, size := FrameTop(Whole().context), FrameSize(Whole().context);
      var words := FrameWords(address, exception);
      if top < size {
        Report(Fault(StackFault, top, Ok(top)));
        return false;
      }
      var frame := top - size;
      user := false;
      var written := SaveFrame(frame, words);
      if !written {
        user := previous;
        Report(Fault(StackFault, frame, Ok(frame)));
        return false;
      }
      sp, flags, pc, waiting := frame, WithoutInterrupts(flags), handler, false;
      if StackApart(whole) {
        FrameIsThere(whole, Whole(), frame, words, address, exception);
        OnlyTheFrame(Supervisor(whole), Supervisor(Whole()), frame, words);
      }
      return true;
    }

    /** An interrupt: its handler returns to the instruction that would have come next. */
    method TakeInterrupt(handler: nat) returns (ok: bool)
      requires flags < FLAG_LIMIT && pc < ADDRESS_LIMIT && sp < ADDRESS_LIMIT && ksp < ADDRESS_LIMIT
      modifies this
      ensures !ok ==> Whole().context == old(Whole().context) && fault.Some?
      ensures ok && old(StackApart(Whole())) ==> Enters(old(Whole()), Whole(), handler, old(pc), false)
    {
      hide Traps.FrameHolds, StackApart, Elsewhere;
      ok := EnterHandler(handler, pc, false);
    }

    /** deliver_exception, for the handler found in the vector table. While an exception is handled none is delivered. */
    method DeliverException(handler: Option<nat>, epc: nat) returns (ok: bool)
      requires flags < FLAG_LIMIT && epc < ADDRESS_LIMIT && sp < ADDRESS_LIMIT && ksp < ADDRESS_LIMIT && fault.Some?
      modifies this
      ensures !ok ==> Whole().context == old(Whole().context) && fault.Some?
      ensures ok ==> handler.Some? && !old(active) && active && fault.None?
      ensures ok && old(StackApart(Whole())) ==> Enters(old(Whole()), Whole(), handler.value, epc, true)
    {
      hide WordRead, StackApart, Elsewhere;
      if active || handler.None? {
        return false;
      }
      ok := EnterHandler(handler.value, epc, true);
      if ok {
        ghost var t := Whole();
        fault, active := None, true;
        SameWords(t, Whole());
      }
    }

    /** instruction_address_valid_for_mode, for instructions in memory. */
    function Fetchable(address: nat, user: bool): bool
      reads this
    {
      var r := CpuMemory.Translate(Machine(bytes, mmu, ptbr, user), address, Execute);
      r.Ok? && r.physical < |bytes|
    }

    /** A word of the frame, read in supervisor mode. */
    method ReadWord(v: nat) returns (r: Option<nat>)
      requires !user
      modifies `fault
      ensures r == WordRead(Whole(), v) && (r.Some? ==> fault == old(fault))
    {
      hide Addresses, AllBelow, Loaded, Value;
      var value := ReadMemory(v, 8, Read, false, StackFault, true);
      if value.None? {
        return None;
      }
      return Some(Value(value.value));
    }

    /** execute_iret */
    method Return() returns (ok: bool)
      modifies this
      ensures ok ==> Returns(old(Whole()), Whole()) && fault == old(fault)
      ensures !ok ==> Whole() == old(Whole())
      ensures old(CanReturn(Whole())) && old(Fetchable(ReturnAddress(Whole()), ReturnsToUser(Whole()))) ==> ok
    {
      hide WordRead, Restored;
      if user {
        Report(Fault(InstructionAccess, pc, Ok(pc)));
        return false;
      }
      if sp > LAST - 8 {
        return false;
      }
      var address := ReadWord(sp);
      if address.None? {
        return false;
      }
      var saved := ReadWord(sp + 8);
      if saved.None? {
        return false;
      }
      var toUser := FromUser(saved.value);
      var userSp := 0;
      if toUser {
        if sp > LAST - 24 {
          return false;
        }
        var word := ReadWord(sp + 16);
        if word.None? {
          return false;
        }
        userSp := word.value;
      } else if sp > LAST - 16 {
        Report(Fault(StackFault, sp, Ok(sp)));
        return false;
      }
      if !Fetchable(address.value, toUser) {
        Report(Fault(InstructionAccess, address.value, Ok(address.value)));
        return false;
      }
      var c := Restored(Whole().context, address.value, saved.value, userSp);
      pc, sp, user, flags, ksp, active := c.pc, c.sp, c.user, c.flags, c.ksp, c.active;
      return true;
    }
  }

  lemma PushedWord(m: Machine, n: Machine, v: nat, value: nat)
    requires InMemory(m, v, 8, Write) && Traps.Apart(m, v, 8) && value < ADDRESS_LIMIT
    requires n == Machine(Stored(m.bytes, Addresses(m, v, 8, Write).value, Encode(value, 8)), m.mmu, m.ptbr, m.user)
    ensures InMemory(n, v, 8, Read) && Value(Loaded(n.bytes, Addresses(n, v, 8, Read).value)) == value
  {
    hide Addresses, AllBelow, Stored, Encode, Loaded, Value, Traps.Apart, Power256;
    var a, data := Addresses(m, v, 8, Write).value, Encode(value, 8);
    assert a[..8] == a && data[..8] == data;
    FramePart(m, v, 8, a, 8, data);
    WritableAddresses(n, v, 8);
    forall i, j | 0 <= i < j < |a|
      ensures a[i] != a[j]
    {
      AddressesDistinct(m, v, 8, Write, i, j);
    }
    LoadStored(m.bytes, a, data);
    EightBytes();
    DecodeEncode(value, 8);
  }

  const LAST: nat := 0xFFFF_FFFF_FFFF_FFFF

  lemma SameWords(s: State, t: State)
    requires t == s.(context := t.context)
    ensures forall v: nat :: WordRead(t, v) == WordRead(s, v)
  {
  }

  /** The frame at the stack pointer is whole and can be read. */
  ghost predicate CanReturn(s: State) {
    && !s.context.user && WordRead(s, s.context.sp).Some? && WordRead(s, s.context.sp + 8).Some?
    && s.context.sp <= LAST - (if ReturnsToUser(s) then 24 else 16)
    && (ReturnsToUser(s) ==> WordRead(s, s.context.sp + 16).Some?)
  }

  ghost function ReturnAddress(s: State): nat {
    if WordRead(s, s.context.sp).Some? then WordRead(s, s.context.sp).value else 0
  }

  ghost predicate ReturnsToUser(s: State) {
    WordRead(s, s.context.sp + 8).Some? && FromUser(WordRead(s, s.context.sp + 8).value)
  }

  /** The stack that a trap in `s` would use does not lie on the page tables that map it. */
  ghost predicate StackApart(s: State) {
    FrameTop(s.context) >= FrameSize(s.context) ==>
      Traps.Apart(Supervisor(s), FrameTop(s.context) - FrameSize(s.context), FrameSize(s.context))
  }

  lemma FrameIsThere(s: State, t: State, frame: nat, words: seq<nat>, address: nat, exception: bool)
    requires words == [address, SavedFlags(s.context, exception)] + (if s.context.user then [s.context.sp] else [])
    requires address < ADDRESS_LIMIT && s.context.sp < ADDRESS_LIMIT && frame + 8 * |words| <= ADDRESS_LIMIT
    requires t.mmu == s.mmu && t.ptbr == s.ptbr && FrameSaved(Supervisor(s), Supervisor(t), frame, words)
    ensures FrameHolds(t, frame, s.context, address, exception)
  {
    hide Addresses, AllBelow, Stored, Encode, FrameBytes, WordRead;
    var a := Addresses(Supervisor(s), frame, 8 * |words|, Write).value;
    FrameReadBack(t, s.bytes, frame, words, a, 0);
    FrameReadBack(t, s.bytes, frame, words, a, 1);
    if s.context.user {
      FrameReadBack(t, s.bytes, frame, words, a, 2);
    }
  }

  /** Nothing but the frame is written. */
  lemma OnlyTheFrame(m: Machine, n: Machine, frame: nat, words: seq<nat>)
    requires 8 * |words| <= PAGE && FrameSaved(m, n, frame, words)
    ensures Elsewhere(m, frame, 8 * |words|, n.bytes)
  {
    hide Addresses, AllBelow, Stored, FrameBytes;
    var a := Addresses(m, frame, 8 * |words|, Write).value;
    forall i, j | 0 <= i < j < |a|
      ensures a[i] != a[j]
    {
      AddressesDistinct(m, frame, 8 * |words|, Write, i, j);
    }
    StoredExactly(m.bytes, a, FrameBytes(words));
  }

  /** The frame is in memory, where it was to be, and can still be reached. */
  ghost predicate FrameWritten(m: Machine, n: Machine, frame: nat, words: seq<nat>) {
    var a := Addresses(m, frame, 8 * |words|, Write);
    a.Some? && n.bytes == Stored(m.bytes, a.value, FrameBytes(words)) && Addresses(n, frame, 8 * |words|, Write) == a
  }

  ghost predicate FrameSaved(m: Machine, n: Machine, frame: nat, words: seq<nat>) {
    FrameWritten(m, n, frame, words) && AllBelow(Addresses(m, frame, 8 * |words|, Write).value, |m.bytes|)
  }

  lemma {:induction false} FrameAddresses(m: Machine, frame: nat, count: nat)
    requires forall k :: 0 <= k < count ==> WordWritable(m, frame, k)
    ensures Addresses(m, frame, 8 * count, Write).Some? && AllBelow(Addresses(m, frame, 8 * count, Write).value, |m.bytes|)
  {
    hide Addresses;
    if count == 0 {
      assert Addresses(m, frame, 0, Write) == Some([]) by { NoPieces(m, frame, Write); }
    } else {
      FrameAddresses(m, frame, count - 1);
      assert WordWritable(m, frame, count - 1);
      AddressesJoin(m, frame, 8 * (count - 1), 8, Write);
    }
  }

  lemma PartBelow(a: seq<nat>, i: nat, n: nat, limit: nat)
    requires i + n <= |a| && AllBelow(a, limit)
    ensures AllBelow(a[i..i + n], limit)
  {
  }

  /** One more word of the frame. */
  lemma FrameStep(start: seq<Byte>, before: seq<Byte>, after: seq<Byte>, a: seq<nat>, data: seq<Byte>, k: nat)
    requires |a| == |data| && 8 * k + 8 <= |a|
    requires before == Stored(start, a[..8 * k], data[..8 * k]) && after == Stored(before, a[8 * k..8 * k + 8][..8], data[8 * k..8 * k + 8][..8])
    ensures after == Stored(start, a[..8 * (k + 1)], data[..8 * (k + 1)])
  {
    hide Stored;
    var i := 8 * k;
    assert a[i..i + 8][..8] == a[i..i + 8] && data[i..i + 8][..8] == data[i..i + 8];
    StoredParts(start, a[..i], a[i..i + 8], data[..i], data[i..i + 8]);
    assert a[..i] + a[i..i + 8] == a[..8 * (k + 1)] && data[..i] + data[i..i + 8] == data[..8 * (k + 1)];
  }

  ghost predicate WordWritable(m: Machine, frame: nat, k: nat) {
    InMemory(m, frame + 8 * k, 8, Write)
  }

  lemma NothingStored(bytes: seq<Byte>)
    ensures Stored(bytes, [], []) == bytes
  {
  }

  lemma NotAllBelow(segments: seq<Segment>, k: nat, n: nat)
    requires k <= |segments| && !AllBelow(Flat(segments[..k]), n)
    ensures !AllBelow(Flat(segments), n)
  {
    FlatPart(segments, k);
    if AllBelow(Flat(segments), n) {
      PrefixBelow(Flat(segments[..k]), Flat(segments), n);
    }
  }

  lemma SegmentTooHigh(segments: seq<Segment>, k: nat, s: Segment, n: nat)
    requires k < |segments| && s == segments[k] && s.width > 0 && s.physical + s.width > n
    ensures !AllBelow(Flat(segments), n)
  {
    hide AllBelow;
    assert segments[..k + 1] == segments[..k] + [s];
    FlatMore(segments[..k], s);
    var bytes: seq<Byte> := seq(n, _ => 0);
    LoadedMore(bytes, Flat(segments[..k]), s.physical, s.width);
    NotAllBelow(segments, k + 1, n);
  }

  lemma NothingLoaded(bytes: seq<Byte>)
    ensures Flat([]) == [] && AllBelow([], |bytes|) && Loaded(bytes, []) == []
  {
  }

  /** The addresses of the first pieces are the first of all addresses. */
  lemma {:induction false} FlatPart(segments: seq<Segment>, k: nat)
    requires k <= |segments|
    ensures Flat(segments[..k]) <= Flat(segments)
    decreases |segments| - k
  {
    if k < |segments| {
      assert segments[..k + 1] == segments[..k] + [segments[k]];
      FlatMore(segments[..k], segments[k]);
      FlatPart(segments, k + 1);
    } else {
      assert segments[..k] == segments;
    }
  }
}
