/** Memory accesses of the processor through the MMU (src/cpu.c): a run of bytes that may cross a page. */
module CpuMemory {
  import opened Options
  import opened PageTables

  const ADDRESS_LIMIT: nat := 0x1_0000_0000_0000_0000
  /** The widest access, that of a vector register. */
  const WIDEST: nat := 16

  type Byte = x: int | 0 <= x < 256

  /** What the outcome of an access depends on: memory, and how addresses are translated. */
  datatype Machine = Machine(bytes: seq<Byte>, mmu: bool, ptbr: nat, user: bool)

  // ---------------------------------------------------------------- memory as the walker sees it

  function Power256(n: nat): (r: nat)
    ensures r > 0
  {
    if n == 0 then 1 else 256 * Power256(n - 1)
  }

  /** The number that bytes stand for, least significant byte first. */
  function Value(s: seq<Byte>): (r: nat)
    ensures r < Power256(|s|)
  {
    if s == [] then 0 else (s[0] as nat) + 256 * Value(s[1..])
  }

  /** sign_extend: the bits above `width` bytes are copies of the topmost one below. */
  function SignExtended(v: nat, width: nat): nat
    requires width <= 8
  {
    if v < Power256(width) / 2 || v >= Power256(width) then v else v + (Power256(8) - Power256(width))
  }

  /** What `v` stands for as a signed number of `width` bytes. */
  function Signed(v: nat, width: nat): int {
    if v < Power256(width) / 2 then v else v - Power256(width)
  }

  /** A longer register holds the same signed number. */
  lemma SignKept(v: nat, width: nat)
    requires 0 < width <= 8 && v < Power256(width)
    ensures Signed(SignExtended(v, width), 8) == Signed(v, width) && SignExtended(v, width) < Power256(8)
  {
    PowerGrows(width, 8);
  }

  lemma {:induction false} PowerGrows(n: nat, m: nat)
    requires n <= m
    ensures Power256(n) <= Power256(m) && (n > 0 ==> Power256(n) % 2 == 0)
    decreases m
  {
    if n < m {
      PowerGrows(n, m - 1);
    } else if n > 0 {
      assert Power256(n) == 256 * Power256(n - 1);
    }
  }

  /** The first `n` bytes of a number. */
  function Encode(w: nat, n: nat): (s: seq<Byte>)
    ensures |s| == n
  {
    if n == 0 then [] else [w % 256] + Encode(w / 256, n - 1)
  }

  /** A number that fits is what its bytes stand for. */
  lemma {:induction false} DecodeEncode(w: nat, n: nat)
    requires w < Power256(n)
    ensures Value(Encode(w, n)) == w
  {
    if n > 0 {
      DecodeEncode(w / 256, n - 1);
      assert Encode(w, n)[1..] == Encode(w / 256, n - 1);
    }
  }

  /** The little-endian word at `a`. */
  function WordAt(bytes: seq<Byte>, a: nat): Word
    requires a + 8 <= |bytes|
  {
    EightBytes();
    Value(bytes[a..a + 8])
  }

  lemma EightBytes()
    ensures Power256(8) == 0x1_0000_0000_0000_0000
  {
    assert Power256(4) == 0x1_0000_0000;
  }

  function FrameAt(bytes: seq<Byte>, t: nat): Frame
    requires (t + 1) * PAGE <= |bytes|
  {
    seq(ENTRIES, i requires 0 <= i < ENTRIES => WordAt(bytes, t * PAGE + i * 8))
  }

  function RamOf(bytes: seq<Byte>): (r: Ram)
    ensures Formed(r) && r.size == |bytes|
  {
    Ram(|bytes|, seq(|bytes| / PAGE, t requires 0 <= t < |bytes| / PAGE => FrameAt(bytes, t)))
  }

  // ---------------------------------------------------------------- one address

  /** translate_address for one byte. */
  function Translate(m: Machine, v: nat, access: Access): Result {
    if !m.mmu then Ok(v) else Translation(RamOf(m.bytes), m.ptbr, m.user, v, access)
  }

  /** Inside a page translation keeps distances, and a fault is the fault of the whole page. */
  lemma TranslateLinear(m: Machine, v: nat, d: nat, access: Access)
    requires v % PAGE + d < PAGE
    ensures Translate(m, v + d, access) == if Translate(m, v, access).Ok? then Ok(Translate(m, v, access).physical + d) else Translate(m, v, access)
  {
    hide Walk, RamOf, Span, Granted, Fits, Target;
    if m.mmu {
      var w := v + d;
      SamePage(v, d);
      var ram := RamOf(m.bytes);
      SameSide(v, w);
      if TableAt(ram, m.ptbr) {
        SamePageWalk(ram, m.ptbr / PAGE, v, w, 2);
        OffsetKept(v, d);
      }
    }
  }

  lemma SamePage(v: nat, d: nat)
    requires v % 0x1000 + d < 0x1000
    ensures (v + d) / 0x1000 == v / 0x1000 && (v + d) % 0x1000 == v % 0x1000 + d
  {
  }

  lemma SameSide(v: nat, w: nat)
    requires v / 0x1000 == w / 0x1000
    ensures w < 0x80_0000_0000 <==> v < 0x80_0000_0000
  {
  }

  lemma OffsetKept(v: nat, d: nat)
    requires v % PAGE + d < PAGE
    ensures forall level: nat :: level <= 2 ==> (v + d) % Span(level) == v % Span(level) + d
  {
    LargeOffset(v, d);
    GigaOffset(v, d);
  }

  lemma LargeOffset(v: nat, d: nat)
    requires v % 0x1000 + d < 0x1000
    ensures (v + d) % 0x20_0000 == v % 0x20_0000 + d
  {
    assert v % 0x20_0000 % 0x1000 == v % 0x1000;
  }

  lemma GigaOffset(v: nat, d: nat)
    requires v % 0x1000 + d < 0x1000
    ensures (v + d) % 0x4000_0000 == v % 0x4000_0000 + d
  {
    assert v % 0x4000_0000 % 0x1000 == v % 0x1000;
  }

  // ---------------------------------------------------------------- a run of bytes

  /** Byte `i` of an access, translated on its own. */
  function Single(m: Machine, v: nat, i: nat, access: Access): Result {
    Translate(m, v + i, access)
  }

  /** Where the bytes of an access go, each address translated on its own; none if one of them faults. */
  function Addresses(m: Machine, v: nat, width: nat, access: Access): (r: Option<seq<nat>>)
    ensures r.Some? ==> |r.value| == width && forall i :: 0 <= i < width ==> Single(m, v, i, access) == Ok(r.value[i])
    ensures r.None? ==> exists i :: 0 <= i < width && !Single(m, v, i, access).Ok?
  {
    if width == 0 then Some([])
    else
      match Addresses(m, v, width - 1, access)
      case None => None
      case Some(s) =>
        var last := Single(m, v, width - 1, access);
        if last.Ok? then Some(s + [last.physical]) else None
  }

  datatype Segment = Segment(virtual: nat, physical: nat, width: nat, offset: nat)

  datatype Exception = StackFault | DataAccess | InstructionAccess | PageFault(access: Access)

  /** A fault as it is recorded: what, where, and what the walker said. */
  datatype Fault = Fault(exception: Exception, address: nat, result: Result)

  /** The addresses from `p` on. */
  function From(p: nat, n: nat): (s: seq<nat>)
    ensures |s| == n && forall i :: 0 <= i < n ==> s[i] == p + i
  {
    seq(n, i requires 0 <= i < n => p + i)
  }

  function Flat(segments: seq<Segment>): seq<nat> {
    if segments == [] then [] else Flat(segments[..|segments| - 1]) + From(segments[|segments| - 1].physical, segments[|segments| - 1].width)
  }

  lemma AddressesAre(m: Machine, v: nat, width: nat, access: Access, s: seq<nat>)
    requires |s| == width && forall i :: 0 <= i < width ==> Single(m, v, i, access) == Ok(s[i])
    ensures Addresses(m, v, width, access) == Some(s)
  {
    hide Single;
    var r := Addresses(m, v, width, access);
    assert r.Some?;
    assert forall i :: 0 <= i < width ==> Ok(r.value[i]) == Ok(s[i]);
    assert r.value == s;
  }

  lemma AddressesFault(m: Machine, v: nat, width: nat, access: Access, i: nat)
    requires i < width && !Single(m, v, i, access).Ok?
    ensures Addresses(m, v, width, access).None?
  {
    hide Single;
  }

  /** A chunk inside one page is translated as a whole. */
  lemma ChunkAddresses(m: Machine, v: nat, done: nat, chunk: nat, access: Access, p: nat)
    requires Addresses(m, v, done, access).Some? && (v + done) % PAGE + chunk <= PAGE && Translate(m, v + done, access) == Ok(p)
    ensures Addresses(m, v, done + chunk, access) == Some(Addresses(m, v, done, access).value + From(p, chunk))
  {
    hide Translate;
    var s := Addresses(m, v, done, access).value + From(p, chunk);
    forall i | 0 <= i < done + chunk
      ensures Single(m, v, i, access) == Ok(s[i])
    {
      if i >= done {
        TranslateLinear(m, v + done, i - done, access);
      }
    }
    AddressesAre(m, v, done + chunk, access, s);
  }

  predicate Legal(v: nat, width: nat) {
    0 < width <= WIDEST && v + (width - 1) < ADDRESS_LIMIT
  }

  /** build_memory_segments: at most two pieces, one per page, that together are the addresses the bytes
      translate to one by one. */
  method BuildSegments(m: Machine, v: nat, width: nat, access: Access, physical: Exception) returns (segments: seq<Segment>, fault: Option<Fault>)
    ensures fault.None? <==> Legal(v, width) && (m.mmu ==> Addresses(m, v, width, access).Some?)
    ensures fault.None? ==> |segments| <= 2 && Addresses(m, v, width, access) == Some(Flat(segments))
    ensures fault.None? ==> forall k :: 0 <= k < |segments| ==> Piece(segments, v, k)
    ensures fault.Some? && Legal(v, width) ==> !fault.value.result.Ok? && fault.value.result == Translate(m, fault.value.address, access)
  {
    hide Translate, Addresses, Flat, Piece;
    segments, fault := [], None;
    if !Legal(v, width) {
      return [], Some(if m.mmu then Fault(PageFault(access), v, InvalidVirtualAddress) else Fault(physical, v, Ok(v)));
    }
    if !m.mmu {
      OnePiece(m, v, width, access);
      segments := [Segment(v, v, width, 0)];
      return;
    }
    var done: nat := 0;
    NoPieces(m, v, access);
    while done < width
      invariant done <= width && |segments| <= 2 && Addresses(m, v, done, access) == Some(Flat(segments)) && |Flat(segments)| == done
      invariant forall k :: 0 <= k < |segments| ==> Piece(segments, v, k)
      invariant |segments| == 0 ==> done == 0
      invariant |segments| == 1 && done < width ==> (v + done) % PAGE == 0
      invariant |segments| == 2 ==> done == width
    {
      var chunk := Chunk(v + done, width - done);
      var r := Translate(m, v + done, access);
      if !r.Ok? {
        AddressesFault(m, v, width, access, done);
        return segments, Some(Fault(PageFault(access), v + done, r));
      }
      var piece := Segment(v + done, r.physical, chunk, done);
      ChunkAddresses(m, v, done, chunk, access, r.physical);
      FlatMore(segments, piece);
      MorePieces(segments, v, piece);
      segments := segments + [piece];
      done := done + chunk;
    }
  }

  /** As much of `remaining` bytes as the page of `cursor` holds. */
  function Chunk(cursor: nat, remaining: nat): (n: nat)
    requires 0 < remaining <= WIDEST
    ensures 0 < n <= remaining && cursor % PAGE + n <= PAGE
    ensures n < remaining ==> (cursor + n) % PAGE == 0
    ensures cursor % PAGE == 0 ==> n == remaining
  {
    var room := PAGE - cursor % PAGE;
    if remaining < room then remaining else room
  }

  lemma NoPieces(m: Machine, v: nat, access: Access)
    ensures Flat([]) == [] && Addresses(m, v, 0, access) == Some([])
  {
  }

  lemma FlatMore(segments: seq<Segment>, s: Segment)
    ensures Flat(segments + [s]) == Flat(segments) + From(s.physical, s.width)
  {
    assert (segments + [s])[..|segments|] == segments;
  }

  lemma MorePieces(segments: seq<Segment>, v: nat, s: Segment)
    requires (forall k :: 0 <= k < |segments| ==> Piece(segments, v, k)) && s.width > 0 && s.virtual == v + s.offset && s.offset == |Flat(segments)|
    ensures forall k :: 0 <= k < |segments| + 1 ==> Piece(segments + [s], v, k)
  {
    var all := segments + [s];
    assert all[..|segments|] == segments;
    forall k | 0 <= k < |segments| + 1
      ensures Piece(all, v, k)
    {
      if k < |segments| {
        assert Piece(segments, v, k) && all[..k] == segments[..k];
      }
    }
  }

  /** Piece `k` starts where the one before ends. */
  ghost predicate Piece(segments: seq<Segment>, v: nat, k: nat)
    requires k < |segments|
  {
    && segments[k].width > 0 && segments[k].virtual == v + segments[k].offset && segments[k].offset == |Flat(segments[..k])|
  }

  lemma OnePiece(m: Machine, v: nat, width: nat, access: Access)
    requires !m.mmu && width > 0
    ensures Addresses(m, v, width, access) == Some(Flat([Segment(v, v, width, 0)])) && Piece([Segment(v, v, width, 0)], v, 0)
  {
    AddressesAre(m, v, width, access, From(v, width));
    FlatMore([], Segment(v, v, width, 0));
    assert [] + [Segment(v, v, width, 0)] == [Segment(v, v, width, 0)];
    assert [] + From(v, width) == From(v, width);
  }

  // ---------------------------------------------------------------- where the bytes are

  /** Translation keeps the place in the page. */
  lemma SameOffset(m: Machine, v: nat, access: Access)
    ensures Translate(m, v, access).Ok? ==> Translate(m, v, access).physical % PAGE == v % PAGE
  {
    hide Walk, RamOf, Granted, Fits;
    if m.mmu && Translate(m, v, access).Ok? {
      var f := Walk(RamOf(m.bytes), m.ptbr / PAGE, v, 2);
      SpanOffset(v, f.level, Target(f.entry));
    }
  }

  lemma SpanOffset(v: nat, level: nat, frame: nat)
    requires level <= 2
    ensures (frame * PAGE + v % Span(level)) % PAGE == v % PAGE
  {
    FrameOffset(frame, v % Span(level));
    ModPage(v);
  }

  lemma FrameOffset(frame: nat, x: nat)
    ensures (frame * 0x1000 + x) % 0x1000 == x % 0x1000
  {
  }

  lemma ModPage(v: nat)
    ensures v % 0x20_0000 % 0x1000 == v % 0x1000 && v % 0x4000_0000 % 0x1000 == v % 0x1000
  {
  }

  /** The bytes of one access lie at different places. */
  lemma AddressesDistinct(m: Machine, v: nat, width: nat, access: Access, i: nat, j: nat)
    requires Addresses(m, v, width, access).Some? && width <= PAGE && i < j < width
    ensures Addresses(m, v, width, access).value[i] != Addresses(m, v, width, access).value[j]
  {
    hide Addresses, Translate;
    var a := Addresses(m, v, width, access).value;
    assert Single(m, v, i, access) == Ok(a[i]) && Single(m, v, j, access) == Ok(a[j]);
    SameOffset(m, v + i, access);
    SameOffset(m, v + j, access);
    NearOffsets(v + i, j - i);
  }

  lemma NearOffsets(a: nat, d: nat)
    requires 0 < d < 0x1000
    ensures a % 0x1000 != (a + d) % 0x1000
  {
  }

  /** Memory after `data` is put at the addresses `a`; addresses beyond memory belong to devices. */
  function Stored(bytes: seq<Byte>, a: seq<nat>, data: seq<Byte>): (r: seq<Byte>)
    requires |data| == |a|
    ensures |r| == |bytes|
  {
    if a == [] then bytes
    else
      var n := |a| - 1;
      var s := Stored(bytes, a[..n], data[..n]);
      if a[n] < |bytes| then s[a[n] := data[n]] else s
  }

  /** Each byte is where it should be, and nothing else changed. */
  lemma {:induction false} StoredExactly(bytes: seq<Byte>, a: seq<nat>, data: seq<Byte>)
    requires |data| == |a| && forall i, j :: 0 <= i < j < |a| ==> a[i] != a[j]
    ensures forall i :: 0 <= i < |a| && a[i] < |bytes| ==> Stored(bytes, a, data)[a[i]] == data[i]
    ensures forall k :: 0 <= k < |bytes| && k !in a ==> Stored(bytes, a, data)[k] == bytes[k]
    decreases |a|
  {
    if a != [] {
      var n := |a| - 1;
      var rest, s, r := a[..n], Stored(bytes, a[..n], data[..n]), Stored(bytes, a, data);
      StoredExactly(bytes, rest, data[..n]);
      assert r == if a[n] < |bytes| then s[a[n] := data[n]] else s;
      hide Stored;
      forall i | 0 <= i < n && a[i] < |bytes|
        ensures r[a[i]] == data[i]
      {
        assert rest[i] == a[i] && data[..n][i] == data[i] && s[rest[i]] == data[..n][i];
      }
      forall k | 0 <= k < |bytes| && k !in a
        ensures r[k] == bytes[k]
      {
        assert k !in rest && a[n] in a;
      }
    }
  }

  /** Storing in two parts is storing. */
  lemma {:induction false} StoredParts(bytes: seq<Byte>, a: seq<nat>, b: seq<nat>, x: seq<Byte>, y: seq<Byte>)
    requires |x| == |a| && |y| == |b|
    ensures Stored(Stored(bytes, a, x), b, y) == Stored(bytes, a + b, x + y)
    decreases |b|
  {
    if b == [] {
      assert a + b == a && x + y == x;
    } else {
      var n := |b| - 1;
      StoredParts(bytes, a, b[..n], x, y[..n]);
      assert (a + b)[..|a + b| - 1] == a + b[..n] && (x + y)[..|a + b| - 1] == x + y[..n];
    }
  }

  /** All addresses are below `n`. */
  ghost predicate AllBelow(a: seq<nat>, n: nat) {
    forall i :: 0 <= i < |a| ==> a[i] < n
  }

  /** What a read sees at the addresses. */
  ghost function Loaded(bytes: seq<Byte>, a: seq<nat>): (r: seq<Byte>)
    requires AllBelow(a, |bytes|)
    ensures |r| == |a| && forall i :: 0 <= i < |a| ==> r[i] == bytes[a[i]]
  {
    seq(|a|, i requires 0 <= i < |a| => bytes[a[i]])
  }

  /** Bytes that were stored are read back. */
  lemma LoadStored(bytes: seq<Byte>, a: seq<nat>, data: seq<Byte>)
    requires |data| == |a| && (forall i, j :: 0 <= i < j < |a| ==> a[i] != a[j]) && AllBelow(a, |bytes|)
    ensures Loaded(Stored(bytes, a, data), a) == data
  {
    StoredExactly(bytes, a, data);
  }

  /** Where a store is allowed a load is too, and finds the same byte: a leaf that is writable but not readable
      is malformed. */
  lemma WritableIsReadable(m: Machine, v: nat)
    ensures Translate(m, v, Write).Ok? ==> Translate(m, v, Read) == Translate(m, v, Write)
  {
    hide Walk, RamOf, Fits;
  }

  lemma WritableAddresses(m: Machine, v: nat, width: nat)
    ensures Addresses(m, v, width, Write).Some? ==> Addresses(m, v, width, Read) == Addresses(m, v, width, Write)
  {
    hide Translate;
    if Addresses(m, v, width, Write).Some? {
      var a := Addresses(m, v, width, Write).value;
      forall i | 0 <= i < width
        ensures Single(m, v, i, Read) == Ok(a[i])
      {
        assert Single(m, v, i, Write) == Ok(a[i]);
        WritableIsReadable(m, v + i);
      }
      AddressesAre(m, v, width, Read, a);
    }
  }

  /** One piece more. */
  lemma LoadedMore(bytes: seq<Byte>, a: seq<nat>, p: nat, width: nat)
    requires width > 0
    ensures AllBelow(a + From(p, width), |bytes|) <==> AllBelow(a, |bytes|) && p + width <= |bytes|
    ensures p + width <= |bytes| ==> AllBelow(From(p, width), |bytes|)
    ensures AllBelow(a + From(p, width), |bytes|) ==> Loaded(bytes, a + From(p, width)) == Loaded(bytes, a) + Loaded(bytes, From(p, width))
  {
    var all := a + From(p, width);
    if AllBelow(all, |bytes|) {
      assert all[|a| + (width - 1)] == p + (width - 1);
      assert forall i :: 0 <= i < |a| ==> all[i] == a[i];
    }
  }

  lemma PrefixBelow(a: seq<nat>, b: seq<nat>, n: nat)
    requires a <= b && AllBelow(b, n)
    ensures AllBelow(a, n)
  {
    assert forall i :: 0 <= i < |a| ==> a[i] == b[i];
  }

  /** Addresses beyond memory are none of memory's business. */
  lemma {:induction false} StoredOutside(bytes: seq<Byte>, a: seq<nat>, data: seq<Byte>)
    requires |data| == |a| && forall i :: 0 <= i < |a| ==> a[i] >= |bytes|
    ensures Stored(bytes, a, data) == bytes
    decreases |a|
  {
    if a != [] {
      StoredOutside(bytes, a[..|a| - 1], data[..|a| - 1]);
    }
  }

  /** A run of bytes inside memory, replaced. */
  lemma {:induction false} StoredRun(bytes: seq<Byte>, p: nat, data: seq<Byte>)
    requires p + |data| <= |bytes|
    ensures Stored(bytes, From(p, |data|), data) == bytes[..p] + data + bytes[p + |data|..]
    decreases |data|
  {
    if data != [] {
      var n := |data| - 1;
      StoredRun(bytes, p, data[..n]);
      assert From(p, |data|)[..n] == From(p, n);
      assert data == data[..n] + [data[n]];
    }
  }

  /** Part of an access is an access. */
  lemma AddressesPart(m: Machine, v: nat, width: nat, access: Access, i: nat, n: nat)
    requires Addresses(m, v, width, access).Some? && i + n <= width
    ensures Addresses(m, v + i, n, access) == Some(Addresses(m, v, width, access).value[i..i + n])
  {
    hide Translate;
    var a := Addresses(m, v, width, access).value;
    var part := a[i..i + n];
    forall k | 0 <= k < n
      ensures Single(m, v + i, k, access) == Ok(part[k])
    {
      assert Single(m, v, i + k, access) == Ok(a[i + k]);
    }
    AddressesAre(m, v + i, n, access, part);
  }

  /** The same translations give the same addresses. */
  lemma AddressesSame(m: Machine, n: Machine, v: nat, width: nat, access: Access)
    requires forall i :: 0 <= i < width ==> Single(n, v, i, access) == Single(m, v, i, access)
    ensures Addresses(n, v, width, access) == Addresses(m, v, width, access)
  {
    hide Single;
    if Addresses(m, v, width, access).Some? {
      AddressesAre(n, v, width, access, Addresses(m, v, width, access).value);
    }
  }

  /** Two accesses one after the other. */
  lemma AddressesJoin(m: Machine, v: nat, n: nat, k: nat, access: Access)
    requires Addresses(m, v, n, access).Some? && Addresses(m, v + n, k, access).Some?
    ensures Addresses(m, v, n + k, access) == Some(Addresses(m, v, n, access).value + Addresses(m, v + n, k, access).value)
  {
    hide Translate;
    var a, b := Addresses(m, v, n, access).value, Addresses(m, v + n, k, access).value;
    var all := a + b;
    forall i | 0 <= i < n + k
      ensures Single(m, v, i, access) == Ok(all[i])
    {
      if i >= n {
        assert Single(m, v + n, i - n, access) == Ok(b[i - n]);
      }
    }
    AddressesAre(m, v, n + k, access, all);
  }

  lemma LoadedPart(bytes: seq<Byte>, a: seq<nat>, i: nat, n: nat)
    requires AllBelow(a, |bytes|) && i + n <= |a|
    ensures AllBelow(a[i..i + n], |bytes|) && Loaded(bytes, a[i..i + n]) == Loaded(bytes, a)[i..i + n]
  {
  }
}
