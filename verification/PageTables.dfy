/** Page tables in physical memory: their entries, the walk of the simulated hardware, and what a
    write to one entry does to every translation. */
module PageTables {

  const PAGE: nat := 0x1000
  const LARGE: nat := 0x20_0000
  const GIGA: nat := 0x4000_0000
  const VIRTUAL_LIMIT: nat := 0x80_0000_0000
  const ENTRIES: nat := 512

  type Word = x: int | 0 <= x < 0x1_0000_0000_0000_0000

  /** One page of memory, as the 512 words a table is made of. */
  type Frame = seq<Word>

  /** Physical memory: its size in bytes and the whole pages in it. */
  datatype Ram = Ram(size: nat, frames: seq<Frame>)

  predicate Formed(ram: Ram) {
    |ram.frames| == ram.size / PAGE && forall t :: 0 <= t < |ram.frames| ==> |ram.frames[t]| == ENTRIES
  }

  // ---------------------------------------------------------------- entries

  predicate Valid(w: Word) {
    w % PAGE % 2 == 1
  }

  predicate Readable(w: Word) {
    w % PAGE / 2 % 2 == 1
  }

  predicate Writable(w: Word) {
    w % PAGE / 4 % 2 == 1
  }

  predicate Executable(w: Word) {
    w % PAGE / 8 % 2 == 1
  }

  predicate User(w: Word) {
    w % PAGE / 16 % 2 == 1
  }

  predicate Reserved(w: Word) {
    w % PAGE >= 32
  }

  predicate Permits(w: Word) {
    Readable(w) || Writable(w) || Executable(w)
  }

  /** The page an entry names. */
  function Target(w: Word): nat {
    w / PAGE
  }

  function Flags(w: Word): Word {
    w % PAGE
  }

  /** An entry made of a page and flags, and what it is taken apart into. */
  lemma EntryParts(frame: nat, flags: Word)
    requires flags < PAGE && frame * PAGE + flags < 0x1_0000_0000_0000_0000
    ensures var e := frame * PAGE + flags;
      && Target(e) == frame && Flags(e) == flags && Valid(e) == Valid(flags) && Readable(e) == Readable(flags)
      && Writable(e) == Writable(flags) && Executable(e) == Executable(flags) && User(e) == User(flags)
      && Reserved(e) == Reserved(flags)
  {
  }

  // ---------------------------------------------------------------- the hardware walk

  /** Bytes that one entry of a table at `level` covers. */
  function Span(level: nat): (s: nat)
    requires level <= 3
    ensures s > 0
  {
    if level == 0 then PAGE else if level == 1 then LARGE else if level == 2 then GIGA else VIRTUAL_LIMIT
  }

  function Index(v: nat, level: nat): (i: nat)
    requires level <= 2
    ensures i < ENTRIES
  {
    v / Span(level) % ENTRIES
  }

  predicate TableAt(ram: Ram, address: nat) {
    address % PAGE == 0 && address + PAGE <= ram.size
  }

  datatype Step = Absent | Malformed | Next(table: nat) | Leaf(entry: Word)

  /** How the walker reads one entry of a table at `level`, before it looks at permissions. */
  function Classify(ram: Ram, e: Word, level: nat): (s: Step)
    requires level <= 2
    ensures s.Next? ==> level > 0 && s.table == Target(e) && (s.table + 1) * PAGE <= ram.size
    ensures s.Leaf? ==> s.entry == e
  {
    if !Valid(e) then Absent
    else if Reserved(e) || (Writable(e) && !Readable(e)) then Malformed
    else if !Permits(e) then
      if level == 0 || User(e) || !TableAt(ram, Target(e) * PAGE) then Malformed else Next(Target(e))
    else if Target(e) * PAGE % Span(level) != 0 then Malformed
    else Leaf(e)
  }

  datatype Found = Missing | Broken | Page(entry: Word, level: nat)

  /** The leaf that covers `v` below table `t` at `level`. */
  function Walk(ram: Ram, t: nat, v: nat, level: nat): (f: Found)
    requires level <= 2 && Formed(ram) && t < |ram.frames|
    ensures f.Page? ==> f.level <= level && Classify(ram, f.entry, f.level) == Leaf(f.entry)
    decreases level
  {
    match Classify(ram, ram.frames[t][Index(v, level)], level)
    case Absent => Missing
    case Malformed => Broken
    case Leaf(e) => Page(e, level)
    case Next(u) => Walk(ram, u, v, level - 1)
  }

  /** Addresses of one page take the same way and find the same leaf. */
  lemma {:induction false} SamePageWalk(ram: Ram, t: nat, v: nat, w: nat, level: nat)
    requires Formed(ram) && t < |ram.frames| && level <= 2 && v / PAGE == w / PAGE
    ensures Walk(ram, t, v, level) == Walk(ram, t, w, level)
    decreases level
  {
    assert Index(v, level) == Index(w, level) by {
      assert v / LARGE == v / PAGE / ENTRIES && w / LARGE == w / PAGE / ENTRIES;
      assert v / GIGA == v / LARGE / ENTRIES && w / GIGA == w / LARGE / ENTRIES;
    }
    hide Index;
    if Classify(ram, ram.frames[t][Index(v, level)], level).Next? {
      SamePageWalk(ram, Classify(ram, ram.frames[t][Index(v, level)], level).table, v, w, level - 1);
    }
  }

  datatype Access = Read | Write | Execute | Atomic

  predicate Granted(e: Word, user: bool, access: Access) {
    && (user ==> User(e))
    && match access
       case Read => Readable(e)
       case Write => Writable(e)
       case Execute => Executable(e)
       case Atomic => Readable(e) && Writable(e)
  }

  datatype Result = Ok(physical: nat) | InvalidVirtualAddress | InvalidRoot | NotPresent | MalformedEntry | PermissionDenied

  /** What is mapped begins outside RAM or ends inside it. */
  predicate Fits(ram: Ram, address: nat, size: nat) {
    address < ram.size ==> address + size <= ram.size
  }

  /** The physical address that `f` gives `v`. */
  function Physical(f: Found, v: nat): nat
    requires f.Page? && f.level <= 2
  {
    Target(f.entry) * PAGE + v % Span(f.level)
  }

  /** What a translation is, in terms of the leaf found. */
  function Translation(ram: Ram, root: nat, user: bool, v: nat, access: Access): Result
    requires Formed(ram)
  {
    if v >= VIRTUAL_LIMIT then InvalidVirtualAddress
    else if !TableAt(ram, root) then InvalidRoot
    else
      match Walk(ram, root / PAGE, v, 2)
      case Missing => NotPresent
      case Broken => MalformedEntry
      case Page(e, level) =>
        if !Granted(e, user, access) then PermissionDenied
        else if !Fits(ram, Target(e) * PAGE, Span(level)) then MalformedEntry
        else Ok(Physical(Page(e, level), v))
  }

  /** The walker: one table per round, from the root down. */
  method Translate(ram: Ram, root: nat, user: bool, v: nat, access: Access) returns (r: Result)
    requires Formed(ram)
    ensures r == Translation(ram, root, user, v, access)
  {
    if v >= VIRTUAL_LIMIT {
      return InvalidVirtualAddress;
    }
    if !TableAt(ram, root) {
      return InvalidRoot;
    }
    var table: nat, level: nat := root, 2;
    while true
      invariant 0 <= table && 0 <= level <= 2 && TableAt(ram, table)
      invariant Walk(ram, root / PAGE, v, 2) == Walk(ram, table / PAGE, v, level)
      decreases level
    {
      var e := ram.frames[table / PAGE][Index(v, level)];
      if !Valid(e) {
        return NotPresent;
      }
      if Reserved(e) || (Writable(e) && !Readable(e)) {
        return MalformedEntry;
      }
      if !Permits(e) {
        if level == 0 || User(e) || !TableAt(ram, Target(e) * PAGE) {
          return MalformedEntry;
        }
        table, level := Target(e) * PAGE, level - 1;
        continue;
      }
      if Target(e) * PAGE % Span(level) != 0 {
        return MalformedEntry;
      }
      if !Granted(e, user, access) {
        return PermissionDenied;
      }
      if !Fits(ram, Target(e) * PAGE, Span(level)) {
        return MalformedEntry;
      }
      return Ok(Target(e) * PAGE + v % Span(level));
    }
  }

  // ---------------------------------------------------------------- trees of tables

  /** Where a table sits: its level, and the first virtual address it covers. */
  datatype Place = Place(level: nat, base: nat)

  ghost predicate Placed(p: Place) {
    p.level <= 2 && p.base % Span(p.level + 1) == 0 && p.base < VIRTUAL_LIMIT
  }

  ghost predicate Within(p: Place, v: nat)
    requires Placed(p)
  {
    p.base <= v < p.base + Span(p.level + 1)
  }

  ghost function Child(p: Place, i: nat): Place
    requires Placed(p) && p.level > 0
  {
    Place(p.level - 1, p.base + i * Span(p.level))
  }

  /** The addresses entry `i` of a table at `p` is consulted for. */
  ghost predicate Covers(p: Place, i: nat, v: nat)
    requires Placed(p)
  {
    Within(p, v) && i == Index(v, p.level)
  }

  lemma PageIndex(base: nat, v: nat)
    requires base % 0x20_0000 == 0 && base <= v < base + 0x20_0000
    ensures v / 0x1000 % 512 == (v - base) / 0x1000
  {
    var q, y := base / 0x20_0000, (v - base) / 0x1000;
    assert base == q * 0x20_0000;
    assert v / 0x1000 == q * 512 + y;
  }

  lemma LargeIndex(base: nat, v: nat)
    requires base % 0x4000_0000 == 0 && base <= v < base + 0x4000_0000
    ensures v / 0x20_0000 % 512 == (v - base) / 0x20_0000
  {
    var q, y := base / 0x4000_0000, (v - base) / 0x20_0000;
    assert base == q * 0x4000_0000;
    assert v / 0x20_0000 == q * 512 + y;
  }

  lemma IndexIs(p: Place, v: nat)
    requires Placed(p) && Within(p, v)
    ensures Index(v, p.level) == (v - p.base) / Span(p.level)
  {
    if p.level == 0 {
      PageIndex(p.base, v);
    } else if p.level == 1 {
      LargeIndex(p.base, v);
    } else {
      assert p.base == 0;
    }
  }

  lemma CoversRange(p: Place, i: nat, v: nat)
    requires Placed(p) && i < ENTRIES
    ensures Covers(p, i, v) <==> p.base + i * Span(p.level) <= v < p.base + (i + 1) * Span(p.level)
  {
    assert p.level == 0 || p.level == 1 || p.level == 2;
    if Within(p, v) {
      IndexIs(p, v);
      InSlot(v - p.base, i, p.level);
    }
  }

  lemma InSlot(x: nat, i: nat, level: nat)
    requires level <= 2
    ensures x / Span(level) == i <==> i * Span(level) <= x < (i + 1) * Span(level)
  {
  }

  lemma ChildPlaced(p: Place, i: nat)
    requires Placed(p) && p.level > 0 && i < ENTRIES
    ensures Placed(Child(p, i))
  {
    if p.level == 1 {
      var q := p.base / 0x4000_0000;
      assert p.base + i * 0x20_0000 == (q * 512 + i) * 0x20_0000;
    } else {
      assert p.base == 0;
    }
  }

  lemma ChildWithin(p: Place, v: nat)
    requires Placed(p) && p.level > 0 && Within(p, v)
    ensures Placed(Child(p, Index(v, p.level))) && Within(Child(p, Index(v, p.level)), v)
  {
    hide Index;
    var i := Index(v, p.level);
    CoversRange(p, i, v);
    ChildPlaced(p, i);
    assert (i + 1) * Span(p.level) == i * Span(p.level) + Span(p.level);
  }

  /** An entry that the kernel takes for a pointer to the next table. */
  predicate Pointer(e: Word) {
    Valid(e) && !Permits(e) && !User(e)
  }

  /** `tables` places every table below `root`; a pointer in one leads to the table placed under it. */
  ghost predicate Tree(ram: Ram, root: nat, tables: map<nat, Place>) {
    && Formed(ram)
    && root in tables && tables[root] == Place(2, 0)
    && (forall t :: t in tables ==> t < |ram.frames| && Placed(tables[t]))
    && (forall t, i :: t in tables && 0 <= i < ENTRIES && tables[t].level > 0 ==> Linked(ram.frames[t][i], tables, t, i))
  }

  ghost predicate Linked(e: Word, tables: map<nat, Place>, t: nat, i: nat)
    requires t in tables && Placed(tables[t]) && tables[t].level > 0
  {
    Pointer(e) ==> !Reserved(e) && Target(e) in tables && tables[Target(e)] == Child(tables[t], i)
  }

  /** Among the words of the tables only entry `i` of `t` may differ. */
  ghost predicate OnlyAt(ram: Ram, ram': Ram, tables: map<nat, Place>, t: nat, i: nat)
    requires Formed(ram) && forall u :: u in tables ==> u < |ram.frames|
  {
    && ram'.size == ram.size && Formed(ram')
    && forall u, j :: u in tables && 0 <= j < ENTRIES && !(u == t && j == i) ==> ram'.frames[u][j] == ram.frames[u][j]
  }

  /** If the walk from `t` is the same for the addresses the changed entry covers, every walk is the same. */
  lemma {:induction false} WalkKept(ram: Ram, ram': Ram, root: nat, tables: map<nat, Place>, t: nat, i: nat, u: nat, v: nat)
    requires Tree(ram, root, tables) && OnlyAt(ram, ram', tables, t, i)
    requires t in tables && i < ENTRIES && u in tables && Within(tables[u], v)
    requires Covers(tables[t], i, v) ==> Walk(ram', t, v, tables[t].level) == Walk(ram, t, v, tables[t].level)
    ensures Walk(ram', u, v, tables[u].level) == Walk(ram, u, v, tables[u].level)
    decreases tables[u].level
  {
    hide Reserved, Readable, Writable, Executable, User, Target, Index, Span;
    var p := tables[u];
    var j := Index(v, p.level);
    if !(u == t && j == i) {
      var e := ram.frames[u][j];
      assert ram'.frames[u][j] == e;
      if Classify(ram, e, p.level).Next? {
        assert Linked(ram.frames[u][j], tables, u, j);
        ChildWithin(p, v);
        WalkKept(ram, ram', root, tables, t, i, Target(e), v);
      }
    }
  }

  /** From `u` the walk for `v` comes to table `t` at level `target`. */
  ghost predicate Leads(ram: Ram, u: nat, level: nat, v: nat, t: nat, target: nat)
    requires Formed(ram) && target <= level <= 2 && u < |ram.frames|
    decreases level
  {
    if level == target then u == t
    else
      match Classify(ram, ram.frames[u][Index(v, level)], level)
      case Next(w) => Leads(ram, w, level - 1, v, t, target)
      case _ => false
  }

  lemma {:induction false} LeadsWalk(ram: Ram, u: nat, level: nat, v: nat, t: nat, target: nat)
    requires Formed(ram) && target <= level <= 2 && u < |ram.frames| && Leads(ram, u, level, v, t, target)
    ensures t < |ram.frames| && Walk(ram, u, v, level) == Walk(ram, t, v, target)
    decreases level
  {
    if level != target {
      LeadsWalk(ram, Classify(ram, ram.frames[u][Index(v, level)], level).table, level - 1, v, t, target);
    }
  }

  /** Addresses in one region of a table take the same way to that table. */
  lemma {:induction false} LeadsTogether(ram: Ram, u: nat, level: nat, v: nat, w: nat, t: nat, target: nat)
    requires Formed(ram) && target <= level <= 2 && u < |ram.frames| && Leads(ram, u, level, v, t, target)
    requires v / Span(target + 1) == w / Span(target + 1)
    ensures Leads(ram, u, level, w, t, target)
    decreases level
  {
    if level != target {
      SameIndex(v, w, target, level);
      LeadsTogether(ram, Classify(ram, ram.frames[u][Index(v, level)], level).table, level - 1, v, w, t, target);
    }
  }

  lemma SameIndex(v: nat, w: nat, target: nat, level: nat)
    requires target < level <= 2 && v / Span(target + 1) == w / Span(target + 1)
    ensures Index(v, level) == Index(w, level)
  {
    if target == 0 && level == 2 {
      assert v / GIGA == v / LARGE / ENTRIES && w / GIGA == w / LARGE / ENTRIES;
    }
  }

  /** One step further down the way. */
  lemma {:induction false} LeadsOn(ram: Ram, u: nat, level: nat, v: nat, t: nat, target: nat)
    requires Formed(ram) && 0 < target <= level <= 2 && u < |ram.frames| && Leads(ram, u, level, v, t, target)
    ensures t < |ram.frames|
    ensures var s := Classify(ram, ram.frames[t][Index(v, target)], target);
      s.Next? ==> Leads(ram, u, level, v, s.table, target - 1)
    decreases level
  {
    hide Reserved, Readable, Writable, Executable, User, Target, Index, Span;
    if level != target {
      LeadsOn(ram, Classify(ram, ram.frames[u][Index(v, level)], level).table, level - 1, v, t, target);
    }
  }

  /** The valid entries of the tables are kept. */
  ghost predicate ValidKept(ram: Ram, ram': Ram, tables: map<nat, Place>)
    requires Formed(ram) && forall t :: t in tables ==> t < |ram.frames|
  {
    && ram'.size == ram.size && Formed(ram')
    && forall t, i :: t in tables && 0 <= i < ENTRIES && Valid(ram.frames[t][i]) ==> ram'.frames[t][i] == ram.frames[t][i]
  }

  lemma {:induction false} LeadsStay(ram: Ram, ram': Ram, root: nat, tables: map<nat, Place>, u: nat, v: nat, t: nat, target: nat)
    requires Tree(ram, root, tables) && ValidKept(ram, ram', tables) && u in tables
    requires target <= tables[u].level && Leads(ram, u, tables[u].level, v, t, target)
    ensures Leads(ram', u, tables[u].level, v, t, target)
    decreases tables[u].level
  {
    hide Reserved, Readable, Writable, Executable, User, Target, Index, Span;
    var level := tables[u].level;
    if level != target {
      var j := Index(v, level);
      assert Linked(ram.frames[u][j], tables, u, j);
      LeadsStay(ram, ram', root, tables, Target(ram.frames[u][j]), v, t, target);
    }
  }

  /** A write to the table at the end of the way leaves the way as it was. */
  lemma {:induction false} LeadsKept(ram: Ram, ram': Ram, root: nat, tables: map<nat, Place>, u: nat, v: nat, t: nat, i: nat)
    requires Tree(ram, root, tables) && t in tables && u in tables && i < ENTRIES && OnlyAt(ram, ram', tables, t, i)
    requires tables[t].level <= tables[u].level && Leads(ram, u, tables[u].level, v, t, tables[t].level)
    ensures Leads(ram', u, tables[u].level, v, t, tables[t].level)
    decreases tables[u].level
  {
    hide Reserved, Readable, Writable, Executable, User, Target, Index, Span;
    var level := tables[u].level;
    if level != tables[t].level {
      var j := Index(v, level);
      assert Linked(ram.frames[u][j], tables, u, j);
      LeadsKept(ram, ram', root, tables, Target(ram.frames[u][j]), v, t, i);
    }
  }

  /** A leaf written into an entry becomes the translation of the addresses the entry covers, and
      of no others. */
  lemma LeafWritten(ram: Ram, ram': Ram, root: nat, tables: map<nat, Place>, t: nat, i: nat, v: nat, w: nat)
    requires Tree(ram, root, tables) && t in tables && OnlyAt(ram, ram', tables, t, i)
    requires Covers(tables[t], i, v) && Leads(ram, root, 2, v, t, tables[t].level)
    requires Classify(ram, ram'.frames[t][i], tables[t].level).Leaf?
    requires w < VIRTUAL_LIMIT
    ensures Walk(ram', root, w, 2) ==
      if Covers(tables[t], i, w) then Page(ram'.frames[t][i], tables[t].level) else Walk(ram, root, w, 2)
  {
    hide Reserved, Readable, Writable, Executable, User, Target;
    var p := tables[t];
    if Covers(p, i, w) {
      LeadsKept(ram, ram', root, tables, root, v, t, i);
      Region(p, v);
      Region(p, w);
      LeadsTogether(ram', root, 2, v, w, t, p.level);
      LeadsWalk(ram', root, 2, w, t, p.level);
    } else {
      WalkKept(ram, ram', root, tables, t, i, root, w);
    }
  }

  lemma Region(p: Place, v: nat)
    requires Placed(p) && Within(p, v)
    ensures v / Span(p.level + 1) == p.base / Span(p.level + 1)
  {
  }

  lemma LeafKeepsTree(ram: Ram, ram': Ram, root: nat, tables: map<nat, Place>, t: nat, i: nat)
    requires Tree(ram, root, tables) && t in tables && i < ENTRIES && OnlyAt(ram, ram', tables, t, i)
    requires !Pointer(ram'.frames[t][i]) || tables[t].level == 0
    ensures Tree(ram', root, tables)
  {
    forall u, j | u in tables && 0 <= j < ENTRIES && tables[u].level > 0
      ensures Linked(ram'.frames[u][j], tables, u, j)
    {
      assert Linked(ram.frames[u][j], tables, u, j);
    }
  }

  // ---------------------------------------------------------------- writes

  function Empty(): (f: Frame)
    ensures |f| == ENTRIES && forall i :: 0 <= i < ENTRIES ==> f[i] == 0
  {
    seq(ENTRIES, _ => 0)
  }

  function Cleared(ram: Ram, t: nat): Ram
    requires t < |ram.frames|
  {
    Ram(ram.size, ram.frames[t := Empty()])
  }

  function Replaced(f: Frame, i: nat, e: Word): Frame
    requires i < |f|
  {
    f[i := e]
  }

  function Written(ram: Ram, t: nat, i: nat, e: Word): Ram
    requires t < |ram.frames| && i < |ram.frames[t]|
  {
    Ram(ram.size, ram.frames[t := Replaced(ram.frames[t], i, e)])
  }

  /** An empty table linked where nothing was keeps the tree and every translation. */
  lemma TableLinked(ram: Ram, root: nat, tables: map<nat, Place>, t: nat, i: nat, page: nat)
    requires Tree(ram, root, tables) && t in tables && tables[t].level > 0 && i < ENTRIES
    requires !Valid(ram.frames[t][i]) && page < |ram.frames| && page !in tables && page * PAGE + 1 < 0x1_0000_0000_0000_0000
    ensures var ram' := Written(Cleared(ram, page), t, i, page * PAGE + 1);
      && OnlyAt(ram, ram', tables, t, i)
      && Tree(ram', root, tables[page := Child(tables[t], i)])
      && forall v :: 0 <= v < VIRTUAL_LIMIT ==> Walk(ram', root, v, 2) == Walk(ram, root, v, 2)
  {
    var ram' := Written(Cleared(ram, page), t, i, page * PAGE + 1);
    EntryParts(page, 1);
    LinkedTree(ram, ram', root, tables, t, i, page);
    hide Walk, Classify, Index, Span, Linked;
    forall v | 0 <= v < VIRTUAL_LIMIT
      ensures Walk(ram', root, v, 2) == Walk(ram, root, v, 2)
    {
      LinkedWalk(ram, ram', root, tables, t, i, page, v);
    }
  }

  lemma LinkedWalk(ram: Ram, ram': Ram, root: nat, tables: map<nat, Place>, t: nat, i: nat, page: nat, v: nat)
    requires Tree(ram, root, tables) && t in tables && tables[t].level > 0 && i < ENTRIES && v < VIRTUAL_LIMIT
    requires !Valid(ram.frames[t][i]) && page < |ram.frames| && OnlyAt(ram, ram', tables, t, i)
    requires page * PAGE + 1 < 0x1_0000_0000_0000_0000 && ram'.frames[t][i] == page * PAGE + 1 && ram'.frames[page] == Empty()
    ensures Walk(ram', root, v, 2) == Walk(ram, root, v, 2)
  {
    hide Index, Linked, Walk;
    assert Within(tables[root], v);
    hide Span;
    if Covers(tables[t], i, v) {
      LinkedEntry(ram, ram', t, i, page, v, tables[t].level);
    }
    WalkKept(ram, ram', root, tables, t, i, root, v);
  }

  /** Nothing is found at an invalid entry, nor through a pointer to an empty table. */
  lemma LinkedEntry(ram: Ram, ram': Ram, t: nat, i: nat, page: nat, v: nat, level: nat)
    requires Formed(ram) && Formed(ram') && ram'.size == ram.size && t < |ram.frames| && page < |ram.frames|
    requires 0 < level <= 2 && i == Index(v, level) && !Valid(ram.frames[t][i])
    requires page * PAGE + 1 < 0x1_0000_0000_0000_0000 && ram'.frames[t][i] == page * PAGE + 1 && ram'.frames[page] == Empty()
    ensures Walk(ram', t, v, level) == Missing && Walk(ram, t, v, level) == Missing
  {
    hide Index, Span, Readable, Writable, Executable, User, Reserved;
    EntryParts(page, 1);
    EmptyWalk(ram', page, v, level - 1);
    PlainFlags();
  }

  lemma PlainFlags()
    ensures Valid(1) && !Readable(1) && !Writable(1) && !Executable(1) && !User(1) && !Reserved(1)
  {
  }

  lemma EmptyWalk(ram: Ram, t: nat, v: nat, level: nat)
    requires Formed(ram) && t < |ram.frames| && ram.frames[t] == Empty() && level <= 2
    ensures Walk(ram, t, v, level) == Missing
  {
  }

  lemma LinkedTree(ram: Ram, ram': Ram, root: nat, tables: map<nat, Place>, t: nat, i: nat, page: nat)
    requires Tree(ram, root, tables) && t in tables && tables[t].level > 0 && i < ENTRIES
    requires page < |ram.frames| && page !in tables && OnlyAt(ram, ram', tables, t, i)
    requires page * PAGE + 1 < 0x1_0000_0000_0000_0000 && ram'.frames[t][i] == page * PAGE + 1 && ram'.frames[page] == Empty()
    ensures Tree(ram', root, tables[page := Child(tables[t], i)])
  {
    EntryParts(page, 1);
    ChildPlaced(tables[t], i);
    var tables' := tables[page := Child(tables[t], i)];
    forall u, j | u in tables' && 0 <= j < ENTRIES && tables'[u].level > 0
      ensures Linked(ram'.frames[u][j], tables', u, j)
    {
      if u != page {
        assert Linked(ram.frames[u][j], tables, u, j);
      }
    }
  }
}
