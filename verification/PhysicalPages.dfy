/** The physical page manager (kernel/pmm.c). Pages are numbered; page 0 is never handed out. Free pages
    that were used before are chained through their own first word. */
module PhysicalPages {
  import opened Options
  import opened PageTables

  const ADDRESS_LIMIT: nat := 0x1_0000_0000_0000_0000

  /** An entry of the boot memory map. */
  datatype MapEntry = MapEntry(usable: bool, base: nat, length: nat)

  /** Pages from `first` up to `end`. */
  datatype Range = Range(first: nat, end: nat)

  /** usable_range_bounds: the whole pages of an entry. */
  function Bounds(e: MapEntry): Option<Range> {
    if e.length == 0 || e.base + e.length >= ADDRESS_LIMIT || e.base + (PAGE - 1) >= ADDRESS_LIMIT then None
    else
      var first := (e.base + (PAGE - 1)) / PAGE;
      Some(Range(if first == 0 then 1 else first, (e.base + e.length) / PAGE))
  }

  predicate In(n: nat, r: Range) {
    r.first <= n < r.end
  }

  function Size(r: Range): nat {
    if r.first < r.end then r.end - r.first else 0
  }

  /** The whole pages of an entry, none if it is not usable. */
  function Pages(e: MapEntry): Range {
    if e.usable && Bounds(e).Some? then Bounds(e).value else Range(0, 0)
  }

  /** Page `n` belongs to a usable entry from index `i` on. */
  predicate Later(entries: seq<MapEntry>, i: nat, n: nat)
    decreases |entries| - i
  {
    i < |entries| && (In(n, Pages(entries[i])) || Later(entries, i + 1, n))
  }

  function LaterCount(entries: seq<MapEntry>, i: nat): nat
    decreases |entries| - i
  {
    if i >= |entries| then 0 else Size(Pages(entries[i])) + LaterCount(entries, i + 1)
  }

  /** A usable entry from index `i` on has `count` whole pages. */
  predicate RoomLater(entries: seq<MapEntry>, i: nat, count: nat)
    decreases |entries| - i
  {
    i < |entries| && (Size(Pages(entries[i])) >= count || RoomLater(entries, i + 1, count))
  }

  /** Usable entries have bounds, lie in memory and do not overlap. */
  ghost predicate MapOk(entries: seq<MapEntry>, i: nat, frames: nat)
    decreases |entries| - i
  {
    i < |entries| ==>
      && MapOk(entries, i + 1, frames)
      && (entries[i].usable ==> Bounds(entries[i]).Some? && Bounds(entries[i]).value.end <= frames)
      && forall n :: In(n, Pages(entries[i])) ==> !Later(entries, i + 1, n)
  }

  /** One entry further on. */
  lemma NextEntry(entries: seq<MapEntry>, i: nat, frames: nat)
    requires i < |entries| && MapOk(entries, i, frames)
    ensures MapOk(entries, i + 1, frames) && (entries[i].usable ==> Bounds(entries[i]).Some?)
    ensures forall n: nat :: Later(entries, i, n) <==> In(n, Pages(entries[i])) || Later(entries, i + 1, n)
    ensures forall n: nat :: In(n, Pages(entries[i])) ==> !Later(entries, i + 1, n) && 0 < n < frames
    ensures LaterCount(entries, i) == Size(Pages(entries[i])) + LaterCount(entries, i + 1)
    ensures Size(Pages(entries[i])) > 0 ==> 0 < Pages(entries[i]).first && Pages(entries[i]).end <= frames
  {
  }

  lemma NoEntry(entries: seq<MapEntry>, i: nat)
    requires i >= |entries|
    ensures LaterCount(entries, i) == 0 && forall n: nat :: !Later(entries, i, n)
  {
  }

  lemma {:induction false} LaterInMemory(entries: seq<MapEntry>, i: nat, frames: nat, n: nat)
    requires MapOk(entries, i, frames) && Later(entries, i, n)
    ensures 0 < n < frames
    decreases |entries| - i
  {
    if !In(n, Pages(entries[i])) {
      LaterInMemory(entries, i + 1, frames, n);
    }
  }

  // ---------------------------------------------------------------- the chain of recycled pages

  ghost predicate Distinct(s: seq<nat>) {
    forall i, j :: 0 <= i < j < |s| ==> s[i] != s[j]
  }

  /** `list` is chained from `head` through the first words of its pages. */
  ghost predicate Chain(ram: Ram, head: nat, list: seq<nat>) {
    && Formed(ram)
    && head == (if list == [] then 0 else list[0])
    && (forall i :: 0 <= i < |list| ==> 0 < list[i] < |ram.frames|)
    && (forall i :: 0 <= i < |list| ==> ram.frames[list[i]][0] == LinkOf(list, i))
  }

  /** The link in the page at position `i`: the address of the page after it, or 0. */
  ghost function LinkOf(list: seq<nat>, i: nat): nat
    requires i < |list|
  {
    if i + 1 < |list| then list[i + 1] * PAGE else 0
  }

  lemma ChainPush(ram: Ram, head: nat, list: seq<nat>, n: nat)
    requires Chain(ram, head, list) && Distinct(list) && 0 < n < |ram.frames| && n !in list && head * PAGE < ADDRESS_LIMIT
    ensures Chain(Written(ram, n, 0, head * PAGE), n, [n] + list) && Distinct([n] + list)
  {
    hide LinkOf;
    var ram' := Written(ram, n, 0, head * PAGE);
    var list' := [n] + list;
    forall i | 0 <= i < |list'|
      ensures 0 < list'[i] < |ram.frames| && ram'.frames[list'[i]][0] == LinkOf(list', i)
    {
      LinkPushed(list, n, i);
      if i > 0 {
        assert list[i - 1] in list;
      }
    }
    PushDistinct(list, n);
  }

  lemma LinkPushed(list: seq<nat>, n: nat, i: nat)
    requires i <= |list|
    ensures LinkOf([n] + list, i) == if i == 0 then (if list == [] then 0 else list[0] * PAGE) else LinkOf(list, i - 1)
  {
  }

  lemma PushDistinct(list: seq<nat>, n: nat)
    requires Distinct(list) && n !in list
    ensures Distinct([n] + list)
  {
  }

  lemma ChainPop(ram: Ram, head: nat, list: seq<nat>)
    requires Chain(ram, head, list) && Distinct(list) && list != []
    ensures head == list[0] && head !in list[1..] && Distinct(list[1..])
    ensures ram.frames[head][0] / PAGE == (if |list| > 1 then list[1] else 0)
    ensures Chain(ram, ram.frames[head][0] / PAGE, list[1..])
  {
    var rest := list[1..];
    forall i | 0 <= i < |rest|
      ensures ram.frames[rest[i]][0] == LinkOf(rest, i)
    {
      assert rest[i] == list[i + 1] && ram.frames[list[i + 1]][0] == LinkOf(list, i + 1);
      assert LinkOf(rest, i) == LinkOf(list, i + 1);
    }
    assert ram.frames[list[0]][0] == LinkOf(list, 0);
  }

  /** Writes to pages outside the chain leave it alone. */
  lemma ChainStays(ram: Ram, ram': Ram, head: nat, list: seq<nat>)
    requires Chain(ram, head, list) && Formed(ram') && |ram'.frames| == |ram.frames|
    requires forall i :: 0 <= i < |list| ==> ram'.frames[list[i]] == ram.frames[list[i]]
    ensures Chain(ram', head, list)
  {
    forall i | 0 <= i < |list|
      ensures ram'.frames[list[i]][0] == LinkOf(list, i)
    {
      assert ram.frames[list[i]][0] == LinkOf(list, i);
    }
  }

  lemma ChainCleared(ram: Ram, head: nat, list: seq<nat>, page: nat)
    requires Chain(ram, head, list) && page < |ram.frames| && page !in list
    ensures Chain(Cleared(ram, page), head, list)
  {
    forall i | 0 <= i < |list|
      ensures list[i] != page
    {
      assert list[i] in list;
    }
    ChainStays(ram, Cleared(ram, page), head, list);
  }

  // ---------------------------------------------------------------- runs of consecutive pages

  /** The pages at positions `s` to `i` go down one by one. */
  ghost predicate Descends(list: seq<nat>, s: nat, i: nat)
    requires s <= i < |list|
  {
    forall j :: s <= j < i ==> list[j] == list[j + 1] + 1
  }

  /** `count` pages from position `p` of the chain follow each other downwards. */
  ghost predicate RunAt(list: seq<nat>, p: nat, count: nat) {
    0 < count && p + count <= |list| && Descends(list, p, p + count - 1)
  }

  ghost predicate HasRun(list: seq<nat>, count: nat) {
    exists p: nat :: RunAt(list, p, count)
  }

  /** A run cannot reach over a place where the chain does not descend by one. */
  lemma RunBroken(list: seq<nat>, s: nat, p: nat, count: nat)
    requires 0 < s < |list| && list[s - 1] != list[s] + 1 && p < s < p + count
    ensures !RunAt(list, p, count)
  {
    var j := s - 1;
    assert list[j] != list[j + 1] + 1;
  }

  lemma {:induction false} RunIsRange(list: seq<nat>, s: nat, i: nat, k: nat)
    requires s <= k <= i < |list| && Descends(list, s, i)
    ensures list[k] == list[i] + (i - k)
    decreases i - k
  {
    if k < i {
      RunIsRange(list, s, i, k + 1);
    }
  }

  /** The chain without the pages at positions `s` to `i`. */
  function Cut(list: seq<nat>, s: nat, i: nat): seq<nat>
    requires s <= i < |list|
  {
    list[..s] + list[i + 1..]
  }

  lemma InRun(list: seq<nat>, s: nat, i: nat, at: nat)
    requires s <= i < |list| && Distinct(list) && Descends(list, s, i) && at < |list|
    ensures list[i] <= list[at] <= list[i] + (i - s) <==> s <= at <= i
  {
    if s <= at <= i {
      RunIsRange(list, s, i, at);
    }
    if list[i] <= list[at] <= list[i] + (i - s) {
      RunIsRange(list, s, i, i - (list[at] - list[i]));
    }
  }

  lemma CutDistinct(list: seq<nat>, s: nat, i: nat)
    requires s <= i < |list| && Distinct(list)
    ensures Distinct(Cut(list, s, i)) && |Cut(list, s, i)| == |list| - (i - s + 1)
  {
    var rest := Cut(list, s, i);
    assert forall k :: 0 <= k < |rest| ==> rest[k] == list[if k < s then k else k + (i - s + 1)];
  }

  lemma CutMembers(list: seq<nat>, s: nat, i: nat)
    requires s <= i < |list| && Distinct(list) && Descends(list, s, i)
    ensures Distinct(Cut(list, s, i)) && |Cut(list, s, i)| == |list| - (i - s + 1)
    ensures forall n :: n in Cut(list, s, i) <==> n in list && !(list[i] <= n <= list[i] + (i - s))
    ensures forall n :: list[i] <= n <= list[i] + (i - s) ==> n in list
  {
    hide Distinct, Descends, Cut;
    CutDistinct(list, s, i);
    forall n
      ensures n in Cut(list, s, i) <==> n in list && !(list[i] <= n <= list[i] + (i - s))
    {
      CutMember(list, s, i, n);
    }
    forall n | list[i] <= n <= list[i] + (i - s)
      ensures n in list
    {
      RunIsRange(list, s, i, i - (n - list[i]));
    }
  }

  lemma CutMember(list: seq<nat>, s: nat, i: nat, n: int)
    requires s <= i < |list| && Distinct(list) && Descends(list, s, i)
    ensures n in Cut(list, s, i) <==> n in list && !(list[i] <= n <= list[i] + (i - s))
  {
    hide Distinct, Descends;
    var rest := Cut(list, s, i);
    if n in rest {
      var k :| 0 <= k < |rest| && rest[k] == n;
      var at := if k < s then k else k + (i - s + 1);
      assert list[at] == n;
      InRun(list, s, i, at);
    }
    if n in list && !(list[i] <= n <= list[i] + (i - s)) {
      var at :| 0 <= at < |list| && list[at] == n;
      InRun(list, s, i, at);
      assert rest[if at < s then at else at - (i - s + 1)] == n;
    }
  }

  /** The page after position `i`, or 0. */
  ghost function Following(list: seq<nat>, i: nat): nat
    requires i < |list|
  {
    if i + 1 < |list| then list[i + 1] else 0
  }

  lemma LinkRead(ram: Ram, head: nat, list: seq<nat>, i: nat)
    requires Chain(ram, head, list) && i < |list|
    ensures ram.frames[list[i]][0] / PAGE == Following(list, i) < |ram.frames| && ram.frames[list[i]][0] == Following(list, i) * PAGE
  {
    assert ram.frames[list[i]][0] == LinkOf(list, i);
  }

  /** Taking a run out of the front: the head is set to what follows. */
  lemma CutFront(ram: Ram, head: nat, list: seq<nat>, i: nat)
    requires Chain(ram, head, list) && i < |list|
    ensures Chain(ram, Following(list, i), Cut(list, 0, i))
  {
    var rest := Cut(list, 0, i);
    forall k | 0 <= k < |rest|
      ensures 0 < rest[k] < |ram.frames| && ram.frames[rest[k]][0] == LinkOf(rest, k)
    {
      assert rest[k] == list[k + i + 1] && ram.frames[list[k + i + 1]][0] == LinkOf(list, k + i + 1);
    }
  }

  /** Taking a run out of the middle: the link before it is set to what follows. */
  lemma CutMiddle(ram: Ram, head: nat, list: seq<nat>, s: nat, i: nat)
    requires Chain(ram, head, list) && Distinct(list) && 0 < s <= i < |list| && |ram.frames| * PAGE <= ADDRESS_LIMIT
    ensures Following(list, i) * PAGE < ADDRESS_LIMIT
    ensures Chain(Written(ram, list[s - 1], 0, Following(list, i) * PAGE), head, Cut(list, s, i))
  {
    hide Chain, Distinct, Cut, LinkOf, Following;
    LinkRead(ram, head, list, i);
    CutHead(ram, head, list, s, i);
    var rest := Cut(list, s, i);
    var ram' := Written(ram, list[s - 1], 0, Following(list, i) * PAGE);
    forall k | 0 <= k < |rest|
      ensures 0 < rest[k] < |ram.frames| && ram'.frames[rest[k]][0] == LinkOf(rest, k)
    {
      CutMiddleAt(ram, head, list, s, i, k);
    }
    IsChain(ram', head, rest);
  }

  lemma IsChain(ram: Ram, head: nat, list: seq<nat>)
    requires Formed(ram) && list != [] && head == list[0]
    requires forall k :: 0 <= k < |list| ==> 0 < list[k] < |ram.frames| && ram.frames[list[k]][0] == LinkOf(list, k)
    ensures Chain(ram, head, list)
  {
  }

  lemma CutHead(ram: Ram, head: nat, list: seq<nat>, s: nat, i: nat)
    requires Chain(ram, head, list) && 0 < s <= i < |list|
    ensures Formed(ram) && list[s - 1] < |ram.frames| && Cut(list, s, i) != [] && head == Cut(list, s, i)[0]
  {
  }

  lemma CutMiddleAt(ram: Ram, head: nat, list: seq<nat>, s: nat, i: nat, k: nat)
    requires Chain(ram, head, list) && Distinct(list) && 0 < s <= i < |list| && Following(list, i) * PAGE < ADDRESS_LIMIT
    requires k < |Cut(list, s, i)|
    ensures
      var rest := Cut(list, s, i);
      && 0 < rest[k] < |ram.frames| && list[s - 1] < |ram.frames|
      && Written(ram, list[s - 1], 0, Following(list, i) * PAGE).frames[rest[k]][0] == LinkOf(rest, k)
  {
    hide Cut, LinkOf, Following;
    CutLink(list, s, i, k);
    if k != s - 1 {
      var at := if k < s then k else k + (i - s + 1);
      assert list[at] != list[s - 1];
      assert ram.frames[list[at]][0] == LinkOf(list, at);
    }
  }

  /** Links are those of before, but for the one that leads over the cut. */
  lemma CutLink(list: seq<nat>, s: nat, i: nat, k: nat)
    requires 0 < s <= i < |list| && k < |Cut(list, s, i)|
    ensures
      var at := if k < s then k else k + (i - s + 1);
      && at < |list| && Cut(list, s, i)[k] == list[at]
      && LinkOf(Cut(list, s, i), k) == if k == s - 1 then Following(list, i) * PAGE else LinkOf(list, at)
  {
  }

  // ---------------------------------------------------------------- the boot memory map

  predicate Acceptable(e: MapEntry, frames: nat) {
    e.usable ==> Bounds(e).Some? && Bounds(e).value.end <= frames
  }

  /** No page belongs to two usable entries. */
  ghost predicate Apart(entries: seq<MapEntry>) {
    forall i, j, n: nat :: 0 <= i < j < |entries| && In(n, Pages(entries[i])) ==> !In(n, Pages(entries[j]))
  }

  lemma {:induction false} LaterEntry(entries: seq<MapEntry>, i: nat, n: nat)
    requires Later(entries, i, n)
    ensures exists j :: i <= j < |entries| && In(n, Pages(entries[j]))
    decreases |entries| - i
  {
    if !In(n, Pages(entries[i])) {
      LaterEntry(entries, i + 1, n);
    }
  }

  lemma {:induction false} AcceptedMap(entries: seq<MapEntry>, i: nat, frames: nat)
    requires Apart(entries) && forall k :: 0 <= k < |entries| ==> Acceptable(entries[k], frames)
    ensures MapOk(entries, i, frames)
    decreases |entries| - i
  {
    if i < |entries| {
      AcceptedMap(entries, i + 1, frames);
      forall n | In(n, Pages(entries[i]))
        ensures !Later(entries, i + 1, n)
      {
        if Later(entries, i + 1, n) {
          LaterEntry(entries, i + 1, n);
        }
      }
    }
  }
}
