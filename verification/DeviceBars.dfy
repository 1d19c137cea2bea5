/** Address windows for device modules (src/device_manager.c): a first-fit search that jumps past conflicts. */
module DeviceBars {
  import opened Options

  const LAST: nat := 0xFFFF_FFFF_FFFF_FFFF
  const WINDOW_BASE: nat := 0xFFFF_FFFF_F000_0000
  const WINDOW_LIMIT: nat := 0xFFFF_FFFF_FFFB_FFFF

  /** A window of `size` bytes, at least one. */
  datatype Bar = Bar(base: nat, size: nat)

  predicate Proper(b: Bar) {
    b.size > 0 && b.base + (b.size - 1) <= LAST
  }

  function Last(b: Bar): nat
    requires b.size > 0
  {
    b.base + (b.size - 1)
  }

  predicate Overlap(a: Bar, b: Bar)
    requires a.size > 0 && b.size > 0
  {
    a.base <= Last(b) && b.base <= Last(a)
  }

  ghost predicate AllProper(bars: seq<Bar>) {
    forall i :: 0 <= i < |bars| ==> Proper(bars[i])
  }

  /** The window overlaps none of `bars`. */
  ghost predicate Clear(b: Bar, bars: seq<Bar>)
    requires b.size > 0 && AllProper(bars)
  {
    forall i :: 0 <= i < |bars| ==> !Overlap(b, bars[i])
  }

  // ---------------------------------------------------------------- alignment

  /** align_address: the least multiple of `alignment` from `value` on, if the sum can be represented. For the
      powers of two that descriptors allow, masking and division are the same. */
  function Align(value: nat, alignment: nat): (r: Option<nat>)
    requires alignment > 0
    ensures r.Some? ==> r.value % alignment == 0 && r.value >= value
  {
    if value > LAST - (alignment - 1) then None
    else
      RoundUp(value, alignment);
      Some((value + (alignment - 1)) / alignment * alignment)
  }

  lemma {:induction false} Monotone(p: nat, q: nat, m: nat)
    requires p <= q
    ensures p * m <= q * m
  {
    if p < q {
      Monotone(p, q - 1, m);
      assert q * m == (q - 1) * m + m;
    }
  }

  /** Multiples of `m` that are less than `m` apart are the same. */
  lemma SameMultiple(p: nat, q: nat, m: nat)
    requires m > 0 && p * m < q * m + m && q * m < p * m + m
    ensures p == q
  {
    if p < q {
      Monotone(p + 1, q, m);
    } else if q < p {
      Monotone(q + 1, p, m);
    }
  }

  lemma Multiple(q: nat, m: nat)
    requires m > 0
    ensures q * m % m == 0
  {
    var x := q * m;
    assert x == x / m * m + x % m;
    SameMultiple(q, x / m, m);
  }

  lemma RoundUp(value: nat, alignment: nat)
    requires alignment > 0
    ensures
      var r := (value + (alignment - 1)) / alignment * alignment;
      r % alignment == 0 && value <= r < value + alignment
  {
    var x := value + (alignment - 1);
    Multiple(x / alignment, alignment);
    assert x == x / alignment * alignment + x % alignment;
  }

  /** The alignments a descriptor may ask for: the powers of two, which are the divisors of 2^64. */
  predicate PowerOfTwo(alignment: nat) {
    alignment > 0 && (LAST + 1) % alignment == 0
  }

  /** An aligned block at a representable address ends at one. */
  lemma AlignedFits(b: nat, alignment: nat)
    requires PowerOfTwo(alignment) && b % alignment == 0 && b <= LAST
    ensures b + (alignment - 1) <= LAST
  {
    var k, n := b / alignment, (LAST + 1) / alignment;
    assert b == k * alignment + b % alignment;
    assert LAST + 1 == n * alignment + (LAST + 1) % alignment;
    if k < n {
      Monotone(k + 1, n, alignment);
      assert (k + 1) * alignment == k * alignment + alignment;
    } else {
      Monotone(n, k, alignment);
    }
  }

  /** No aligned address lies between. */
  lemma AlignLeast(value: nat, alignment: nat, b: nat)
    requires PowerOfTwo(alignment) && b % alignment == 0 && value <= b <= LAST
    ensures Align(value, alignment).Some? && Align(value, alignment).value <= b
  {
    AlignedFits(b, alignment);
    var x := value + (alignment - 1);
    var q, k := x / alignment, b / alignment;
    assert b == k * alignment + b % alignment;
    RoundUp(value, alignment);
    if k < q {
      Monotone(k + 1, q, alignment);
    } else {
      Monotone(q, k, alignment);
    }
  }

  // ---------------------------------------------------------------- conflicts

  /** The greatest last address among the windows that overlap `b`. */
  ghost predicate GreatestConflict(b: Bar, bars: seq<Bar>, found: bool, end: nat)
    requires b.size > 0 && AllProper(bars)
  {
    && (found <==> !Clear(b, bars))
    && (found ==> exists i :: 0 <= i < |bars| && Overlap(b, bars[i]) && Last(bars[i]) == end)
    && forall i :: 0 <= i < |bars| && Overlap(b, bars[i]) ==> Last(bars[i]) <= end
  }

  /** One of the loops of conflicting_bar_end. */
  method ConflictIn(b: Bar, bars: seq<Bar>, ghost before: seq<Bar>, found0: bool, end0: nat) returns (found: bool, end: nat)
    requires b.size > 0 && AllProper(before) && AllProper(bars) && GreatestConflict(b, before, found0, end0)
    ensures AllProper(before + bars) && GreatestConflict(b, before + bars, found, end)
  {
    found, end := found0, end0;
    assert before + bars[..0] == before;
    for i := 0 to |bars|
      invariant AllProper(before + bars[..i]) && GreatestConflict(b, before + bars[..i], found, end)
    {
      ConflictStep(b, before + bars[..i], bars[i], found, end);
      assert before + bars[..i + 1] == before + bars[..i] + [bars[i]];
      if Overlap(b, bars[i]) {
        if !found || Last(bars[i]) > end {
          end := Last(bars[i]);
        }
        found := true;
      }
    }
    assert bars[..|bars|] == bars;
  }

  lemma ConflictStep(b: Bar, bars: seq<Bar>, x: Bar, found: bool, end: nat)
    requires b.size > 0 && AllProper(bars) && Proper(x) && GreatestConflict(b, bars, found, end)
    ensures AllProper(bars + [x])
    ensures
      if !Overlap(b, x) then GreatestConflict(b, bars + [x], found, end)
      else GreatestConflict(b, bars + [x], true, if !found || Last(x) > end then Last(x) else end)
  {
    var all := bars + [x];
    assert forall i :: 0 <= i < |bars| ==> all[i] == bars[i];
    assert all[|bars|] == x;
    if found {
      var i :| 0 <= i < |bars| && Overlap(b, bars[i]) && Last(bars[i]) == end;
      assert all[i] == bars[i];
    }
  }

  /** The windows of all slots that are in use. */
  function AllBars(slots: seq<seq<Bar>>): seq<Bar> {
    if slots == [] then [] else AllBars(slots[..|slots| - 1]) + slots[|slots| - 1]
  }

  ghost predicate SlotsProper(slots: seq<seq<Bar>>) {
    forall i :: 0 <= i < |slots| ==> AllProper(slots[i])
  }

  lemma {:induction false} AllBarsProper(slots: seq<seq<Bar>>)
    requires SlotsProper(slots)
    ensures AllProper(AllBars(slots))
  {
    if slots != [] {
      AllBarsProper(slots[..|slots| - 1]);
    }
  }

  /** conflicting_bar_end over the windows in use and those already chosen for the same device. */
  method ConflictEnd(b: Bar, slots: seq<seq<Bar>>, pending: seq<Bar>) returns (found: bool, end: nat)
    requires b.size > 0 && SlotsProper(slots) && AllProper(pending)
    ensures AllProper(AllBars(slots) + pending) && GreatestConflict(b, AllBars(slots) + pending, found, end)
  {
    found, end := false, 0;
    for i := 0 to |slots|
      invariant AllProper(AllBars(slots[..i])) && GreatestConflict(b, AllBars(slots[..i]), found, end)
    {
      assert slots[..i + 1][..i] == slots[..i];
      found, end := ConflictIn(b, slots[i], AllBars(slots[..i]), found, end);
    }
    assert slots[..|slots|] == slots;
    found, end := ConflictIn(b, pending, AllBars(slots), found, end);
  }

  // ---------------------------------------------------------------- the search

  /** A base the device could have: aligned, in the window of dynamic devices, and clear of everything. */
  ghost predicate Feasible(base: nat, size: nat, alignment: nat, bars: seq<Bar>)
    requires size > 0 && PowerOfTwo(alignment) && AllProper(bars)
  {
    base % alignment == 0 && WINDOW_BASE <= base && base + (size - 1) <= WINDOW_LIMIT && Clear(Bar(base, size), bars)
  }

  /** Everything from a conflicting base up to the end of the greatest conflict is infeasible too. */
  lemma JumpSkipsNothing(base: nat, size: nat, alignment: nat, bars: seq<Bar>, end: nat, b: nat)
    requires size > 0 && PowerOfTwo(alignment) && AllProper(bars) && GreatestConflict(Bar(base, size), bars, true, end) && base <= b <= end
    ensures !Feasible(b, size, alignment, bars)
  {
    var i :| 0 <= i < |bars| && Overlap(Bar(base, size), bars[i]) && Last(bars[i]) == end;
    assert Overlap(Bar(b, size), bars[i]);
  }

  /** allocate_bars for one window: the least feasible base, and a failure only if there is none. */
  method AllocateBar(size: nat, alignment: nat, slots: seq<seq<Bar>>, pending: seq<Bar>) returns (r: Option<nat>)
    requires size > 0 && PowerOfTwo(alignment) && SlotsProper(slots) && AllProper(pending)
    ensures AllProper(AllBars(slots) + pending)
    ensures r.Some? ==> Feasible(r.value, size, alignment, AllBars(slots) + pending)
    ensures r.Some? ==> forall b: nat :: b < r.value ==> !Feasible(b, size, alignment, AllBars(slots) + pending)
    ensures r.None? ==> forall b: nat :: !Feasible(b, size, alignment, AllBars(slots) + pending)
  {
    hide GreatestConflict, AllProper, SlotsProper, Align;
    ghost var bars := AllBars(slots) + pending;
    AllBarsProper(slots);
    assert AllProper(bars) by { Together(AllBars(slots), pending); }
    var candidate := WINDOW_BASE;
    while true
      invariant WINDOW_BASE <= candidate <= LAST
      invariant forall b: nat :: b < candidate ==> !Feasible(b, size, alignment, bars)
      decreases LAST - candidate
    {
      var base := Align(candidate, alignment);
      NoneBelow(candidate, size, alignment, bars);
      if base.None? || base.value + (size - 1) > WINDOW_LIMIT {
        return None;
      }
      var found, end := ConflictEnd(Bar(base.value, size), slots, pending);
      ConflictFacts(Bar(base.value, size), bars, found, end);
      if !found {
        return base;
      }
      forall b: nat | base.value <= b <= end
        ensures !Feasible(b, size, alignment, bars)
      {
        JumpSkipsNothing(base.value, size, alignment, bars, end, b);
      }
      if end == LAST {
        return None;
      }
      candidate := end + 1;
    }
  }

  lemma Together(a: seq<Bar>, b: seq<Bar>)
    requires AllProper(a) && AllProper(b)
    ensures AllProper(a + b)
  {
  }

  lemma ConflictFacts(b: Bar, bars: seq<Bar>, found: bool, end: nat)
    requires b.size > 0 && AllProper(bars) && GreatestConflict(b, bars, found, end)
    ensures found <==> !Clear(b, bars)
    ensures found ==> b.base <= end <= LAST
  {
  }

  /** Between the candidate and its aligned address there is nothing feasible. */
  lemma NoneBelow(candidate: nat, size: nat, alignment: nat, bars: seq<Bar>)
    requires size > 0 && PowerOfTwo(alignment) && AllProper(bars) && candidate <= LAST
    ensures forall b: nat :: candidate <= b && Feasible(b, size, alignment, bars) ==>
      Align(candidate, alignment).Some? && Align(candidate, alignment).value <= b
  {
    hide Align, Clear;
    forall b: nat | candidate <= b && Feasible(b, size, alignment, bars)
      ensures Align(candidate, alignment).Some? && Align(candidate, alignment).value <= b
    {
      AlignLeast(candidate, alignment, b);
    }
  }

  // ---------------------------------------------------------------- all windows of a device

  datatype Request = Request(size: nat, alignment: nat)

  /** What descriptor_valid asks of the windows. */
  predicate Askable(q: Request) {
    q.size > 0 && PowerOfTwo(q.alignment)
  }

  /** The base is feasible and no lower one is. */
  ghost predicate Least(base: nat, q: Request, bars: seq<Bar>)
    requires Askable(q) && AllProper(bars)
  {
    Feasible(base, q.size, q.alignment, bars) && forall b: nat :: b < base ==> !Feasible(b, q.size, q.alignment, bars)
  }

  /** Each window is the least one clear of the windows in use and of those chosen before it. */
  ghost predicate Greedy(requests: seq<Request>, used: seq<Bar>, chosen: seq<Bar>)
    requires AllProper(used) && AllProper(chosen) && |chosen| <= |requests| && forall i :: 0 <= i < |requests| ==> Askable(requests[i])
  {
    forall i :: 0 <= i < |chosen| ==> Chosen(requests[i], used, chosen, i)
  }

  ghost predicate Chosen(q: Request, used: seq<Bar>, chosen: seq<Bar>, i: nat)
    requires AllProper(used) && AllProper(chosen) && i < |chosen| && Askable(q)
  {
    Together(used, chosen[..i]);
    chosen[i].size == q.size && Least(chosen[i].base, q, used + chosen[..i])
  }

  /** allocate_bars */
  method AllocateBars(requests: seq<Request>, slots: seq<seq<Bar>>) returns (r: Option<seq<Bar>>, ghost chosen: seq<Bar>)
    requires SlotsProper(slots) && forall i :: 0 <= i < |requests| ==> Askable(requests[i])
    ensures AllProper(AllBars(slots)) && AllProper(chosen) && |chosen| <= |requests| && Greedy(requests, AllBars(slots), chosen)
    ensures r.Some? ==> |r.value| == |requests| && AllProper(r.value) && Greedy(requests, AllBars(slots), r.value)
    ensures r.Some? ==> r.value == chosen
    ensures r.None? ==> |chosen| < |requests| && AllProper(AllBars(slots) + chosen)
    ensures r.None? ==> forall b: nat :: !Feasible(b, requests[|chosen|].size, requests[|chosen|].alignment, AllBars(slots) + chosen)
  {
    hide Feasible, SlotsProper, PowerOfTwo;
    AllBarsProper(slots);
    var bars: seq<Bar> := [];
    for i := 0 to |requests|
      invariant |bars| == i && AllProper(bars) && Greedy(requests, AllBars(slots), bars)
    {
      var q := requests[i];
      var base := AllocateBar(q.size, q.alignment, slots, bars);
      if base.None? {
        return None, bars;
      }
      FeasibleProper(base.value, q, AllBars(slots) + bars);
      MoreChosen(requests, AllBars(slots), bars, Bar(base.value, q.size));
      bars := bars + [Bar(base.value, q.size)];
    }
    return Some(bars), bars;
  }

  lemma FeasibleProper(base: nat, q: Request, bars: seq<Bar>)
    requires Askable(q) && AllProper(bars) && Feasible(base, q.size, q.alignment, bars)
    ensures Proper(Bar(base, q.size))
  {
  }

  lemma MoreChosen(requests: seq<Request>, used: seq<Bar>, chosen: seq<Bar>, b: Bar)
    requires AllProper(used) && AllProper(chosen) && |chosen| < |requests| && (forall i :: 0 <= i < |requests| ==> Askable(requests[i]))
    requires Greedy(requests, used, chosen) && Proper(b) && b.size == requests[|chosen|].size && AllProper(used + chosen)
    requires Least(b.base, requests[|chosen|], used + chosen)
    ensures AllProper(chosen + [b]) && Greedy(requests, used, chosen + [b])
  {
    hide Least;
    var all := chosen + [b];
    assert forall i :: 0 <= i < |chosen| ==> all[i] == chosen[i] && all[..i] == chosen[..i];
    assert all[..|chosen|] == chosen;
    forall i | 0 <= i < |all|
      ensures AllProper(all) && Chosen(requests[i], used, all, i)
    {
      if i < |chosen| {
        assert Chosen(requests[i], used, chosen, i);
      }
    }
  }

  /** The windows chosen for a device overlap neither each other nor any window in use. */
  lemma GreedyDisjoint(requests: seq<Request>, used: seq<Bar>, chosen: seq<Bar>, i: nat)
    requires AllProper(used) && AllProper(chosen) && |chosen| <= |requests| && (forall k :: 0 <= k < |requests| ==> Askable(requests[k]))
    requires Greedy(requests, used, chosen) && i < |chosen|
    ensures Clear(chosen[i], used) && forall j :: 0 <= j < i ==> !Overlap(chosen[i], chosen[j])
  {
    assert Chosen(requests[i], used, chosen, i);
    var all := used + chosen[..i];
    assert Clear(chosen[i], all);
    forall k | 0 <= k < |used|
      ensures !Overlap(chosen[i], used[k])
    {
      assert all[k] == used[k];
    }
    forall j | 0 <= j < i
      ensures !Overlap(chosen[i], chosen[j])
    {
      assert all[|used| + j] == chosen[j];
    }
  }

  // ---------------------------------------------------------------- the windows of all devices

  /** No two windows overlap, of one device or of two. */
  ghost predicate WindowsApart(slots: seq<seq<Bar>>)
    requires SlotsProper(slots)
  {
    forall i, a, j, b :: 0 <= i < |slots| && 0 <= a < |slots[i]| && 0 <= j < |slots| && 0 <= b < |slots[j]| && (i != j || a != b) ==>
      !Overlap(slots[i][a], slots[j][b])
  }

  lemma {:induction false} InAll(slots: seq<seq<Bar>>, i: nat, a: nat)
    requires i < |slots| && a < |slots[i]|
    ensures slots[i][a] in AllBars(slots)
  {
    var n := |slots| - 1;
    if i < n {
      InAll(slots[..n], i, a);
    }
  }

  lemma ClearOf(b: Bar, bars: seq<Bar>, x: Bar)
    requires b.size > 0 && AllProper(bars) && Clear(b, bars) && x in bars
    ensures Proper(x) && !Overlap(b, x) && !Overlap(x, b)
  {
  }

  /** Windows chosen for an empty slot keep all windows apart. */
  lemma AttachedApart(requests: seq<Request>, slots: seq<seq<Bar>>, index: nat, chosen: seq<Bar>)
    requires SlotsProper(slots) && WindowsApart(slots) && index < |slots| && slots[index] == [] && AllProper(AllBars(slots))
    requires AllProper(chosen) && |chosen| <= |requests| && (forall k :: 0 <= k < |requests| ==> Askable(requests[k]))
    requires Greedy(requests, AllBars(slots), chosen)
    ensures SlotsProper(slots[index := chosen]) && WindowsApart(slots[index := chosen])
  {
    hide Greedy, Askable, Clear, AllBars, Overlap;
    var all := slots[index := chosen];
    forall i, a, j, b | 0 <= i < |all| && 0 <= a < |all[i]| && 0 <= j < |all| && 0 <= b < |all[j]| && (i != j || a != b)
      ensures Proper(all[i][a]) && Proper(all[j][b]) && !Overlap(all[i][a], all[j][b])
    {
      if i == index {
        GreedyDisjoint(requests, AllBars(slots), chosen, a);
      }
      if j == index {
        GreedyDisjoint(requests, AllBars(slots), chosen, b);
      }
      if i == index && j == index {
        Symmetric(all[i][a], all[j][b]);
      } else if i == index {
        InAll(slots, j, b);
        ClearOf(chosen[a], AllBars(slots), slots[j][b]);
      } else if j == index {
        InAll(slots, i, a);
        ClearOf(chosen[b], AllBars(slots), slots[i][a]);
      }
    }
  }

  lemma Symmetric(a: Bar, b: Bar)
    requires a.size > 0 && b.size > 0
    ensures Overlap(a, b) <==> Overlap(b, a)
  {
  }
}
