/** The operations of kernel/pmm.c. The direct map is taken to cover every page of memory. */
module PageManager {
  import opened Options
  import opened PageTables
  import opened PhysicalPages

  class Manager {
    var entries: seq<MapEntry>
    /** Index of the first entry not yet looked at. */
    var index: nat
    /** Pages of the current range that were never handed out. */
    var current: Range
    /** First recycled page, or 0. */
    var head: nat
    var freeCount: nat
    var ram: Ram

    /** The recycled pages, in the order of their chain. */
    ghost var list: seq<nat>

    constructor (ram: Ram)
      requires Formed(ram) && |ram.frames| * PAGE <= ADDRESS_LIMIT
      ensures Valid() && forall n: nat :: !Free(n)
    {
      entries, index, current, head, freeCount, this.ram, list := [], 0, Range(0, 0), 0, 0, ram, [];
    }

    /** The free count is the length of the chain plus the fresh pages left in this and later ranges, and no
        page is free twice. */
    ghost predicate Valid()
      reads this
    {
      && Chain(ram, head, list) && Distinct(list) && |ram.frames| * PAGE <= ADDRESS_LIMIT
      && index <= |entries| && MapOk(entries, index, |ram.frames|)
      && (current.first < current.end ==> 0 < current.first && current.end <= |ram.frames|)
      && (forall n :: n in list ==> !In(n, current) && !Later(entries, index, n))
      && (forall n :: In(n, current) ==> !Later(entries, index, n))
      && freeCount == |list| + Size(current) + LaterCount(entries, index)
    }

    ghost predicate Free(n: nat)
      reads this
    {
      n in list || In(n, current) || Later(entries, index, n)
    }

    /** Pages that are in use keep their contents. */
    twostate predicate OthersKept()
      reads this
    {
      && |ram.frames| == |old(ram.frames)| && ram.size == old(ram.size)
      && forall n: nat :: n < |ram.frames| && !old(Free(n)) ==> ram.frames[n] == old(ram.frames[n])
    }

    /** select_next_usable_range */
    method SelectNext() returns (ok: bool)
      requires Valid() && Size(current) == 0
      modifies `index, `current
      ensures Valid() && freeCount == old(freeCount)
      ensures forall n: nat :: Free(n) <==> old(Free(n))
      ensures ok ==> Size(current) > 0 && index > old(index)
      ensures !ok ==> Size(current) == 0 && index == |entries| && forall n: nat :: !Later(entries, index, n)
      ensures forall c: nat :: c > 0 ==> (RoomLater(entries, old(index), c) <==> Size(current) >= c || RoomLater(entries, index, c))
    {
      hide Chain, Distinct, MapOk, Later, LaterCount;
      while index < |entries|
        invariant Valid() && Size(current) == 0 && index >= old(index)
        invariant current == old(current) && freeCount == old(freeCount) && list == old(list)
        invariant forall n: nat :: Later(entries, index, n) <==> old(Later(entries, index, n))
        invariant forall c: nat :: c > 0 ==> (RoomLater(entries, old(index), c) <==> RoomLater(entries, index, c))
        decreases |entries| - index
      {
        var e := entries[index];
        NextEntry(entries, index, |ram.frames|);
        index := index + 1;
        if e.usable {
          var bounds := Bounds(e).value;
          if bounds.first < bounds.end {
            current := bounds;
            return true;
          }
        }
      }
      NoEntry(entries, index);
      current := Range(0, 0);
      return false;
    }

    /** take_fresh_page, without the count */
    method TakeFresh() returns (page: nat)
      requires Valid()
      modifies `index, `current, `freeCount
      ensures Valid()
      ensures page == 0 ==> freeCount == old(freeCount) && (forall n: nat :: Free(n) <==> old(Free(n))) && forall n: nat :: Free(n) ==> n in list
      ensures page != 0 ==> 0 < page < |ram.frames| && page !in list && freeCount == old(freeCount) - 1
      ensures page != 0 ==> old(Free(page)) && forall n: nat :: Free(n) <==> old(Free(n)) && n != page
    {
      hide Chain, Distinct, MapOk, Later, LaterCount;
      if current.first >= current.end {
        var more := SelectNext();
        if !more {
          return 0;
        }
      }
      page := current.first;
      current := Range(current.first + 1, current.end);
      freeCount := freeCount - 1;
    }

    /** kernel_pmm_alloc_page: a free page, cleared; 0 only when no page is free. */
    method AllocPage() returns (page: nat)
      requires Valid()
      modifies this
      ensures Valid() && OthersKept()
      ensures page == 0 <==> forall n: nat :: !old(Free(n))
      ensures page == 0 ==> freeCount == old(freeCount)
      ensures page != 0 ==> page < |ram.frames| && ram.frames[page] == Empty() && freeCount == old(freeCount) - 1
      ensures page != 0 ==> old(Free(page)) && forall n: nat :: Free(n) <==> old(Free(n)) && n != page
    {
      hide Chain, Distinct, MapOk, Later, LaterCount;
      if head != 0 {
        page := TakeRecycled();
      } else {
        assert list == [] by { NoHead(ram, head, list); }
        page := TakeFresh();
        if page == 0 {
          return;
        }
      }
      assert Formed(ram) by { assert Chain(ram, head, list); IsFormed(ram, head, list); }
      ChainCleared(ram, head, list, page);
      ram := Cleared(ram, page);
    }

    /** The first recycled page leaves the chain. */
    method TakeRecycled() returns (page: nat)
      requires Valid() && head != 0
      modifies `head, `list, `freeCount
      ensures Valid() && 0 < page < |ram.frames| && page !in list && freeCount == old(freeCount) - 1
      ensures old(Free(page)) && forall n: nat :: Free(n) <==> old(Free(n)) && n != page
    {
      hide MapOk, Later, LaterCount, Chain, Distinct;
      page := head;
      NoHead(ram, head, list);
      IsFormed(ram, head, list);
      ChainPop(ram, head, list);
      assert forall n :: n in list <==> n == list[0] || n in list[1..];
      head := ram.frames[page][0] / PAGE;
      list := list[1..];
      freeCount := freeCount - 1;
    }

    /** kernel_pmm_free_page: a page that was in use is free again; anything else is ignored. */
    method FreePage(page: nat)
      requires Valid() && !Free(page)
      modifies `ram, `head, `freeCount, `list
      ensures Valid() && OthersFreed(page)
      ensures 0 < page < |ram.frames| ==> freeCount == old(freeCount) + 1 && forall n: nat :: Free(n) <==> old(Free(n)) || n == page
      ensures !(0 < page < |ram.frames|) ==> ram == old(ram) && freeCount == old(freeCount) && forall n: nat :: Free(n) <==> old(Free(n))
    {
      hide MapOk, Later, LaterCount, Chain, Distinct;
      if page == 0 || page >= |ram.frames| {
        return;
      }
      HeadFits(ram, head, list);
      IsFormed(ram, head, list);
      assert forall n :: n in [page] + list <==> n == page || n in list;
      ChainPush(ram, head, list, page);
      ram := Written(ram, page, 0, head * PAGE);
      head := page;
      list := [page] + list;
      freeCount := freeCount + 1;
    }

    /** The recycled part of kernel_pmm_alloc_contiguous looks for `count` pages in a row, each one below the
        page before it in the chain. */
    method FindRun(count: nat) returns (found: bool, before: nat, last: nat, next: nat, ghost s: nat, ghost i: nat)
      requires Valid() && count > 0
      ensures found ==> s <= i < |list| && i - s + 1 == count && Descends(list, s, i)
      ensures found ==> before == (if s == 0 then 0 else list[s - 1]) && last == list[i] && next == Following(list, i)
      ensures found ==> forall p: nat :: p < s ==> !RunAt(list, p, count)
      ensures found <==> HasRun(list, count)
    {
      hide MapOk, Later, LaterCount, Distinct, Chain, Descends, RunAt;
      NoHead(ram, head, list);
      before, last, next, s, i := 0, head, 0, 0, 0;
      var length := if head != 0 then 1 else 0;
      assert list != [] ==> Descends(list, 0, 0) by { RunStarts(list, 0); }
      while last != 0
        invariant i <= |list| && s <= |list| && last == if i < |list| then list[i] else 0
        invariant i < |list| ==> s <= i && length == i - s + 1 <= count && Descends(list, s, i)
        invariant before == if s == 0 then 0 else list[s - 1]
        invariant 0 < s < |list| ==> list[s - 1] != list[s] + 1
        invariant forall p: nat :: p + count <= i ==> !RunAt(list, p, count)
        decreases |list| - i
      {
        IsFormed(ram, head, list);
        LinkRead(ram, head, list, i);
        next := ram.frames[last][0] / PAGE;
        if length == count {
          assert RunAt(list, s, count) by { WholeRun(list, s, i); }
          return true, before, last, next, s, i;
        }
        if s <= i && i - s + 1 < count <= i + 1 {
          RunBroken(list, s, i + 1 - count, count);
        }
        if next != 0 && next == last - 1 {
          length := length + 1;
          RunGrows(list, s, i);
        } else {
          before := last;
          length := if next != 0 then 1 else 0;
          s := i + 1;
          RunStarts(list, i + 1);
        }
        last := next;
        i := i + 1;
      }
      forall p: nat
        ensures !RunAt(list, p, count)
      {
        if p + count > |list| {
          RunInside(list, p, count);
        }
      }
      return false, 0, 0, 0, 0, 0;
    }

    /** The pages at positions `s` to `i` of the chain leave it. */
    method Splice(before: nat, next: nat, count: nat, ghost s: nat, ghost i: nat)
      requires Valid() && s <= i < |list| && count == i - s + 1 && Descends(list, s, i)
      requires before == (if s == 0 then 0 else list[s - 1]) && next == Following(list, i)
      modifies `ram, `head, `list, `freeCount
      ensures Valid() && OthersKept() && RunTaken(old(list)[i], count)
    {
      hide MapOk, Later, LaterCount, Distinct, Chain, Descends, Cut, Following;
      NoHead(ram, head, list);
      IsFormed(ram, head, list);
      CutMembers(list, s, i);
      assert list[i] + (i - s) in list;
      if before == 0 {
        CutFront(ram, head, list, i);
        head := next;
      } else {
        CutMiddle(ram, head, list, s, i);
        assert list[s - 1] in list;
        ram := Written(ram, before, 0, next * PAGE);
      }
      list := Cut(list, s, i);
      freeCount := freeCount - count;
    }

    /** The pages of the current range that are left go to the chain. */
    method RecycleTail()
      requires Valid()
      modifies `current, `ram, `head, `list
      ensures Valid() && Size(current) == 0 && OthersKept() && freeCount == old(freeCount)
      ensures forall n: nat :: Free(n) <==> old(Free(n))
    {
      hide MapOk, Later, LaterCount, Distinct, Chain;
      while current.first < current.end
        invariant Valid() && OthersKept() && freeCount == old(freeCount)
        invariant forall n: nat :: Free(n) <==> old(Free(n))
        decreases current.end - current.first
      {
        var page := current.first;
        HeadFits(ram, head, list);
        IsFormed(ram, head, list);
        ChainPush(ram, head, list, page);
        current := Range(current.first + 1, current.end);
        ram := Written(ram, page, 0, head * PAGE);
        head := page;
        list := [page] + list;
      }
    }

    /** Pages that were taken are cleared. */
    method ClearPages(first: nat, count: nat)
      requires Valid() && first + count <= |ram.frames| && forall n: nat :: first <= n < first + count ==> !Free(n)
      modifies `ram
      ensures Valid() && |ram.frames| == old(|ram.frames|) && ram.size == old(ram.size)
      ensures forall n: nat :: Free(n) <==> old(Free(n))
      ensures forall n: nat :: first <= n < first + count ==> ram.frames[n] == Empty()
      ensures forall n: nat :: n < |ram.frames| && !(first <= n < first + count) ==> ram.frames[n] == old(ram.frames[n])
    {
      hide MapOk, Later, LaterCount, Distinct, Chain;
      for k := 0 to count
        invariant Valid() && |ram.frames| == old(|ram.frames|) && ram.size == old(ram.size)
        invariant forall n: nat :: Free(n) <==> old(Free(n))
        invariant forall n: nat :: first <= n < first + k ==> ram.frames[n] == Empty()
        invariant forall n: nat :: n < |ram.frames| && !(first <= n < first + k) ==> ram.frames[n] == old(ram.frames[n])
      {
        assert !Free(first + k);
        ChainCleared(ram, head, list, first + k);
        ram := Cleared(ram, first + k);
      }
    }

    /** Where kernel_pmm_alloc_contiguous looks: a run in the chain, or one range that is large enough. */
    ghost predicate Room(count: nat)
      reads this
    {
      HasRun(list, count) || Fresh(count)
    }

    ghost predicate Fresh(count: nat)
      reads this
    {
      Size(current) >= count || RoomLater(entries, index, count)
    }

    /** kernel_pmm_alloc_contiguous: pages in a row that were free, cleared; a failure leaves the same pages free, and
        comes only where there is no such run. */
    method AllocContiguous(count: nat) returns (first: nat)
      requires Valid()
      modifies this
      ensures Valid() && OthersKept()
      ensures first != 0 <==> 0 < count <= old(freeCount) && old(Room(count))
      ensures first == 0 ==> freeCount == old(freeCount) && forall n: nat :: Free(n) <==> old(Free(n))
      ensures first != 0 ==> count > 0 && RunTaken(first, count) && forall n: nat :: first <= n < first + count ==> ram.frames[n] == Empty()
    {
      hide MapOk, Later, LaterCount, Distinct, Chain, Descends, Following;
      if count == 0 || count > freeCount {
        return 0;
      }
      ghost var s, i;
      var found, before, last, next;
      found, before, last, next, s, i := FindRun(count);
      assert forall n: nat :: Free(n) <==> old(Free(n));
      if found {
        TakeRun(before, last, next, count, s, i);
        return last;
      }
      first := AllocFresh(count);
    }

    /** The run that was found is taken and cleared. */
    method TakeRun(before: nat, last: nat, next: nat, count: nat, ghost s: nat, ghost i: nat)
      requires Valid() && s <= i < |list| && count == i - s + 1 && Descends(list, s, i) && last == list[i]
      requires before == (if s == 0 then 0 else list[s - 1]) && next == Following(list, i)
      modifies this
      ensures Valid() && OthersKept() && RunTaken(last, count)
      ensures forall n: nat :: last <= n < last + count ==> ram.frames[n] == Empty()
    {
      hide MapOk, Later, LaterCount, Distinct, Chain, Descends, Following;
      Splice(before, next, count, s, i);
      ClearPages(last, count);
    }

    /** The rest of kernel_pmm_alloc_contiguous: fresh ranges, one after the other. */
    method AllocFresh(count: nat) returns (first: nat)
      requires Valid() && count > 0
      modifies this
      ensures Valid() && OthersKept() && (first != 0 <==> old(Fresh(count)))
      ensures first == 0 ==> freeCount == old(freeCount) && forall n: nat :: Free(n) <==> old(Free(n))
      ensures first != 0 ==> RunTaken(first, count) && forall n: nat :: first <= n < first + count ==> ram.frames[n] == Empty()
    {
      hide MapOk, Later, LaterCount, Distinct, Chain;
      while true
        invariant Valid() && OthersKept() && freeCount == old(freeCount) && (Fresh(count) <==> old(Fresh(count)))
        invariant forall n: nat :: Free(n) <==> old(Free(n))
        decreases |entries| - index
      {
        if current.first < current.end && current.end - current.first >= count {
          first := current.first;
          current := Range(current.first + count, current.end);
          freeCount := freeCount - count;
          ClearPages(first, count);
          return;
        }
        RecycleTail();
        var more := SelectNext();
        if !more {
          return 0;
        }
      }
    }

    /** kernel_pmm_release_range: every page of the range goes back, in ascending order. */
    method ReleaseRange(first: nat, count: nat)
      requires Valid() && forall n: nat :: first <= n < first + count ==> !Free(n)
      modifies this
      ensures Valid()
      ensures first + count <= |ram.frames| ==> forall n: nat :: Free(n) <==> old(Free(n)) || (first <= n < first + count && n > 0)
      ensures first + count > |ram.frames| ==> forall n: nat :: Free(n) <==> old(Free(n))
      ensures |ram.frames| == old(|ram.frames|) && forall n: nat :: n < |ram.frames| && !Free(n) ==> ram.frames[n] == old(ram.frames[n])
    {
      hide MapOk, Later, LaterCount, Distinct, Chain;
      if first + count > |ram.frames| {
        return;
      }
      for k := 0 to count
        invariant Valid() && |ram.frames| == old(|ram.frames|)
        invariant forall n: nat :: Free(n) <==> old(Free(n)) || (first <= n < first + k && n > 0)
        invariant forall n: nat :: n < |ram.frames| && !Free(n) ==> ram.frames[n] == old(ram.frames[n])
      {
        FreePage(first + k);
      }
    }

    /** kernel_pmm_init: the map is accepted when every usable entry has bounds inside memory and there is at
        least one page; then exactly the pages of usable entries are free. */
    method Init(entries: seq<MapEntry>) returns (ok: bool)
      requires Formed(ram) && |ram.frames| * PAGE <= ADDRESS_LIMIT && Apart(entries)
      modifies this
      ensures ok <==> (forall k :: 0 <= k < |entries| ==> Acceptable(entries[k], |ram.frames|)) && LaterCount(entries, 0) > 0
      ensures ok ==> Valid() && ram == old(ram) && list == [] && freeCount == LaterCount(entries, 0)
      ensures ok ==> forall n: nat :: Free(n) <==> Later(entries, 0, n)
    {
      this.entries, index, current, head, freeCount, list := entries, 0, Range(0, 0), 0, 0, [];
      for k := 0 to |entries|
        invariant forall j :: 0 <= j < k ==> Acceptable(entries[j], |ram.frames|)
        invariant freeCount + LaterCount(entries, k) == LaterCount(entries, 0)
        invariant this.entries == entries && index == 0 && current == Range(0, 0) && head == 0 && list == [] && ram == old(ram)
      {
        if entries[k].usable {
          var bounds := Bounds(entries[k]);
          if bounds.None? || bounds.value.end > |ram.frames| {
            return false;
          }
          freeCount := freeCount + Size(bounds.value);
        }
      }
      AcceptedMap(entries, 0, |ram.frames|);
      return freeCount > 0;
    }

    /** Exactly the pages from `first` on are no longer free. */
    twostate predicate RunTaken(first: nat, count: nat)
      reads this
    {
      && first > 0 && first + count <= |ram.frames| && freeCount == old(freeCount) - count
      && (forall n: nat :: first <= n < first + count ==> old(Free(n)))
      && forall n: nat :: Free(n) <==> old(Free(n)) && !(first <= n < first + count)
    }

    /** Pages in use, other than the one given back, keep their contents. */
    twostate predicate OthersFreed(page: nat)
      reads this
    {
      && |ram.frames| == |old(ram.frames)| && ram.size == old(ram.size)
      && forall n: nat :: n < |ram.frames| && n != page ==> ram.frames[n] == old(ram.frames[n])
    }
  }

  lemma IsFormed(ram: Ram, head: nat, list: seq<nat>)
    requires Chain(ram, head, list)
    ensures Formed(ram)
  {
  }

  lemma RunStarts(list: seq<nat>, i: nat)
    ensures i < |list| ==> Descends(list, i, i)
  {
  }

  lemma RunInside(list: seq<nat>, p: nat, count: nat)
    ensures RunAt(list, p, count) ==> p + count <= |list|
  {
  }

  lemma WholeRun(list: seq<nat>, s: nat, i: nat)
    requires s <= i < |list| && Descends(list, s, i)
    ensures RunAt(list, s, i - s + 1)
  {
  }

  lemma RunGrows(list: seq<nat>, s: nat, i: nat)
    requires s <= i < |list| && Descends(list, s, i) && (i + 1 < |list| ==> list[i] == list[i + 1] + 1)
    ensures i + 1 < |list| ==> Descends(list, s, i + 1)
  {
  }

  lemma NoHead(ram: Ram, head: nat, list: seq<nat>)
    requires Chain(ram, head, list)
    ensures head == (if list == [] then 0 else list[0]) && (list == [] <==> head == 0)
    ensures forall i :: 0 <= i < |list| ==> 0 < list[i] < |ram.frames|
    ensures forall n :: n in list ==> 0 < n < |ram.frames|
  {
  }

  lemma HeadFits(ram: Ram, head: nat, list: seq<nat>)
    requires Chain(ram, head, list) && |ram.frames| * PAGE <= ADDRESS_LIMIT
    ensures head * PAGE < ADDRESS_LIMIT
  {
  }
}
