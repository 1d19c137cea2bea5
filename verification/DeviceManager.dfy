/** Device slots, interrupt lines and address windows of the device manager (src/device_manager.c). */
module DeviceManager {
  import opened Options
  import opened DeviceBars

  const SLOTS: nat := 16
  const FIRST_LINE: nat := 2
  const LINES: nat := 48

  /** A device that is present: one of the machine's own, or an external module. */
  datatype Slot = Slot(external: bool, bars: seq<Bar>, irqs: seq<nat>)

  /** The windows of each slot. */
  function Windows(slots: seq<Option<Slot>>): (r: seq<seq<Bar>>)
    ensures |r| == |slots| && forall i :: 0 <= i < |slots| ==> r[i] == if slots[i].Some? then slots[i].value.bars else []
  {
    seq(|slots|, i requires 0 <= i < |slots| => if slots[i].Some? then slots[i].value.bars else [])
  }

  /** The lowest line from `l` on that no device has. */
  function FreeLine(used: set<nat>, l: nat): (r: Option<nat>)
    requires l <= LINES
    ensures r.Some? ==> l <= r.value < LINES && r.value !in used && forall k :: l <= k < r.value ==> k in used
    ensures r.None? ==> forall k :: l <= k < LINES ==> k in used
    decreases LINES - l
  {
    if l == LINES then None else if l !in used then Some(l) else FreeLine(used, l + 1)
  }

  function Lines(irqs: seq<nat>): set<nat> {
    set l | l in irqs
  }

  ghost predicate Distinct(irqs: seq<nat>) {
    forall i, j :: 0 <= i < j < |irqs| ==> irqs[i] != irqs[j]
  }

  class Manager {
    var slots: seq<Option<Slot>>
    var irqUsed: set<nat>

    constructor ()
      ensures Valid() && irqUsed == {} && forall i :: 0 <= i < SLOTS ==> slots[i] == None
    {
      slots, irqUsed := seq(SLOTS, _ => None), {};
    }

    /** Lines of present devices are marked, each for one device, and no two windows overlap. */
    ghost predicate Valid()
      reads this
    {
      && |slots| == SLOTS && SlotsProper(Windows(slots)) && WindowsApart(Windows(slots))
      && (forall i :: 0 <= i < SLOTS && slots[i].Some? ==> Distinct(slots[i].value.irqs) && Lines(slots[i].value.irqs) <= irqUsed)
      && (forall i, j :: 0 <= i < j < SLOTS && slots[i].Some? && slots[j].Some? ==>
            Lines(slots[i].value.irqs) !! Lines(slots[j].value.irqs))
    }

    /** free_slot_index */
    method FreeSlot() returns (index: nat)
      requires Valid()
      ensures index <= SLOTS && (index < SLOTS ==> slots[index].None?) && forall i :: 0 <= i < index ==> slots[i].Some?
    {
      for i := 0 to SLOTS
        invariant forall k :: 0 <= k < i ==> slots[k].Some?
      {
        if slots[i].None? {
          return i;
        }
      }
      return SLOTS;
    }

    /** allocate_irq */
    method AllocateLine() returns (r: Option<nat>)
      modifies `irqUsed
      ensures r == FreeLine(old(irqUsed), FIRST_LINE)
      ensures irqUsed == if r.Some? then old(irqUsed) + {r.value} else old(irqUsed)
    {
      for l := FIRST_LINE to LINES
        invariant irqUsed == old(irqUsed) && FreeLine(irqUsed, FIRST_LINE) == FreeLine(irqUsed, l)
      {
        if l !in irqUsed {
          irqUsed := irqUsed + {l};
          return Some(l);
        }
      }
      return None;
    }

    /** The lines a new device asks for, all or none; each is the lowest one free at its turn. */
    method AllocateLines(count: nat) returns (r: Option<seq<nat>>)
      modifies `irqUsed
      ensures r.None? ==> irqUsed == old(irqUsed)
      ensures r.Some? ==> |r.value| == count && Distinct(r.value) && Lines(r.value) !! old(irqUsed) && irqUsed == old(irqUsed) + Lines(r.value)
      ensures r.Some? ==> forall k :: 0 <= k < count ==> FreeLine(old(irqUsed) + Lines(r.value[..k]), FIRST_LINE) == Some(r.value[k])
    {
      var irqs: seq<nat> := [];
      while |irqs| < count
        invariant |irqs| <= count && Distinct(irqs) && Lines(irqs) !! old(irqUsed) && irqUsed == old(irqUsed) + Lines(irqs)
        invariant forall k :: 0 <= k < |irqs| ==> FreeLine(old(irqUsed) + Lines(irqs[..k]), FIRST_LINE) == Some(irqs[k])
      {
        var line := AllocateLine();
        if line.None? {
          irqUsed := irqUsed - Lines(irqs);
          return None;
        }
        assert forall k :: 0 <= k <= |irqs| ==> (irqs + [line.value])[..k] == irqs[..k];
        assert Lines(irqs + [line.value]) == Lines(irqs) + {line.value};
        assert irqs[..|irqs|] == irqs;
        irqs := irqs + [line.value];
      }
      return Some(irqs);
    }

    /** attach_module_locked: the device gets a slot, its windows and its lines, or nothing at all. Whether the
        module starts and its windows can be put on the bus is not decided here. */
    method Attach(requests: seq<Request>, lines: nat, starts: bool) returns (r: Option<nat>, ghost chosen: seq<Bar>)
      requires Valid() && forall i :: 0 <= i < |requests| ==> Askable(requests[i])
      modifies this
      ensures Valid()
      ensures r.None? ==> slots == old(slots) && irqUsed == old(irqUsed)
      ensures r.Some? ==> r.value < SLOTS && old(slots[r.value]).None? && starts
      ensures r.Some? ==> slots[r.value].Some? && slots == old(slots)[r.value := slots[r.value]]
      ensures r.Some? ==> var s := slots[r.value].value;
        && s.external && s.bars == chosen && |chosen| == |requests| && |s.irqs| == lines
        && Distinct(s.irqs) && Lines(s.irqs) !! old(irqUsed) && irqUsed == old(irqUsed) + Lines(s.irqs)
      ensures AllProper(old(AllBars(Windows(slots)))) && AllProper(chosen) && |chosen| <= |requests|
      ensures r.Some? ==> Greedy(requests, old(AllBars(Windows(slots))), chosen)
    {
      hide Greedy, AllBars, Lines, Distinct, Askable, WindowsApart, Overlap;
      chosen := [];
      AllBarsProper(Windows(slots));
      var index := FreeSlot();
      if index == SLOTS {
        return None, chosen;
      }
      var bars;
      bars, chosen := AllocateBars(requests, Windows(slots));
      if bars.None? {
        return None, chosen;
      }
      var irqs := AllocateLines(lines);
      if irqs.None? {
        return None, chosen;
      }
      if !starts {
        irqUsed := irqUsed - Lines(irqs.value);
        return None, chosen;
      }
      AttachedApart(requests, Windows(slots), index, chosen);
      assert Windows(slots[index := Some(Slot(true, bars.value, irqs.value))]) == Windows(slots)[index := chosen];
      slots := slots[index := Some(Slot(true, bars.value, irqs.value))];
      return Some(index), chosen;
    }

    /** detach_module_locked: the slot is empty again and the lines of the device are free. */
    method Detach(index: nat, unmaps: bool) returns (ok: bool)
      requires Valid()
      modifies this
      ensures Valid() && ok == (index < SLOTS && old(slots)[index].Some? && old(slots)[index].value.external && unmaps)
      ensures !ok ==> slots == old(slots) && irqUsed == old(irqUsed)
      ensures ok ==> slots == old(slots)[index := None] && irqUsed == old(irqUsed) - Lines(old(slots)[index].value.irqs)
    {
      if index >= SLOTS || slots[index].None? || !slots[index].value.external || !unmaps {
        return false;
      }
      irqUsed := irqUsed - Lines(slots[index].value.irqs);
      slots := slots[index := None];
      return true;
    }

    /** A device that comes and goes leaves the slots and the lines as they were. */
    method AttachDetach(requests: seq<Request>, lines: nat) returns (ok: bool)
      requires Valid() && forall i :: 0 <= i < |requests| ==> Askable(requests[i])
      modifies this
      ensures Valid() && slots == old(slots) && irqUsed == old(irqUsed)
    {
      hide Greedy, AllBars, Lines, Askable;
      ghost var chosen;
      var r;
      r, chosen := Attach(requests, lines, true);
      if r.None? {
        return false;
      }
      ok := Detach(r.value, true);
    }
  }
}
