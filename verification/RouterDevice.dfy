/** The interrupt router as the device updates it, proved against its state machine. */
module RouterDevice {
  import opened Options
  import opened InterruptRouter

  class Router {
    var programmable: bool
    var enabled: set<nat>
    var pending: set<nat>
    var active: set<nat>
    var routes: seq<nat>
    /** Lines pending at each target's controller. */
    var held: seq<set<nat>>

    constructor (targets: nat)
      requires targets > 0
      ensures Valid() && !programmable && |held| == targets
      ensures pending == {} && active == {} && forall t :: 0 <= t < targets ==> held[t] == {}
    {
      programmable, enabled, pending, active := false, Lines(LINES), {}, {};
      routes, held := seq(LINES, _ => 0), seq(targets, _ => {});
    }

    ghost function Now(): State
      reads this
    {
      State(programmable, enabled, pending, active, routes, held)
    }

    ghost predicate Valid()
      reads this
    {
      Formed(Now())
    }

    /** target_has_active_locked */
    method HasActive(t: nat) returns (busy: bool)
      requires Valid()
      ensures busy == Busy(Now(), t)
    {
      for l := 0 to EXTERNAL
        invariant forall k :: 0 <= k < l ==> !(k in active && routes[k] == t)
      {
        if l in active && routes[l] == t {
          return true;
        }
      }
      return false;
    }

    /** dispatch_target_locked */
    method DispatchTarget(t: nat)
      requires Valid()
      modifies this
      ensures Now() == Dispatch(old(Now()), t)
    {
      if t >= |held| {
        return;
      }
      var busy := HasActive(t);
      if busy {
        return;
      }
      for l := 0 to EXTERNAL
        invariant Now() == old(Now()) && FirstFrom(Now(), t, 0) == FirstFrom(Now(), t, l)
      {
        if l in pending && l in enabled && routes[l] == t {
          pending := pending - {l};
          active := active + {l};
          held := held[t := held[t] + {l}];
          return;
        }
      }
    }

    /** dispatch_all_locked */
    method DispatchAll()
      requires Valid()
      modifies this
      ensures Now() == DispatchUpTo(old(Now()), old(|held|))
    {
      for t := 0 to |held|
        invariant Valid() && |held| == old(|held|)
        invariant Now() == DispatchUpTo(old(Now()), t)
      {
        DispatchTarget(t);
      }
    }

    /** interrupt_router_programmable_reset */
    method ProgrammableReset()
      requires Valid()
      modifies this
      ensures Now() == Next(old(Now()), Reset)
    {
      programmable, enabled, pending, active := true, {}, {}, {};
      routes, held := seq(LINES, _ => 0), seq(|held|, _ => {});
    }

    /** interrupt_router_set_route */
    method SetRouteOf(l: nat, t: nat) returns (ok: bool)
      requires Valid()
      modifies this
      ensures Valid()
      ensures old(programmable) ==> Now() == Next(old(Now()), SetRoute(l, t)) && ok == (l < EXTERNAL && t < old(|held|) && l !in old(active))
      ensures !old(programmable) ==> ok == (l < LINES && t < old(|held|))
      ensures !old(programmable) ==> Now() == if ok then old(Now()).(routes := old(routes)[l := t]) else old(Now())
    {
      if l >= LINES || t >= |held| {
        return false;
      }
      if programmable && (l >= EXTERNAL || l in active) {
        return false;
      }
      routes := routes[l := t];
      if programmable {
        DispatchTarget(t);
      }
      return true;
    }

    /** interrupt_router_raise */
    method RaiseLine(l: nat) returns (ok: bool)
      requires Valid()
      modifies this
      ensures Valid()
      ensures old(programmable) ==> Now() == Next(old(Now()), Raise(l)) && ok == (l < EXTERNAL)
      ensures !old(programmable) ==> ok == (l < LINES)
      ensures !old(programmable) ==> Now() == if ok then old(Now()).(held := Marked(old(held), old(routes[l]), l)) else old(Now())
    {
      if l >= LINES {
        return false;
      }
      if !programmable {
        var t := routes[l];
        held := Marked(held, t, l);
        return true;
      }
      if l >= EXTERNAL {
        return false;
      }
      pending := pending + {l};
      if l !in active {
        DispatchTarget(routes[l]);
      }
      return true;
    }

    /** interrupt_router_clear */
    method ClearLine(l: nat) returns (ok: bool)
      requires Valid()
      modifies this
      ensures Valid()
      ensures old(programmable) ==> Now() == Next(old(Now()), Clear(l)) && ok == (l < EXTERNAL)
      ensures !old(programmable) ==> ok == (l < LINES)
      ensures !old(programmable) ==> Now() == if ok then old(Now()).(held := Unmarked(old(held), old(routes[l]), l)) else old(Now())
    {
      if l >= LINES {
        return false;
      }
      if programmable {
        if l >= EXTERNAL {
          return false;
        }
        var t := routes[l];
        pending := pending - {l};
        if l in active {
          active := active - {l};
          held := Unmarked(held, t, l);
          DispatchTarget(t);
        }
        return true;
      }
      held := Unmarked(held, routes[l], l);
      return true;
    }

    /** interrupt_router_set_enabled */
    method SetEnabledLines(mask: set<nat>) returns (ok: bool)
      requires Valid()
      modifies this
      ensures Valid() && ok == (External(mask) && old(programmable))
      ensures Now() == if ok then Next(old(Now()), SetEnabled(mask)) else old(Now())
    {
      if !External(mask) || !programmable {
        return false;
      }
      enabled := mask;
      DispatchAll();
      return true;
    }

    /** interrupt_router_enable_lines */
    method EnableLines(mask: set<nat>) returns (ok: bool)
      requires Valid()
      modifies this
      ensures Valid() && ok == (External(mask) && old(programmable))
      ensures Now() == if ok then Next(old(Now()), Enable(mask)) else old(Now())
    {
      if !External(mask) || !programmable {
        return false;
      }
      enabled := enabled + mask;
      DispatchAll();
      return true;
    }

    /** interrupt_router_disable_lines */
    method DisableLines(mask: set<nat>) returns (ok: bool)
      requires Valid()
      modifies this
      ensures Valid() && ok == (External(mask) && old(programmable))
      ensures Now() == if ok then Next(old(Now()), Disable(mask)) else old(Now())
    {
      if !External(mask) || !programmable {
        return false;
      }
      enabled := enabled - mask;
      return true;
    }

    /** interrupt_router_eoi */
    method EndOfInterrupt(l: nat) returns (ok: bool)
      requires Valid()
      modifies this
      ensures Valid() && ok == (l < EXTERNAL && old(programmable) && l in old(active))
      ensures Now() == if ok then Next(old(Now()), Eoi(l)) else old(Now())
    {
      if l >= EXTERNAL || !programmable || l !in active {
        return false;
      }
      var t := routes[l];
      active := active - {l};
      DispatchTarget(t);
      return true;
    }

    /** lowest_set_bit, from line `start` up */
    method LowestLine(lines: set<nat>, start: nat) returns (l: nat)
      requires start <= LINES && NextLine(lines, start).Some?
      ensures NextLine(lines, start) == Some(l)
    {
      l := start;
      while l !in lines
        invariant start <= l < LINES && NextLine(lines, start) == NextLine(lines, l)
        decreases LINES - l
      {
        l := l + 1;
      }
    }

    /** interrupt_controller_take_next, once its compare-and-swap succeeds */
    method TakeNext(t: nat) returns (r: Option<nat>)
      requires Valid() && t < |held| && forall l :: l in held[t] ==> l < LINES
      modifies `held
      ensures Now() == Next(old(Now()), Take(t)) && r == Selected(old(held[t]))
    {
      if held[t] == {} {
        return None;
      }
      var any :| any in held[t];
      var l;
      if exists k :: k in held[t] && k >= EXTERNAL {
        l := LowestLine(held[t], EXTERNAL);
      } else {
        l := LowestLine(held[t], 0);
      }
      held := held[t := held[t] - {l}];
      return Some(l);
    }
  }

  function Lines(n: nat): set<nat> {
    if n == 0 then {} else Lines(n - 1) + {n - 1}
  }

  function Marked(held: seq<set<nat>>, t: nat, l: nat): seq<set<nat>>
    requires t < |held|
  {
    held[t := held[t] + {l}]
  }

  function Unmarked(held: seq<set<nat>>, t: nat, l: nat): seq<set<nat>>
    requires t < |held|
  {
    held[t := held[t] - {l}]
  }
}
