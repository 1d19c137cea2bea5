/** The state machine of the interrupt router and the controllers it feeds (src/interrupt.c), and what
    holds in every run of it. Bit masks are sets of line numbers. */
module InterruptRouter {
  import opened Options

  const LINES: nat := 64
  /** Lines below this come from devices; the others are inter-processor interrupts. */
  const EXTERNAL: nat := 48

  /** `held[t]` is the set of lines pending at the controller of target `t`. */
  datatype State = State(programmable: bool, enabled: set<nat>, pending: set<nat>, active: set<nat>,
                         routes: seq<nat>, held: seq<set<nat>>)

  predicate Formed(s: State) {
    |s.routes| == LINES && |s.held| > 0 && forall l :: 0 <= l < LINES ==> s.routes[l] < |s.held|
  }

  predicate External(mask: set<nat>) {
    forall l :: l in mask ==> l < EXTERNAL
  }

  // ---------------------------------------------------------------- dispatch

  /** An active line occupies target `t`. */
  predicate Busy(s: State, t: nat)
    requires Formed(s)
  {
    exists l :: 0 <= l < EXTERNAL && l in s.active && s.routes[l] == t
  }

  predicate Deliverable(s: State, t: nat, l: nat)
    requires Formed(s)
  {
    l < EXTERNAL && l in s.pending && l in s.enabled && s.routes[l] == t
  }

  /** The first deliverable line for `t` from `l` up. */
  function FirstFrom(s: State, t: nat, l: nat): (r: Option<nat>)
    requires Formed(s) && l <= EXTERNAL
    ensures r.Some? ==> l <= r.value && Deliverable(s, t, r.value) && forall k: nat :: l <= k < r.value ==> !Deliverable(s, t, k)
    ensures r.None? ==> forall k: nat :: l <= k ==> !Deliverable(s, t, k)
    decreases EXTERNAL - l
  {
    if l == EXTERNAL then None
    else if Deliverable(s, t, l) then Some(l)
    else FirstFrom(s, t, l + 1)
  }

  function Delivered(s: State, t: nat, l: nat): State
    requires t < |s.held|
  {
    State(s.programmable, s.enabled, s.pending - {l}, s.active + {l}, s.routes, s.held[t := s.held[t] + {l}])
  }

  /** What an idle target does: it takes the lowest line that is waiting for it. */
  function Dispatch(s: State, t: nat): (r: State)
    requires Formed(s)
    ensures Formed(r) && |r.held| == |s.held|
  {
    if t >= |s.held| || Busy(s, t) then s
    else
      match FirstFrom(s, t, 0)
      case None => s
      case Some(l) => Delivered(s, t, l)
  }

  function DispatchUpTo(s: State, n: nat): (r: State)
    requires Formed(s)
    ensures Formed(r)
  {
    if n == 0 then s else Dispatch(DispatchUpTo(s, n - 1), n - 1)
  }

  // ---------------------------------------------------------------- events

  datatype Event =
    | Reset
    | SetRoute(line: nat, target: nat)
    | Raise(line: nat)
    | Clear(line: nat)
    | SetEnabled(mask: set<nat>)
    | Enable(mask: set<nat>)
    | Disable(mask: set<nat>)
    | Eoi(line: nat)
    | Take(target: nat)
    | Ipi(target: nat, line: nat)

  /** The line a controller gives out next: an inter-processor interrupt if there is one, the lowest first. */
  function NextLine(held: set<nat>, l: nat): (r: Option<nat>)
    requires l <= LINES
    ensures r.Some? ==> r.value in held && l <= r.value < LINES && forall k :: l <= k < r.value ==> k !in held
    ensures r.None? ==> forall k :: l <= k < LINES ==> k !in held
    decreases LINES - l
  {
    if l == LINES then None else if l in held then Some(l) else NextLine(held, l + 1)
  }

  function Selected(held: set<nat>): Option<nat> {
    if NextLine(held, EXTERNAL).Some? then NextLine(held, EXTERNAL) else NextLine(held, 0)
  }

  /** The state after an event, in programmable mode. */
  function Next(s: State, e: Event): (r: State)
    requires Formed(s)
    ensures Formed(r)
  {
    match e
    case Reset => State(true, {}, {}, {}, seq(LINES, _ => 0), seq(|s.held|, _ => {}))
    case SetRoute(l, t) =>
      if l >= EXTERNAL || t >= |s.held| || l in s.active then s
      else Dispatch(s.(routes := s.routes[l := t]), t)
    case Raise(l) =>
      if l >= EXTERNAL then s
      else
        var s1 := s.(pending := s.pending + {l});
        if l in s.active then s1 else Dispatch(s1, s.routes[l])
    case Clear(l) =>
      if l >= EXTERNAL then s
      else
        var s1 := s.(pending := s.pending - {l});
        if l !in s.active then s1
        else
          var t := s.routes[l];
          Dispatch(s1.(active := s.active - {l}, held := s.held[t := s.held[t] - {l}]), t)
    case SetEnabled(mask) => if !External(mask) then s else DispatchUpTo(s.(enabled := mask), |s.held|)
    case Enable(mask) => if !External(mask) then s else DispatchUpTo(s.(enabled := s.enabled + mask), |s.held|)
    case Disable(mask) => if !External(mask) then s else s.(enabled := s.enabled - mask)
    case Eoi(l) =>
      if l >= EXTERNAL || l !in s.active then s
      else Dispatch(s.(active := s.active - {l}), s.routes[l])
    case Take(t) =>
      if t >= |s.held| || Selected(s.held[t]).None? then s
      else s.(held := s.held[t := s.held[t] - {Selected(s.held[t]).value}])
    case Ipi(t, l) => if t >= |s.held| || l < EXTERNAL || l >= LINES then s else s.(held := s.held[t := s.held[t] + {l}])
  }

  function After(s: State, events: seq<Event>): (r: State)
    requires Formed(s)
    ensures Formed(r)
  {
    if events == [] then s else Next(After(s, events[..|events| - 1]), events[|events| - 1])
  }

  // ---------------------------------------------------------------- invariants of every run

  ghost predicate OnePerTarget(s: State)
    requires Formed(s)
  {
    forall a, b :: a in s.active && b in s.active && a < EXTERNAL && b < EXTERNAL && s.routes[a] == s.routes[b] ==> a == b
  }

  /** Target `t` is not idle while a line is waiting for it. */
  ghost predicate NotIdle(s: State, t: nat)
    requires Formed(s)
  {
    Busy(s, t) || forall l: nat :: !Deliverable(s, t, l)
  }

  /** Masks name device lines, and a target has at most one active line. */
  ghost predicate Base(s: State) {
    && Formed(s) && s.programmable
    && External(s.pending) && External(s.active) && External(s.enabled)
    && OnePerTarget(s)
  }

  ghost predicate Good(s: State) {
    Base(s) && forall t: nat :: t < |s.held| ==> NotIdle(s, t)
  }

  lemma BusyStays(s: State, r: State, t: nat)
    requires Formed(s) && Formed(r) && r.routes == s.routes && s.active <= r.active
    requires forall k: nat :: Deliverable(r, t, k) ==> Deliverable(s, t, k)
    ensures NotIdle(s, t) ==> NotIdle(r, t)
  {
    if Busy(s, t) {
      var k :| 0 <= k < EXTERNAL && k in s.active && s.routes[k] == t;
      assert k in r.active && r.routes[k] == t;
    }
  }

  /** After a dispatch its target is not idle, and no other target became so. */
  lemma DispatchKeeps(s: State, t: nat)
    requires Base(s)
    ensures Base(Dispatch(s, t))
    ensures forall u: nat :: NotIdle(s, u) ==> NotIdle(Dispatch(s, t), u)
    ensures t < |s.held| ==> NotIdle(Dispatch(s, t), t)
  {
    var r := Dispatch(s, t);
    if t < |s.held| && !Busy(s, t) && FirstFrom(s, t, 0).Some? {
      var l := FirstFrom(s, t, 0).value;
      assert l in r.active && r.routes[l] == t;
      forall u: nat
        ensures NotIdle(s, u) ==> NotIdle(r, u)
      {
        BusyStays(s, r, u);
      }
    }
  }

  lemma BaseFormed(s: State)
    requires Base(s)
    ensures Formed(s)
  {
  }

  lemma {:induction false} DispatchAllGood(s: State, n: nat)
    requires Base(s) && n <= |s.held|
    ensures Base(DispatchUpTo(s, n)) && |DispatchUpTo(s, n).held| == |s.held|
    ensures forall u: nat :: u < n ==> NotIdle(DispatchUpTo(s, n), u)
  {
    hide Dispatch, FirstFrom, NotIdle, Base;
    assert Formed(s) by {
      BaseFormed(s);
    }
    if n > 0 {
      DispatchAllGood(s, n - 1);
      DispatchKeeps(DispatchUpTo(s, n - 1), n - 1);
    }
  }

  /** Every event keeps the invariant. */
  lemma NextGood(s: State, e: Event)
    requires Good(s)
    ensures Good(Next(s, e)) && |Next(s, e).held| == |s.held|
  {
    match e
    case SetRoute(l, t) =>
      if l < EXTERNAL && t < |s.held| && l !in s.active {
        RouteGood(s, l, t);
      }
    case Raise(l) =>
      if l < EXTERNAL {
        RaiseGood(s, l);
      }
    case Clear(l) =>
      if l < EXTERNAL {
        ClearGood(s, l);
      }
    case SetEnabled(mask) =>
      if External(mask) {
        DispatchAllGood(s.(enabled := mask), |s.held|);
      }
    case Enable(mask) =>
      if External(mask) {
        DispatchAllGood(s.(enabled := s.enabled + mask), |s.held|);
      }
    case Disable(mask) =>
      if External(mask) {
        forall t: nat
          ensures NotIdle(s, t) ==> NotIdle(Next(s, e), t)
        {
          BusyStays(s, Next(s, e), t);
        }
      }
    case Eoi(l) =>
      if l < EXTERNAL && l in s.active {
        EndGood(s, l, s.(active := s.active - {l}));
      }
    case Reset => ResetGood(s);
    case Take(_) => HeldGood(s, Next(s, e));
    case Ipi(_, _) => HeldGood(s, Next(s, e));
  }

  lemma ResetGood(s: State)
    requires Formed(s)
    ensures Good(Next(s, Reset))
  {
    var r := Next(s, Reset);
    forall t: nat | t < |r.held|
      ensures NotIdle(r, t)
    {
      assert forall l: nat :: !Deliverable(r, t, l);
    }
  }

  lemma HeldGood(s: State, r: State)
    requires Good(s) && |r.held| == |s.held| && r == s.(held := r.held)
    ensures Good(r)
  {
    forall t: nat
      ensures NotIdle(s, t) ==> NotIdle(r, t)
    {
      BusyStays(s, r, t);
    }
  }

  lemma RouteGood(s: State, l: nat, t: nat)
    requires Good(s) && l < EXTERNAL && t < |s.held| && l !in s.active
    ensures Good(Dispatch(s.(routes := s.routes[l := t]), t))
  {
    var s1 := s.(routes := s.routes[l := t]);
    forall u: nat | u < |s.held| && u != t
      ensures NotIdle(s1, u)
    {
      assert NotIdle(s, u);
      if Busy(s, u) {
        var k :| 0 <= k < EXTERNAL && k in s.active && s.routes[k] == u;
        assert s1.routes[k] == u;
      } else {
        assert forall k: nat :: Deliverable(s1, u, k) ==> Deliverable(s, u, k);
      }
    }
    DispatchKeeps(s1, t);
  }

  lemma RaiseGood(s: State, l: nat)
    requires Good(s) && l < EXTERNAL
    ensures Good(Next(s, Raise(l)))
  {
    var s1 := s.(pending := s.pending + {l});
    forall u: nat | u < |s.held| && (u != s.routes[l] || l in s.active)
      ensures NotIdle(s1, u)
    {
      if u == s.routes[l] {
        assert l in s1.active && s1.routes[l] == u;
      } else {
        BusyStays(s, s1, u);
      }
    }
    DispatchKeeps(s1, s.routes[l]);
  }

  /** A line that stops being active frees its target, which is served again. */
  lemma EndGood(s: State, l: nat, s1: State)
    requires Good(s) && l in s.active && Formed(s1) && s1.programmable && |s1.held| == |s.held|
    requires s1.active == s.active - {l} && s1.pending <= s.pending && s1.enabled == s.enabled && s1.routes == s.routes
    ensures Good(Dispatch(s1, s.routes[l]))
  {
    forall u: nat | u < |s.held| && u != s.routes[l]
      ensures NotIdle(s1, u)
    {
      assert NotIdle(s, u);
      if Busy(s, u) {
        var k :| 0 <= k < EXTERNAL && k in s.active && s.routes[k] == u;
        assert k in s1.active && s1.routes[k] == u;
      } else {
        assert forall k: nat :: Deliverable(s1, u, k) ==> Deliverable(s, u, k);
      }
    }
    DispatchKeeps(s1, s.routes[l]);
  }

  lemma ClearGood(s: State, l: nat)
    requires Good(s) && l < EXTERNAL
    ensures Good(Next(s, Clear(l)))
  {
    var s1 := s.(pending := s.pending - {l});
    if l in s.active {
      var t := s.routes[l];
      EndGood(s, l, s1.(active := s.active - {l}, held := s.held[t := s.held[t] - {l}]));
    } else {
      forall u: nat
        ensures NotIdle(s, u) ==> NotIdle(s1, u)
      {
        BusyStays(s, s1, u);
      }
    }
  }

  /** In every run that starts with a reset, each target has at most one active line and none is idle
      while an enabled pending line is routed to it. */
  lemma {:induction false} RunGood(s: State, events: seq<Event>)
    requires Formed(s)
    ensures Good(After(Next(s, Reset), events))
  {
    if events == [] {
      ResetGood(s);
    } else {
      RunGood(s, events[..|events| - 1]);
      NextGood(After(Next(s, Reset), events[..|events| - 1]), events[|events| - 1]);
    }
  }

  // ---------------------------------------------------------------- no interrupt is lost

  lemma DispatchConserves(s: State, t: nat)
    requires Formed(s)
    ensures Dispatch(s, t).pending + Dispatch(s, t).active == s.pending + s.active
    ensures s.active <= Dispatch(s, t).active && Dispatch(s, t).routes == s.routes && |Dispatch(s, t).held| == |s.held|
  {
  }

  lemma {:induction false} DispatchAllConserves(s: State, n: nat)
    requires Formed(s)
    ensures DispatchUpTo(s, n).pending + DispatchUpTo(s, n).active == s.pending + s.active
    ensures DispatchUpTo(s, n).routes == s.routes
  {
    if n > 0 {
      DispatchAllConserves(s, n - 1);
      DispatchConserves(DispatchUpTo(s, n - 1), n - 1);
    }
  }

  /** The line is waiting or in service. */
  predicate Owed(s: State, l: nat) {
    l in s.pending || l in s.active
  }

  /** Only these events take a line away; its end of interrupt does not when it was raised again meanwhile. */
  predicate Ends(s: State, e: Event, l: nat) {
    e == Reset || e == Clear(l) || (e == Eoi(l) && l in s.active && l !in s.pending)
  }

  /** A line is owed after an event exactly when the event raises it, or it was owed and is not ended. */
  lemma NextConserves(s: State, e: Event, l: nat)
    requires Formed(s) && l < EXTERNAL
    ensures Owed(Next(s, e), l) <==> e == Raise(l) || (Owed(s, l) && !Ends(s, e, l))
  {
    hide Dispatch, DispatchUpTo, Selected;
    match e
    case SetRoute(k, t) =>
      if k < EXTERNAL && t < |s.held| && k !in s.active {
        DispatchOwes(s.(routes := s.routes[k := t]), t, l);
      }
    case Raise(k) =>
      if k < EXTERNAL {
        DispatchOwes(s.(pending := s.pending + {k}), s.routes[k], l);
      }
    case Clear(k) =>
      if k < EXTERNAL && k in s.active {
        var t := s.routes[k];
        DispatchOwes(s.(pending := s.pending - {k}, active := s.active - {k}, held := s.held[t := s.held[t] - {k}]), t, l);
      }
    case SetEnabled(mask) => DispatchAllOwes(s.(enabled := mask), |s.held|, l);
    case Enable(mask) => DispatchAllOwes(s.(enabled := s.enabled + mask), |s.held|, l);
    case Eoi(k) =>
      if k < EXTERNAL && k in s.active {
        DispatchOwes(s.(active := s.active - {k}), s.routes[k], l);
      }
    case _ =>
  }

  lemma DispatchOwes(s: State, t: nat, l: nat)
    requires Formed(s)
    ensures Owed(Dispatch(s, t), l) == Owed(s, l)
  {
    hide Dispatch;
    DispatchConserves(s, t);
    assert Owed(Dispatch(s, t), l) == (l in Dispatch(s, t).pending + Dispatch(s, t).active);
    assert Owed(s, l) == (l in s.pending + s.active);
  }

  lemma DispatchAllOwes(s: State, n: nat, l: nat)
    requires Formed(s)
    ensures Owed(DispatchUpTo(s, n), l) == Owed(s, l)
  {
    hide DispatchUpTo;
    DispatchAllConserves(s, n);
    assert Owed(DispatchUpTo(s, n), l) == (l in DispatchUpTo(s, n).pending + DispatchUpTo(s, n).active);
    assert Owed(s, l) == (l in s.pending + s.active);
  }

  /** No event of the run ends the line. */
  ghost predicate Unended(s: State, events: seq<Event>, l: nat)
    requires Formed(s)
  {
    forall k :: 0 <= k < |events| ==> !Ends(After(s, events[..k]), events[k], l)
  }

  /** A raised line stays pending or active until it is ended. */
  lemma {:induction false} RaisedStays(s: State, l: nat, events: seq<Event>)
    requires Formed(s) && l < EXTERNAL && Unended(Next(s, Raise(l)), events, l)
    ensures Owed(After(Next(s, Raise(l)), events), l)
  {
    hide Ends, Next, Owed;
    if events == [] {
      NextConserves(s, Raise(l), l);
    } else {
      var before := events[..|events| - 1];
      assert forall k :: 0 <= k < |before| ==> before[..k] == events[..k] && before[k] == events[k];
      RaisedStays(s, l, before);
      NextConserves(After(Next(s, Raise(l)), before), events[|events| - 1], l);
    }
  }

  predicate Passes(e: Event, l: nat) {
    e != Reset && e != Clear(l) && e != Eoi(l)
  }

  /** A line that is raised again while it is in service comes back after its end of interrupt, whatever happens
      between that is no clearing, no reset and no end of interrupt for it. */
  lemma RaisedAgain(s: State, l: nat, events: seq<Event>)
    requires Formed(s) && l < EXTERNAL && l in s.active
    requires forall k :: 0 <= k < |events| ==> Passes(events[k], l)
    ensures Owed(Next(After(Next(s, Raise(l)), events), Eoi(l)), l)
  {
    StillBoth(s, l, events);
    NextConserves(After(Next(s, Raise(l)), events), Eoi(l), l);
  }

  lemma {:induction false} StillBoth(s: State, l: nat, events: seq<Event>)
    requires Formed(s) && l < EXTERNAL && l in s.active
    requires forall k :: 0 <= k < |events| ==> Passes(events[k], l)
    ensures var r := After(Next(s, Raise(l)), events); l in r.pending && l in r.active
  {
    hide Next;
    if events == [] {
      StepBoth(s, Raise(l), l);
    } else {
      StillBoth(s, l, events[..|events| - 1]);
      StepBoth(After(Next(s, Raise(l)), events[..|events| - 1]), events[|events| - 1], l);
    }
  }

  /** A line in service is not delivered a second time. */
  lemma StepBoth(s: State, e: Event, l: nat)
    requires Formed(s) && l < EXTERNAL && l in s.active && (l in s.pending || e == Raise(l)) && Passes(e, l)
    ensures l in Next(s, e).pending && l in Next(s, e).active
  {
    match e
    case SetEnabled(mask) => AllKeepBoth(s.(enabled := mask), |s.held|, l);
    case Enable(mask) => AllKeepBoth(s.(enabled := s.enabled + mask), |s.held|, l);
    case _ =>
  }

  lemma {:induction false} AllKeepBoth(s: State, n: nat, l: nat)
    requires Formed(s) && l in s.active && l in s.pending
    ensures l in DispatchUpTo(s, n).pending && l in DispatchUpTo(s, n).active
  {
    if n > 0 {
      AllKeepBoth(s, n - 1, l);
    }
  }

  // ---------------------------------------------------------------- what the controllers hold

  /** A controller holds only device lines that are active and routed to it. */
  ghost predicate Tidy(s: State)
    requires Formed(s)
  {
    forall t: nat, l :: t < |s.held| && l in s.held[t] && l < EXTERNAL ==> l in s.active && s.routes[l] == t
  }

  /** Then it holds at most one of them. */
  lemma OneHeld(s: State, t: nat, a: nat, b: nat)
    requires Good(s) && Tidy(s) && t < |s.held| && a in s.held[t] && b in s.held[t] && a < EXTERNAL && b < EXTERNAL
    ensures a == b
  {
    assert s.routes[a] == t && s.routes[b] == t;
  }

  lemma DispatchTidy(s: State, t: nat)
    requires Formed(s) && Tidy(s)
    ensures Tidy(Dispatch(s, t))
  {
  }

  lemma {:induction false} DispatchAllTidy(s: State, n: nat)
    requires Formed(s) && Tidy(s)
    ensures Tidy(DispatchUpTo(s, n))
  {
    hide Dispatch, FirstFrom, Tidy;
    if n > 0 {
      DispatchAllTidy(s, n - 1);
      DispatchTidy(DispatchUpTo(s, n - 1), n - 1);
    }
  }

  /** The end of an interrupt comes after its controller gave it out. */
  predicate Orderly(s: State, e: Event)
    requires Formed(s)
  {
    e.Eoi? && e.line < EXTERNAL && e.line in s.active ==> e.line !in s.held[s.routes[e.line]]
  }

  lemma NextTidy(s: State, e: Event)
    requires Good(s) && Tidy(s) && Orderly(s, e)
    ensures Tidy(Next(s, e))
  {
    hide Dispatch, FirstFrom, Deliverable, DispatchUpTo, NotIdle;
    match e
    case SetRoute(l, t) =>
      if l < EXTERNAL && t < |s.held| && l !in s.active {
        DispatchTidy(s.(routes := s.routes[l := t]), t);
      }
    case Raise(l) =>
      if l < EXTERNAL {
        DispatchTidy(s.(pending := s.pending + {l}), s.routes[l]);
      }
    case Clear(l) =>
      if l < EXTERNAL && l in s.active {
        var t := s.routes[l];
        DispatchTidy(s.(pending := s.pending - {l}, active := s.active - {l}, held := s.held[t := s.held[t] - {l}]), t);
      }
    case SetEnabled(mask) => DispatchAllTidy(s.(enabled := mask), |s.held|);
    case Enable(mask) => DispatchAllTidy(s.(enabled := s.enabled + mask), |s.held|);
    case Eoi(l) =>
      if l < EXTERNAL && l in s.active {
        DispatchTidy(s.(active := s.active - {l}), s.routes[l]);
      }
    case _ =>
  }

  /** An end of interrupt before the line was given out leaves a stray line at the controller, unless
      the same line is delivered again at once. */
  lemma EarlyEoi(s: State, l: nat)
    requires Good(s) && Tidy(s) && l in s.active
    ensures
      var t := s.routes[l];
      Tidy(Next(s, Eoi(l))) <==> l !in s.held[t] || FirstFrom(s.(active := s.active - {l}), t, 0) == Some(l)
  {
    hide Deliverable, FirstFrom;
    var t, s1 := s.routes[l], s.(active := s.active - {l});
    assert !Busy(s1, t);
    assert Next(s, Eoi(l)) == Dispatch(s1, t);
    if l !in s.held[t] {
      NextTidy(s, Eoi(l));
    } else if FirstFrom(s1, t, 0) == Some(l) {
      Redelivered(s, l);
    } else {
      Stray(s1, t, l);
    }
  }

  /** Delivered again at once, the line is active and held as before, and only its pending mark is gone. */
  lemma Redelivered(s: State, l: nat)
    requires Formed(s) && Tidy(s) && l in s.active && l < LINES && l in s.held[s.routes[l]]
    ensures Delivered(s.(active := s.active - {l}), s.routes[l], l) == s.(pending := s.pending - {l})
    ensures Tidy(Delivered(s.(active := s.active - {l}), s.routes[l], l))
  {
    assert s.active - {l} + {l} == s.active;
    assert s.held[s.routes[l]] + {l} == s.held[s.routes[l]];
  }

  lemma Stray(s: State, t: nat, l: nat)
    requires Formed(s) && t < |s.held| && l in s.held[t] && l !in s.active && l < EXTERNAL && FirstFrom(s, t, 0) != Some(l)
    ensures !Tidy(Dispatch(s, t))
  {
    hide FirstFrom;
    var r := Dispatch(s, t);
    assert l in r.held[t] && l !in r.active by {
      if r != s {
        var k := FirstFrom(s, t, 0).value;
        assert r.held[t] == s.held[t] + {k} && r.active == s.active + {k};
      }
    }
  }

  /** A line raised and ended before its controller gave it out: the controller goes on holding it although
      it is not active, and a second line routed there joins it. */
  lemma EarlyEoiHappens(s: State)
    requires Formed(s)
    ensures
      var r := After(Next(s, Reset), [Enable({3, 5}), Raise(5), Eoi(5)]);
      Good(r) && !Tidy(r) && 5 in r.held[0] && 5 !in r.active && Next(r, Raise(3)).held[0] == {3, 5}
  {
    hide Dispatch, DispatchUpTo, FirstFrom, Good;
    var r0 := Next(s, Reset);
    var r1 := Next(r0, Enable({3, 5}));
    ThreeEvents(r0, Enable({3, 5}), Raise(5), Eoi(5));
    RunGood(s, [Enable({3, 5}), Raise(5), Eoi(5)]);
    EmptyDispatch(r0.(enabled := {} + {3, 5}), |r0.held|);
    RaiseIdle(r1, 5);
    EndQuiet(Next(r1, Raise(5)), 5);
    RaiseIdle(Next(Next(r1, Raise(5)), Eoi(5)), 3);
  }

  lemma ThreeEvents(s: State, a: Event, b: Event, c: Event)
    requires Formed(s)
    ensures After(s, [a, b, c]) == Next(Next(Next(s, a), b), c)
  {
    hide Next;
    var events := [a, b, c];
    assert events[..2] == [a, b] && [a, b][..1] == [a] && [a][..0] == [];
    assert After(s, [a]) == Next(s, a);
    assert After(s, [a, b]) == Next(Next(s, a), b);
  }

  /** With nothing pending there is nothing to deliver. */
  lemma {:induction false} EmptyDispatch(s: State, n: nat)
    requires Formed(s) && s.pending == {}
    ensures DispatchUpTo(s, n) == s
  {
    if n > 0 {
      EmptyDispatch(s, n - 1);
    }
  }

  /** The only pending line goes to its idle target. */
  lemma RaiseIdle(s: State, l: nat)
    requires Formed(s) && s.pending == {} && s.active == {} && l < EXTERNAL && l in s.enabled
    ensures Next(s, Raise(l)) == State(s.programmable, s.enabled, {}, {l}, s.routes, s.held[s.routes[l] := s.held[s.routes[l]] + {l}])
  {
    var s1 := s.(pending := {l});
    assert s.pending + {l} == {l};
    assert Deliverable(s1, s.routes[l], l);
    assert forall k: nat :: Deliverable(s1, s.routes[l], k) ==> k == l;
    assert FirstFrom(s1, s.routes[l], 0) == Some(l);
  }

  lemma EndQuiet(s: State, l: nat)
    requires Formed(s) && s.pending == {} && s.active == {l} && l < EXTERNAL
    ensures Next(s, Eoi(l)) == s.(active := {})
  {
    assert s.active - {l} == {};
    assert FirstFrom(s.(active := {}), s.routes[l], 0).None?;
  }

  /** Every event of the run is orderly when it happens. */
  ghost predicate OrderlyRun(s: State, events: seq<Event>)
    requires Formed(s)
  {
    forall i :: 0 <= i < |events| ==> Orderly(After(s, events[..i]), events[i])
  }

  /** If each end of interrupt follows the taking of its line, then in the whole run a controller holds
      at most one device line, and that line is active and routed there. */
  lemma {:induction false} RunTidy(s: State, events: seq<Event>)
    requires Formed(s) && OrderlyRun(Next(s, Reset), events)
    ensures Tidy(After(Next(s, Reset), events))
  {
    if events != [] {
      var before, r := events[..|events| - 1], Next(s, Reset);
      assert forall i :: 0 <= i < |before| ==> before[..i] == events[..i];
      RunTidy(s, before);
      RunGood(s, before);
      assert Orderly(After(r, events[..|before|]), events[|before|]);
      NextTidy(After(r, before), events[|before|]);
    }
  }
}
