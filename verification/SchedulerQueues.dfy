/** Threads and the queues that hold them (kernel/scheduler.c): what ties a thread's fields to its
    places in the run queue, the wait queues and the timeout queue. */
module SchedulerQueues {
  import opened Options

  datatype RunState = New | Runnable | Running | Blocked | Zombie | Dead

  datatype Thread = Thread(process: nat, state: RunState, queued: bool, wait: Option<nat>, timed: bool,
                           deadline: nat, timeoutResult: int, result: int, affinity: nat)

  /** What a processor is doing: running a thread, or waiting for one, possibly on behalf of a thread
      that gave it up. */
  datatype Processor = On(thread: nat) | Idle(waiter: Option<nat>)

  /** `waits` holds one list of threads per wait queue. */
  datatype State = State(threads: map<nat, Thread>, runQueue: seq<nat>, waits: map<nat, seq<nat>>, timeouts: seq<nat>,
                         cpus: seq<Processor>, ticks: nat)

  // ---------------------------------------------------------------- lists

  ghost predicate Distinct(s: seq<nat>) {
    forall i, j :: 0 <= i < j < |s| ==> s[i] != s[j]
  }

  /** The list without `x`. */
  function Remove(s: seq<nat>, x: nat): (r: seq<nat>)
    ensures forall y :: y in r ==> y in s
  {
    if s == [] then [] else if s[0] == x then s[1..] else [s[0]] + Remove(s[1..], x)
  }

  lemma {:induction false} RemoveFacts(s: seq<nat>, x: nat)
    requires Distinct(s)
    ensures Distinct(Remove(s, x)) && forall y :: y in Remove(s, x) <==> y in s && y != x
  {
    if s != [] {
      var rest := s[1..];
      assert forall i :: 0 <= i < |rest| ==> rest[i] == s[i + 1];
      assert forall y :: y in s <==> y == s[0] || y in rest;
      if s[0] == x {
        assert x !in rest;
      } else {
        RemoveFacts(rest, x);
        assert s[0] !in rest;
        assert s[0] !in Remove(rest, x);
      }
    }
  }

  lemma AppendFacts(s: seq<nat>, x: nat)
    requires Distinct(s) && x !in s
    ensures Distinct(s + [x]) && forall y :: y in s + [x] <==> y in s || y == x
  {
  }

  // ---------------------------------------------------------------- the invariant

  /** In the run queue exactly when marked so, and then ready to run. */
  ghost predicate RunOk(m: State) {
    && Distinct(m.runQueue)
    && (forall t :: t in m.runQueue <==> t in m.threads && m.threads[t].queued)
    && (forall t :: t in m.threads && m.threads[t].queued ==> m.threads[t].state == Runnable)
  }

  /** In a wait queue exactly when its field names that queue, and then blocked. */
  ghost predicate WaitOk(m: State) {
    && (forall q :: q in m.waits ==> Distinct(m.waits[q]))
    && (forall q, t :: q in m.waits ==> (t in m.waits[q] <==> t in m.threads && m.threads[t].wait == Some(q)))
    && (forall t :: t in m.threads && m.threads[t].wait.Some? ==> m.threads[t].state == Blocked && m.threads[t].wait.value in m.waits)
  }

  /** In the timeout queue exactly when marked so, and then waiting. */
  ghost predicate TimeoutOk(m: State) {
    && Distinct(m.timeouts)
    && (forall t :: t in m.timeouts <==> t in m.threads && m.threads[t].timed)
    && (forall t :: t in m.threads && m.threads[t].timed ==> m.threads[t].wait.Some?)
  }

  /** Fit to be on a processor: in no queue, and not ready or blocked. */
  predicate Occupies(th: Thread) {
    !th.queued && th.wait.None? && (th.state == Running || th.state == Zombie)
  }

  /** Each thread is bound to one processor, where alone it runs or gave the processor up. */
  ghost predicate CpuOk(m: State) {
    && (forall c :: 0 <= c < |m.cpus| && m.cpus[c].On? ==>
         var t := m.cpus[c].thread;
         t in m.threads && m.threads[t].affinity == c + 1 && Occupies(m.threads[t]))
    && (forall c :: 0 <= c < |m.cpus| && m.cpus[c].Idle? && m.cpus[c].waiter.Some? ==>
         var t := m.cpus[c].waiter.value;
         t in m.threads && m.threads[t].affinity == c + 1)
  }

  ghost predicate Inv(m: State) {
    RunOk(m) && WaitOk(m) && TimeoutOk(m) && CpuOk(m)
  }

  /** No thread runs on two processors. */
  lemma OneProcessor(m: State, c: nat, d: nat)
    requires Inv(m) && c < |m.cpus| && d < |m.cpus| && m.cpus[c].On? && m.cpus[c] == m.cpus[d]
    ensures c == d
  {
  }

  // ---------------------------------------------------------------- what a change leaves alone

  /** The same threads, differing in no field that a queue depends on except for `t`. */
  ghost predicate OnlyThread(m: State, n: State, t: nat) {
    m.threads.Keys == n.threads.Keys && forall u :: u in m.threads && u != t ==> n.threads[u] == m.threads[u]
  }

  lemma RunStays(m: State, n: State, t: nat)
    requires RunOk(m) && OnlyThread(m, n, t) && n.runQueue == m.runQueue
    requires t in m.threads ==> n.threads[t].queued == m.threads[t].queued && (n.threads[t].queued ==> n.threads[t].state == Runnable || n.threads[t].state == m.threads[t].state)
    ensures RunOk(n)
  {
  }

  lemma WaitStays(m: State, n: State, t: nat)
    requires WaitOk(m) && OnlyThread(m, n, t) && n.waits == m.waits
    requires t in m.threads ==> n.threads[t].wait == m.threads[t].wait && (n.threads[t].wait.Some? ==> n.threads[t].state == Blocked || n.threads[t].state == m.threads[t].state)
    ensures WaitOk(n)
  {
  }

  lemma TimeoutStays(m: State, n: State, t: nat)
    requires TimeoutOk(m) && OnlyThread(m, n, t) && n.timeouts == m.timeouts
    requires t in m.threads ==> n.threads[t].timed == m.threads[t].timed
    requires t in m.threads ==> n.threads[t].wait == m.threads[t].wait || !n.threads[t].timed
    ensures TimeoutOk(n)
  {
  }

  lemma CpuStays(m: State, n: State, t: nat)
    requires CpuOk(m) && OnlyThread(m, n, t) && n.cpus == m.cpus
    requires t in m.threads ==> n.threads[t].affinity == m.threads[t].affinity
    requires t in m.threads ==> Off(m, t) || Occupies(n.threads[t])
    ensures CpuOk(n)
  {
  }

  /** The thread is on no processor. */
  ghost predicate Off(m: State, t: nat) {
    forall c :: 0 <= c < |m.cpus| ==> m.cpus[c] != On(t)
  }

  // ---------------------------------------------------------------- steps

  /** scheduler_detach_wait: out of its wait queue and the timeout queue. */
  function Detached(m: State, t: nat): State
    requires t in m.threads
  {
    var th := m.threads[t];
    State(m.threads[t := th.(wait := None, timed := false, deadline := 0, timeoutResult := 0)], m.runQueue,
          if th.wait.Some? && th.wait.value in m.waits then m.waits[th.wait.value := Remove(m.waits[th.wait.value], t)] else m.waits,
          if th.timed then Remove(m.timeouts, t) else m.timeouts, m.cpus, m.ticks)
  }

  lemma DetachedInv(m: State, t: nat)
    requires Inv(m) && t in m.threads
    ensures Inv(Detached(m, t))
  {
    hide RunOk, WaitOk, TimeoutOk, CpuOk;
    var n := Detached(m, t);
    RunDetached(m, n, t);
    DetachedWait(m, t);
    DetachedTimeout(m, t);
    CpuDetached(m, n, t);
  }

  lemma RunDetached(m: State, n: State, t: nat)
    requires RunOk(m) && t in m.threads && n == Detached(m, t)
    ensures RunOk(n)
  {
    RunStays(m, n, t);
  }

  lemma CpuDetached(m: State, n: State, t: nat)
    requires CpuOk(m) && t in m.threads && n == Detached(m, t)
    ensures CpuOk(n)
  {
  }

  lemma DetachedWait(m: State, t: nat)
    requires WaitOk(m) && t in m.threads
    ensures WaitOk(Detached(m, t))
  {
    var th := m.threads[t];
    if th.wait.Some? {
      RemoveFacts(m.waits[th.wait.value], t);
    }
  }

  lemma DetachedTimeout(m: State, t: nat)
    requires TimeoutOk(m) && t in m.threads
    ensures TimeoutOk(Detached(m, t))
  {
    RemoveFacts(m.timeouts, t);
  }

  /** scheduler_enqueue on a thread that is ready to run. */
  function Enqueued(m: State, t: nat): State
    requires t in m.threads
  {
    State(m.threads[t := m.threads[t].(state := Runnable, queued := true)], m.runQueue + [t], m.waits, m.timeouts, m.cpus, m.ticks)
  }

  lemma EnqueuedInv(m: State, t: nat)
    requires Inv(m) && t in m.threads && !m.threads[t].queued && m.threads[t].wait.None? && Off(m, t)
    ensures Inv(Enqueued(m, t))
  {
    hide RunOk, WaitOk, TimeoutOk, CpuOk;
    var n := Enqueued(m, t);
    EnqueuedRun(m, t);
    WaitStays(m, n, t);
    TimeoutStays(m, n, t);
    CpuStays(m, n, t);
  }

  lemma EnqueuedRun(m: State, t: nat)
    requires RunOk(m) && t in m.threads && !m.threads[t].queued
    ensures RunOk(Enqueued(m, t))
  {
    AppendFacts(m.runQueue, t);
  }

  function Reported(m: State, t: nat, result: int): State
    requires t in m.threads
  {
    State(m.threads[t := m.threads[t].(result := result)], m.runQueue, m.waits, m.timeouts, m.cpus, m.ticks)
  }

  lemma ReportedInv(m: State, t: nat, result: int)
    requires Inv(m) && t in m.threads
    ensures Inv(Reported(m, t, result))
  {
    var n := Reported(m, t, result);
    RunStays(m, n, t);
    WaitStays(m, n, t);
    TimeoutStays(m, n, t);
    CpuStays(m, n, t);
  }

  /** scheduler_wake_waiter: a blocked thread leaves the queues it waits in and joins the run queue. */
  function Woken(m: State, t: nat, result: int): State
    requires t in m.threads
  {
    if m.threads[t].state != Blocked then m else Enqueued(Reported(Detached(m, t), t, result), t)
  }

  lemma WokenInv(m: State, t: nat, result: int)
    requires Inv(m) && t in m.threads
    ensures Inv(Woken(m, t, result))
  {
    if m.threads[t].state == Blocked {
      DetachedInv(m, t);
      ReportedInv(Detached(m, t), t, result);
      hide RunOk, WaitOk, TimeoutOk;
      assert !m.threads[t].queued && Off(m, t) by { BlockedIsOff(m, t); }
      EnqueuedInv(Reported(Detached(m, t), t, result), t);
    }
  }

  lemma BlockedIsOff(m: State, t: nat)
    requires Inv(m) && t in m.threads && m.threads[t].state == Blocked
    ensures !m.threads[t].queued && Off(m, t)
  {
  }

  /** A woken thread is in the run queue and in no other; a second wake changes nothing. */
  lemma WakeOnce(m: State, t: nat, result: int, again: int)
    requires Inv(m) && t in m.threads && m.threads[t].state == Blocked
    ensures
      var n := Woken(m, t, result);
      && n.runQueue == m.runQueue + [t] && n.threads[t].result == result
      && t !in n.timeouts && (forall q :: q in n.waits ==> t !in n.waits[q])
      && Woken(n, t, again) == n
  {
    WokenInv(m, t, result);
  }

  // ---------------------------------------------------------------- choosing a thread

  predicate Fits(th: Thread, c: nat) {
    th.affinity == 0 || th.affinity == c + 1
  }

  /** The thread at position `k` of the run queue may run on processor `c`. */
  predicate FitsAt(m: State, c: nat, k: nat) {
    k < |m.runQueue| && m.runQueue[k] in m.threads && Fits(m.threads[m.runQueue[k]], c)
  }

  /** The first queued thread that may run on processor `c`, from position `k` on. */
  function FirstFit(m: State, c: nat, k: nat): (r: Option<nat>)
    requires k <= |m.runQueue|
    ensures r.Some? ==> k <= r.value && FitsAt(m, c, r.value) && forall i :: k <= i < r.value ==> !FitsAt(m, c, i)
    ensures r.None? ==> forall i :: k <= i ==> !FitsAt(m, c, i)
    decreases |m.runQueue| - k
  {
    if k == |m.runQueue| then None
    else if FitsAt(m, c, k) then Some(k)
    else FirstFit(m, c, k + 1)
  }

  /** Position `k` of the run queue is taken by processor `c`; the threads passed over go to the back. */
  function Taken(m: State, c: nat, k: nat): State
    requires k < |m.runQueue| && m.runQueue[k] in m.threads && c < |m.cpus|
  {
    var t := m.runQueue[k];
    State(m.threads[t := m.threads[t].(queued := false, state := Running, affinity := c + 1)],
          m.runQueue[k + 1..] + m.runQueue[..k], m.waits, m.timeouts, m.cpus[c := On(t)], m.ticks)
  }

  lemma TakenInv(m: State, c: nat, k: nat)
    requires Inv(m) && k < |m.runQueue| && c < |m.cpus| && Fits(m.threads[m.runQueue[k]], c)
    ensures Inv(Taken(m, c, k))
  {
    hide WaitOk, TimeoutOk;
    var n, t := Taken(m, c, k), m.runQueue[k];
    assert t in m.runQueue;
    TakenRun(m, c, k);
    assert m.threads[t].wait.None? && !m.threads[t].timed by { QueuedIsFree(m, t); }
    WaitStays(m, n, t);
    TimeoutStays(m, n, t);
  }

  lemma QueuedIsFree(m: State, t: nat)
    requires Inv(m) && t in m.threads && m.threads[t].queued
    ensures m.threads[t].wait.None? && !m.threads[t].timed
  {
  }

  lemma TakenRun(m: State, c: nat, k: nat)
    requires RunOk(m) && k < |m.runQueue| && c < |m.cpus|
    ensures RunOk(Taken(m, c, k))
  {
    var s, r := m.runQueue, m.runQueue[k + 1..] + m.runQueue[..k];
    forall u | u in s && u != s[k]
      ensures u in r
    {
      var i :| 0 <= i < |s| && s[i] == u;
      assert r[if i > k then i - k - 1 else |s| - k - 1 + i] == u;
    }
    assert forall i :: 0 <= i < |r| ==> r[i] == s[if i < |s| - k - 1 then i + k + 1 else i - (|s| - k - 1)];
  }

  // ---------------------------------------------------------------- leaving a processor

  /** Processor `c` no longer runs its thread; `waiter` is the thread it will be given back to if
      nothing else turns up. */
  function Left(m: State, c: nat, waiter: Option<nat>): State
    requires c < |m.cpus|
  {
    State(m.threads, m.runQueue, m.waits, m.timeouts, m.cpus[c := Idle(waiter)], m.ticks)
  }

  lemma LeftInv(m: State, c: nat, waiter: Option<nat>)
    requires Inv(m) && c < |m.cpus|
    requires waiter.Some? ==> waiter.value in m.threads && m.threads[waiter.value].affinity == c + 1
    ensures Inv(Left(m, c, waiter))
    ensures m.cpus[c].On? ==> Off(Left(m, c, waiter), m.cpus[c].thread)
  {
    hide RunOk, WaitOk, TimeoutOk;
    var n := Left(m, c, waiter);
    RunStays(m, n, 0);
    WaitStays(m, n, 0);
    TimeoutStays(m, n, 0);
  }

  function InState(m: State, t: nat, state: RunState): State
    requires t in m.threads
  {
    State(m.threads[t := m.threads[t].(state := state)], m.runQueue, m.waits, m.timeouts, m.cpus, m.ticks)
  }

  lemma InStateInv(m: State, t: nat, state: RunState)
    requires Inv(m) && t in m.threads && !m.threads[t].queued && m.threads[t].wait.None?
    requires Off(m, t) || state == Running || state == Zombie
    ensures Inv(InState(m, t, state))
  {
    hide RunOk, WaitOk, TimeoutOk;
    var n := InState(m, t, state);
    RunStays(m, n, t);
    WaitStays(m, n, t);
    TimeoutStays(m, n, t);
    CpuStays(m, n, t);
  }

  // ---------------------------------------------------------------- waiting

  /** A thread that is off its processor starts to wait in queue `q`. */
  function Waiting(m: State, t: nat, q: nat): State
    requires t in m.threads && q in m.waits
  {
    State(m.threads[t := m.threads[t].(state := Blocked, wait := Some(q))], m.runQueue, m.waits[q := m.waits[q] + [t]],
          m.timeouts, m.cpus, m.ticks)
  }

  lemma WaitingInv(m: State, t: nat, q: nat)
    requires Inv(m) && t in m.threads && q in m.waits && m.threads[t].wait.None? && !m.threads[t].queued && Off(m, t)
    ensures Inv(Waiting(m, t, q))
  {
    hide RunOk, WaitOk, TimeoutOk;
    var n := Waiting(m, t, q);
    RunStays(m, n, t);
    assert !m.threads[t].timed by { NotWaitingNotTimed(m, t); }
    WaitingWait(m, t, q);
    TimeoutStays(m, n, t);
    CpuStays(m, n, t);
  }

  lemma NotWaitingNotTimed(m: State, t: nat)
    requires TimeoutOk(m) && t in m.threads && m.threads[t].wait.None?
    ensures !m.threads[t].timed
  {
  }

  lemma WaitingWait(m: State, t: nat, q: nat)
    requires WaitOk(m) && t in m.threads && q in m.waits && m.threads[t].wait.None?
    ensures WaitOk(Waiting(m, t, q))
  {
    AppendFacts(m.waits[q], t);
  }

  /** A waiting thread gets a deadline. */
  function Timed(m: State, t: nat, deadline: nat, result: int): State
    requires t in m.threads
  {
    State(m.threads[t := m.threads[t].(timed := true, deadline := deadline, timeoutResult := result)], m.runQueue, m.waits,
          m.timeouts + [t], m.cpus, m.ticks)
  }

  lemma TimedInv(m: State, t: nat, deadline: nat, result: int)
    requires Inv(m) && t in m.threads && m.threads[t].wait.Some? && !m.threads[t].timed
    ensures Inv(Timed(m, t, deadline, result))
  {
    hide RunOk, TimeoutOk, WaitOk;
    var n := Timed(m, t, deadline, result);
    RunStays(m, n, t);
    WaitStays(m, n, t);
    TimedTimeout(m, t, deadline, result);
    assert Off(m, t);
    CpuStays(m, n, t);
  }

  lemma TimedTimeout(m: State, t: nat, deadline: nat, result: int)
    requires TimeoutOk(m) && t in m.threads && m.threads[t].wait.Some? && !m.threads[t].timed
    ensures TimeoutOk(Timed(m, t, deadline, result))
  {
    AppendFacts(m.timeouts, t);
  }

  // ---------------------------------------------------------------- removal

  /** Out of the run queue, whatever happens to it next. */
  function Unqueued(m: State, t: nat): State
    requires t in m.threads
  {
    State(m.threads[t := m.threads[t].(queued := false)], if m.threads[t].queued then Remove(m.runQueue, t) else m.runQueue,
          m.waits, m.timeouts, m.cpus, m.ticks)
  }

  lemma UnqueuedInv(m: State, t: nat)
    requires Inv(m) && t in m.threads
    ensures Inv(Unqueued(m, t))
  {
    hide RunOk, TimeoutOk, WaitOk;
    var n := Unqueued(m, t);
    UnqueuedRun(m, t);
    WaitStays(m, n, t);
    TimeoutStays(m, n, t);
  }

  lemma UnqueuedRun(m: State, t: nat)
    requires RunOk(m) && t in m.threads
    ensures RunOk(Unqueued(m, t))
  {
    RemoveFacts(m.runQueue, t);
  }

  // ---------------------------------------------------------------- time

  predicate Due(m: State, t: nat)
    requires t in m.threads
  {
    m.threads[t].timed && m.threads[t].deadline <= m.ticks
  }

  /** scheduler_expire_timeouts on the threads of `list`. */
  function Expired(m: State, list: seq<nat>): State
    requires forall t :: t in list ==> t in m.threads
    decreases list
  {
    if list == [] then m
    else
      var t := list[0];
      Expired(if Due(m, t) then Woken(m, t, m.threads[t].timeoutResult) else m, list[1..])
  }

  function DueIn(m: State, list: seq<nat>): (r: seq<nat>)
    requires forall t :: t in list ==> t in m.threads
    ensures forall t :: t in r <==> t in list && Due(m, t)
  {
    if list == [] then [] else (if Due(m, list[0]) then [list[0]] else []) + DueIn(m, list[1..])
  }

  /** What waking does to the thread itself. */
  function Roused(th: Thread, result: int): Thread {
    th.(state := Runnable, queued := true, wait := None, timed := false, deadline := 0, timeoutResult := 0, result := result)
  }

  lemma WokenFields(m: State, t: nat, result: int)
    requires t in m.threads && m.threads[t].state == Blocked
    ensures
      var n := Woken(m, t, result);
      && OnlyThread(m, n, t) && n.threads[t] == Roused(m.threads[t], result)
      && n.runQueue == m.runQueue + [t] && n.cpus == m.cpus && n.ticks == m.ticks
  {
  }

  /** The waiters in the list whose deadline has passed are woken, in order, and nothing else changes. */
  ghost predicate WokeExactly(m: State, n: State, list: seq<nat>)
    requires forall t :: t in list ==> t in m.threads
  {
    && n.threads.Keys == m.threads.Keys && n.cpus == m.cpus && n.ticks == m.ticks
    && n.runQueue == m.runQueue + DueIn(m, list)
    && forall t :: t in m.threads ==>
         n.threads[t] == if t in list && Due(m, t) then Roused(m.threads[t], m.threads[t].timeoutResult) else m.threads[t]
  }

  lemma {:induction false} ExpiredExactly(m: State, list: seq<nat>)
    requires Inv(m) && Distinct(list) && forall t :: t in list ==> t in m.threads
    ensures Inv(Expired(m, list)) && WokeExactly(m, Expired(m, list), list)
    decreases list
  {
    hide Inv, Woken, Roused, WokeExactly;
    if list == [] {
      NothingWoke(m);
    } else {
      var t, rest := list[0], list[1..];
      RestOf(list);
      var l := if Due(m, t) then Woken(m, t, m.threads[t].timeoutResult) else m;
      DueIsBlocked(m, t);
      if Due(m, t) {
        WokenInv(m, t, m.threads[t].timeoutResult);
        WokenFields(m, t, m.threads[t].timeoutResult);
      }
      assert m.runQueue + [] == m.runQueue;
      assert FirstWoken(m, l, t);
      ExpiredExactly(l, rest);
      WokeFirst(m, l, Expired(l, rest), list);
    }
  }

  lemma RestOf(list: seq<nat>)
    requires list != [] && Distinct(list)
    ensures Distinct(list[1..]) && list[0] !in list[1..] && forall u :: u in list <==> u == list[0] || u in list[1..]
  {
    var rest := list[1..];
    assert forall i :: 0 <= i < |rest| ==> rest[i] == list[i + 1];
  }

  lemma NothingWoke(m: State)
    ensures WokeExactly(m, m, [])
  {
    assert m.runQueue + [] == m.runQueue;
  }

  /** The first thread of the list is woken if its time has come. */
  ghost predicate FirstWoken(m: State, l: State, t: nat)
    requires t in m.threads
  {
    && OnlyThread(m, l, t) && l.cpus == m.cpus && l.ticks == m.ticks
    && l.threads[t] == (if Due(m, t) then Roused(m.threads[t], m.threads[t].timeoutResult) else m.threads[t])
    && l.runQueue == m.runQueue + (if Due(m, t) then [t] else [])
  }

  lemma WokeFirst(m: State, l: State, n: State, list: seq<nat>)
    requires list != [] && Distinct(list) && (forall t :: t in list ==> t in m.threads) && FirstWoken(m, l, list[0])
    requires (forall t :: t in list[1..] ==> t in l.threads) && WokeExactly(l, n, list[1..])
    ensures WokeExactly(m, n, list)
  {
    hide Roused, Distinct, Due, DueIn;
    var t, rest := list[0], list[1..];
    RestOf(list);
    SameDue(m, l, t, rest);
    forall u | u in m.threads
      ensures n.threads[u] == if u in list && Due(m, u) then Roused(m.threads[u], m.threads[u].timeoutResult) else m.threads[u]
    {
      if u == t {
        assert u !in rest && n.threads[u] == l.threads[u];
      } else {
        assert l.threads[u] == m.threads[u];
      }
    }
    FirstDue(m, list);
    QueuesJoin(m.runQueue, if Due(m, t) then [t] else [], DueIn(m, rest));
  }

  lemma FirstDue(m: State, list: seq<nat>)
    requires list != [] && forall t :: t in list ==> t in m.threads
    ensures DueIn(m, list) == (if Due(m, list[0]) then [list[0]] else []) + DueIn(m, list[1..])
  {
    hide Due;
  }

  lemma QueuesJoin(a: seq<nat>, b: seq<nat>, c: seq<nat>)
    ensures a + (b + c) == (a + b) + c
  {
  }

  lemma DueIsBlocked(m: State, t: nat)
    requires Inv(m) && t in m.threads
    ensures Due(m, t) ==> m.threads[t].state == Blocked
  {
  }

  lemma {:induction false} SameDue(m: State, n: State, t: nat, list: seq<nat>)
    requires OnlyThread(m, n, t) && n.ticks == m.ticks && t !in list && forall u :: u in list ==> u in m.threads
    ensures DueIn(n, list) == DueIn(m, list)
    ensures forall u :: u in list ==> (Due(n, u) <==> Due(m, u))
  {
    if list != [] {
      SameDue(m, n, t, list[1..]);
    }
  }

  /** What every operation may rely on about a processor's thread. */
  lemma OnProcessor(m: State, c: nat)
    requires Inv(m) && c < |m.cpus|
    ensures m.cpus[c].On? ==> var t := m.cpus[c].thread;
      t in m.threads && m.threads[t].affinity == c + 1 && Occupies(m.threads[t]) && !m.threads[t].timed
    ensures m.cpus[c].Idle? && m.cpus[c].waiter.Some? ==> m.cpus[c].waiter.value in m.threads && m.threads[m.cpus[c].waiter.value].affinity == c + 1
    ensures forall t :: t in m.runQueue ==> t in m.threads
  {
  }

  /** If nothing in the run queue fits the processor, the thread that gave it up is neither queued nor
      running elsewhere, so it can be given back. */
  lemma WaiterIsFree(m: State, c: nat)
    requires Inv(m) && c < |m.cpus| && m.cpus[c].Idle? && m.cpus[c].waiter.Some?
    requires FirstFit(m, c, 0).None?
    ensures !m.threads[m.cpus[c].waiter.value].queued && Off(m, m.cpus[c].waiter.value)
  {
    var w := m.cpus[c].waiter.value;
    if w in m.runQueue {
      var i: nat :| i < |m.runQueue| && m.runQueue[i] == w;
      assert FitsAt(m, c, i);
    }
  }

  /** A thread that is off every processor and in no queue goes back on processor `c`. */
  function Returned(m: State, c: nat, t: nat): State
    requires c < |m.cpus| && t in m.threads
  {
    State(m.threads[t := m.threads[t].(state := Running)], m.runQueue, m.waits, m.timeouts, m.cpus[c := On(t)], m.ticks)
  }

  lemma ReturnedInv(m: State, c: nat, t: nat)
    requires Inv(m) && c < |m.cpus| && t in m.threads && !m.threads[t].queued && m.threads[t].wait.None?
    requires m.threads[t].affinity == c + 1
    ensures Inv(Returned(m, c, t))
  {
    hide RunOk, WaitOk, TimeoutOk;
    var n := Returned(m, c, t);
    RunStays(m, n, t);
    WaitStays(m, n, t);
    TimeoutStays(m, n, t);
  }

  /** A new thread. */
  function Added(m: State, t: nat, th: Thread): State {
    State(m.threads[t := th], m.runQueue, m.waits, m.timeouts, m.cpus, m.ticks)
  }

  lemma AddedInv(m: State, t: nat, th: Thread)
    requires Inv(m) && t !in m.threads && !th.queued && th.wait.None? && !th.timed
    ensures Inv(Added(m, t, th)) && Off(m, t)
  {
  }

  function Rotated(s: seq<nat>, k: nat): seq<nat>
    requires k <= |s|
  {
    s[k..] + s[..k]
  }

  lemma RotateStep(s: seq<nat>, k: nat)
    requires k < |s|
    ensures Rotated(s, k) != [] && Rotated(s, k)[0] == s[k]
    ensures Rotated(s, k)[1..] == s[k + 1..] + s[..k] && Rotated(s, k)[1..] + [s[k]] == Rotated(s, k + 1)
  {
  }

  /** A thread put at the end of the run queue is found only if no thread before it fits. */
  lemma {:induction false} FitAtEnd(m: State, n: State, c: nat, t: nat, k: nat)
    requires k <= |m.runQueue| && n.runQueue == m.runQueue + [t] && t in n.threads && Fits(n.threads[t], c)
    requires forall u :: u in m.runQueue ==> u in m.threads && u in n.threads && n.threads[u] == m.threads[u]
    ensures FirstFit(n, c, k) == if FirstFit(m, c, k).Some? then FirstFit(m, c, k) else Some(|m.runQueue|)
    decreases |m.runQueue| - k
  {
    if k < |m.runQueue| {
      assert m.runQueue[k] in m.runQueue && n.runQueue[k] == m.runQueue[k];
      FitAtEnd(m, n, c, t, k + 1);
    }
  }

  // ---------------------------------------------------------------- whole operations

  /** Processor `c` takes the first thread that fits, if there is one. */
  function Next(m: State, c: nat): State
    requires c < |m.cpus|
  {
    if FirstFit(m, c, 0).Some? then Taken(m, c, FirstFit(m, c, 0).value) else m
  }

  /** The thread on processor `c` leaves it to wait in queue `q`. */
  function WaitingFor(m: State, c: nat, q: nat, timeout: nat, result: int): State
    requires c < |m.cpus| && m.cpus[c].On? && m.cpus[c].thread in m.threads && q in m.waits
  {
    var p := m.cpus[c].thread;
    var n := Waiting(Left(m, c, Some(p)), p, q);
    if timeout != 0 then Timed(n, p, m.ticks + timeout, result) else n
  }

  predicate SomeBlocked(m: State) {
    exists t :: t in m.threads && m.threads[t].state == Blocked
  }

  predicate SomeRunning(m: State) {
    exists d :: 0 <= d < |m.cpus| && m.cpus[d].On? && m.cpus[d].thread in m.threads && m.threads[m.cpus[d].thread].state == Running
  }

  /** There is nothing left that processor `c` could wait for, so the thread that gave it up gets it back. */
  predicate GivesBack(m: State, c: nat)
    requires c < |m.cpus|
  {
    && m.cpus[c].Idle? && m.cpus[c].waiter.Some? && m.cpus[c].waiter.value in m.threads
    && FirstFit(m, c, 0).None? && !SomeBlocked(m) && !SomeRunning(m)
  }

  function Retried(m: State, c: nat): State
    requires c < |m.cpus|
  {
    if GivesBack(m, c) then Returned(Detached(m, m.cpus[c].waiter.value), c, m.cpus[c].waiter.value) else Next(m, c)
  }

  function WokenAll(m: State, list: seq<nat>, results: seq<int>): (n: State)
    requires |list| == |results| && forall t :: t in list ==> t in m.threads
    ensures n.threads.Keys == m.threads.Keys && n.cpus == m.cpus
  {
    if list == [] then m
    else
      var k := |list| - 1;
      Woken(WokenAll(m, list[..k], results[..k]), list[k], results[k])
  }

  // ---------------------------------------------------------------- threads that have ended

  predicate Ended(th: Thread) {
    th.state == Zombie || th.state == Dead
  }

  /** The threads that have ended stay so, except perhaps those of `revived`. */
  ghost predicate EndedStay(m: State, n: State, revived: set<nat>) {
    forall t :: t in m.threads && Ended(m.threads[t]) && t !in revived ==> t in n.threads && n.threads[t].state == m.threads[t].state
  }

  lemma EndedTrans(l: State, m: State, n: State, a: set<nat>)
    requires EndedStay(l, m, a) && EndedStay(m, n, {})
    ensures EndedStay(l, n, a)
  {
  }

  /** A change to one thread that has not ended, or that keeps its state. */
  lemma OneEnded(m: State, n: State, t: nat)
    requires OnlyThread(m, n, t) && t in m.threads && (Ended(m.threads[t]) ==> n.threads[t].state == m.threads[t].state)
    ensures EndedStay(m, n, {})
  {
  }

  lemma NextEnded(m: State, c: nat)
    requires RunOk(m) && c < |m.cpus|
    ensures EndedStay(m, Next(m, c), {})
  {
    if FirstFit(m, c, 0).Some? {
      assert m.runQueue[FirstFit(m, c, 0).value] in m.runQueue;
    }
  }

  lemma WokenEnded(m: State, t: nat, result: int)
    requires t in m.threads
    ensures EndedStay(m, Woken(m, t, result), {})
  {
  }

  /** A processor that is given back is the only thing that revives an ended thread here, and the thread then runs. */
  lemma RetriedEnded(m: State, c: nat)
    requires Inv(m) && c < |m.cpus|
    ensures GivesBack(m, c) ==>
      var w := m.cpus[c].waiter.value;
      EndedStay(m, Retried(m, c), {w}) && Retried(m, c).threads[w].state == Running && Retried(m, c).cpus[c] == On(w)
    ensures !GivesBack(m, c) ==> EndedStay(m, Retried(m, c), {})
  {
    hide SomeBlocked, SomeRunning;
    if !GivesBack(m, c) {
      NextEnded(m, c);
    }
  }
}
