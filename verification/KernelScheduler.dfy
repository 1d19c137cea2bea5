/** The scheduler's operations (kernel/scheduler.c). Each method is what runs under the kernel lock without giving
    it up: a processor that finds nothing to run gives it up, so its next attempt is a step of its own, and so is
    the second part of kernel_scheduler_fault. */
module KernelScheduler {
  import opened Options
  import opened SchedulerQueues

  function Count(f: map<nat, nat>, t: nat): nat {
    if t in f then f[t] else 0
  }

  ghost predicate Balanced(threads: map<nat, Thread>, begun: map<nat, nat>, ended: map<nat, nat>) {
    forall t :: t in threads ==> Count(begun, t) == Count(ended, t) + if threads[t].wait.Some? then 1 else 0
  }

  lemma DetachedThread(m: State, t: nat)
    requires t in m.threads
    ensures
      var n := Detached(m, t);
      && t in n.threads && n.threads[t].wait.None? && n.threads[t].queued == m.threads[t].queued
      && n.threads.Keys == m.threads.Keys
  {
  }

  /** Changes that do not concern waiting keep the balance. */
  lemma BalancedStays(threads: map<nat, Thread>, threads': map<nat, Thread>, begun: map<nat, nat>, ended: map<nat, nat>)
    requires Balanced(threads, begun, ended) && threads'.Keys <= threads.Keys
    requires forall t :: t in threads' ==> threads'[t].wait.Some? == threads[t].wait.Some?
    ensures Balanced(threads', begun, ended)
  {
  }

  class Scheduler {
    var threads: map<nat, Thread>
    var runQueue: seq<nat>
    var waits: map<nat, seq<nat>>
    var timeouts: seq<nat>
    var cpus: seq<Processor>
    var ticks: nat

    /** Waits in a queue that each thread has begun and ended. */
    ghost var begun: map<nat, nat>
    ghost var ended: map<nat, nat>

    constructor (processors: nat, queues: set<nat>)
      ensures Ok() && threads == map[] && runQueue == [] && timeouts == [] && ticks == 0 && |cpus| == processors
    {
      threads, runQueue, waits, timeouts, ticks := map[], [], map q | q in queues :: [], [], 0;
      cpus := seq(processors, _ => Idle(None));
      begun, ended := map[], map[];
    }

    ghost function Now(): State
      reads this
    {
      State(threads, runQueue, waits, timeouts, cpus, ticks)
    }

    /** The queues are consistent, and every wait that began has ended once or is still going on. */
    ghost predicate Ok()
      reads this
    {
      Inv(Now()) && Balanced(threads, begun, ended)
    }

    /** scheduler_enqueue */
    method Enqueue(t: nat) returns (ok: bool)
      requires t in threads
      modifies `threads, `runQueue
      ensures ok == (!old(threads[t].queued) && old(threads[t].state) == Runnable)
      ensures ok ==> Now() == Enqueued(old(Now()), t)
      ensures !ok ==> Now() == old(Now())
    {
      if threads[t].queued || threads[t].state != Runnable {
        return false;
      }
      runQueue := runQueue + [t];
      threads := threads[t := threads[t].(queued := true)];
      return true;
    }

    /** scheduler_detach_wait */
    method DetachWait(t: nat)
      requires Ok() && t in threads
      modifies this
      ensures Ok() && Now() == Detached(old(Now()), t) && begun == old(begun)
    {
      hide Inv, Remove;
      DetachedInv(Now(), t);
      QueueExists(Now(), t);
      var th := threads[t];
      if th.wait.Some? {
        waits := waits[th.wait.value := Remove(waits[th.wait.value], t)];
        ended := ended[t := Count(ended, t) + 1];
      }
      if th.timed {
        timeouts := Remove(timeouts, t);
      }
      threads := threads[t := th.(wait := None, timed := false, deadline := 0, timeoutResult := 0)];
      assert Now() == Detached(old(Now()), t);
    }

    /** scheduler_wake_waiter */
    method WakeWaiter(t: nat, result: int)
      requires Ok() && t in threads
      modifies this
      ensures Ok() && Now() == Woken(old(Now()), t, result) && begun == old(begun)
    {
      hide Inv, Balanced, Detached;
      WokenInv(Now(), t, result);
      if threads[t].state != Blocked {
        return;
      }
      assert !threads[t].queued by { BlockedIsOff(Now(), t); }
      DetachWait(t);
      DetachedThread(old(Now()), t);
      ghost var m := Now();
      threads := threads[t := threads[t].(result := result, state := Runnable)];
      var ok := Enqueue(t);
      assert threads == m.threads[t := m.threads[t].(result := result, state := Runnable, queued := true)];
      assert Now() == Enqueued(Reported(m, t, result), t);
      BalancedStays(m.threads, threads, begun, ended);
    }

    /** kernel_wait_queue_wake_one: the first waiter, if there is one. */
    method WakeOne(q: nat, result: int) returns (n: nat)
      requires Ok() && q in waits
      modifies this
      ensures Ok() && q in waits && begun == old(begun)
      ensures n == if old(waits[q]) == [] then 0 else 1
      ensures n == 0 ==> Now() == old(Now())
      ensures n == 1 ==> old(waits[q])[0] in old(threads) && Now() == Woken(old(Now()), old(waits[q])[0], result)
      ensures n == 1 ==> waits == old(waits)[q := old(waits[q])[1..]] && runQueue == old(runQueue) + [old(waits[q])[0]]
    {
      hide RunOk, TimeoutOk, CpuOk;
      if waits[q] == [] {
        return 0;
      }
      var t := waits[q][0];
      assert t in waits[q];
      assert threads[t].state == Blocked && threads[t].wait == Some(q);
      WakeWaiter(t, result);
      return 1;
    }

    /** kernel_wait_queue_wake_all */
    method WakeAll(q: nat, result: int) returns (count: nat)
      requires Ok() && q in waits
      modifies this
      ensures Ok() && waits == old(waits)[q := []] && count == old(|waits[q]|)
      ensures runQueue == old(runQueue) + old(waits[q]) && begun == old(begun) && EndedStay(old(Now()), Now(), {})
    {
      hide Inv, Woken;
      count := 0;
      while waits[q] != []
        invariant Ok() && q in waits && count <= old(|waits[q]|) && begun == old(begun) && EndedStay(old(Now()), Now(), {})
        invariant waits == old(waits)[q := old(waits[q])[count..]]
        invariant runQueue == old(runQueue) + old(waits[q])[..count]
        decreases |waits[q]|
      {
        ghost var m, t := Now(), waits[q][0];
        var woke := WakeOne(q, result);
        WokenEnded(m, t, result);
        count := count + 1;
      }
    }

    /** The timer interrupt: exactly the waiters whose deadline has passed are woken, in the order
        they began to wait. */
    method Tick()
      requires Ok()
      modifies this
      ensures Ok() && ticks == old(ticks) + 1
      ensures forall t :: t in old(timeouts) ==> t in old(threads)
      ensures WokeExactly(old(Now()).(ticks := old(ticks) + 1), Now(), old(timeouts)) && EndedStay(old(Now()), Now(), {})
    {
      hide Inv, Expired, WokeExactly, EndedStay, Balanced, Distinct;
      ghost var l := Now();
      LaterInv(l);
      ticks := ticks + 1;
      ghost var m := Now();
      assert m == l.(ticks := l.ticks + 1);
      ExpireTimeouts();
      ExpiredExactly(m, m.timeouts);
      TickEnded(l, Now());
      assert ticks == m.ticks by { SameTicks(m, Now(), m.timeouts); }
    }

    /** scheduler_expire_timeouts */
    method ExpireTimeouts()
      requires Ok()
      modifies this
      ensures Ok() && (forall t :: t in old(timeouts) ==> t in old(threads)) && Now() == Expired(old(Now()), old(timeouts))
    {
      ghost var m := Now();
      LaterInv(m);
      hide Inv, Woken, Due, Balanced, Distinct;
      var list, i := timeouts, 0;
      assert list[0..] == list;
      while i < |list|
        invariant 0 <= i <= |list|
        invariant Ok() && threads.Keys == m.threads.Keys
        invariant Expired(m, list) == Expired(Now(), list[i..])
      {
        assert list[i..][0] == list[i] && list[i..][1..] == list[i + 1..];
        ExpireOne(list[i]);
        i := i + 1;
      }
    }

    /** One round of scheduler_expire_timeouts. */
    method ExpireOne(t: nat)
      requires Ok() && t in threads
      modifies this
      ensures Ok() && threads.Keys == old(threads.Keys) && ticks == old(ticks)
      ensures Now() == if old(Due(Now(), t)) then Woken(old(Now()), t, old(threads[t].timeoutResult)) else old(Now())
    {
      hide Inv;
      if threads[t].timed && threads[t].deadline <= ticks {
        WakeWaiter(t, threads[t].timeoutResult);
      }
    }

    /** The scan of scheduler_dequeue: the first thread in the run queue that is bound to this processor
        or to none comes out; the threads before it go to the back. */
    method Dequeue(c: nat) returns (r: Option<nat>)
      requires forall t :: t in runQueue ==> t in threads
      modifies `runQueue
      ensures r.Some? <==> old(FirstFit(Now(), c, 0)).Some?
      ensures r.Some? ==> var k := old(FirstFit(Now(), c, 0)).value;
        r.value == old(runQueue)[k] && runQueue == old(runQueue)[k + 1..] + old(runQueue)[..k]
      ensures r.None? ==> runQueue == old(runQueue)
    {
      hide Rotated, Fits;
      ghost var m, passed: nat := Now(), 0;
      var candidates: nat := |runQueue|;
      assert Rotated(m.runQueue, 0) == m.runQueue && Rotated(m.runQueue, |m.runQueue|) == m.runQueue by { WholeTurn(m.runQueue); }
      while candidates != 0
        invariant passed + candidates == |m.runQueue| && runQueue == Rotated(m.runQueue, passed)
        invariant FirstFit(m, c, 0) == FirstFit(m, c, passed)
      {
        candidates := candidates - 1;
        RotateStep(m.runQueue, passed);
        var t := runQueue[0];
        assert t == m.runQueue[passed] && t in m.runQueue;
        runQueue := runQueue[1..];
        if Fits(threads[t], c) {
          return Some(t);
        }
        runQueue := runQueue + [t];
        passed := passed + 1;
      }
      return None;
    }

    /** scheduler_dequeue for an idle processor, and the switch to the thread it finds. */
    method Dispatch(c: nat) returns (found: bool)
      requires Ok() && c < |cpus| && cpus[c].Idle?
      modifies this
      ensures Ok() && begun == old(begun) && found == old(FirstFit(Now(), c, 0)).Some?
      ensures Now() == Next(old(Now()), c) && EndedStay(old(Now()), Now(), {})
    {
      hide Inv, Balanced;
      OnProcessor(Now(), c);
      ghost var m := Now();
      assert EndedStay(m, Next(m, c), {}) by { NextStays(m, c); }
      var r := Dequeue(c);
      if r.None? {
        return false;
      }
      ghost var k := FirstFit(m, c, 0).value;
      TakenInv(m, c, k);
      var t := r.value;
      assert t in m.runQueue;
      threads := threads[t := threads[t].(queued := false, state := Running, affinity := c + 1)];
      cpus := cpus[c := On(t)];
      assert Now() == Taken(m, c, k);
      BalancedStays(m.threads, threads, begun, ended);
      return true;
    }

    /** The running thread goes to the back of the run queue. */
    method PutBack(c: nat)
      requires Ok() && c < |cpus| && Active(Now(), c)
      modifies this
      ensures Ok() && begun == old(begun) && EndedStay(old(Now()), Now(), {})
      ensures Now() == Enqueued(Left(old(Now()), c, None), old(cpus[c]).thread)
      ensures FirstFit(Now(), c, 0) == if old(FirstFit(Now(), c, 0)).Some? then old(FirstFit(Now(), c, 0)) else Some(old(|runQueue|))
    {
      hide Inv, Balanced, FirstFit, FitsAt;
      ghost var l := Now();
      OnProcessor(l, c);
      var p := cpus[c].thread;
      LeftInv(l, c, None);
      cpus := cpus[c := Idle(None)];
      ghost var m := Now();
      EnqueuedInv(m, p);
      threads := threads[p := threads[p].(state := Runnable)];
      var ok := Enqueue(p);
      assert threads == m.threads[p := m.threads[p].(state := Runnable, queued := true)];
      assert Now() == Enqueued(m, p);
      BalancedStays(m.threads, threads, begun, ended);
      assert p !in l.runQueue by { NotQueued(l, p); }
      FitAtEnd(l, Now(), c, p, 0);
    }

    /** scheduler_reschedule: the running thread goes to the back, and the first thread that fits takes over. */
    method Yield(c: nat)
      requires Ok() && c < |cpus|
      modifies this
      ensures Ok() && begun == old(begun) && EndedStay(old(Now()), Now(), {})
      ensures old(Active(Now(), c)) ==> Now() == Next(Enqueued(Left(old(Now()), c, None), old(cpus[c]).thread), c)
      ensures old(Active(Now(), c)) && old(FirstFit(Now(), c, 0)).Some? ==> cpus[c] == On(old(runQueue)[old(FirstFit(Now(), c, 0)).value])
      ensures old(Active(Now(), c)) && old(FirstFit(Now(), c, 0)).None? ==> cpus[c] == old(cpus[c])
      ensures !old(Active(Now(), c)) ==> Now() == old(Now())
    {
      hide Inv, Balanced, EndedStay, FirstFit;
      ghost var l := Now();
      OnProcessor(l, c);
      NothingEnded(l);
      if !cpus[c].On? || threads[cpus[c].thread].state != Running {
        return;
      }
      PutBack(c);
      ghost var n := Now();
      var found := Dispatch(c);
      EndedTrans(l, n, Now(), {});
    }

    /** The thread on the processor leaves it and starts to wait in queue `q`. */
    method EnterWait(c: nat, q: nat, timeout: nat, timeoutResult: int)
      requires Ok() && c < |cpus| && q in waits && cpus[c].On?
      modifies this
      ensures Ok() && old(cpus[c]).thread in old(threads) && Now() == WaitingFor(old(Now()), c, q, timeout, timeoutResult)
      ensures begun == old(begun)[old(cpus[c]).thread := Count(old(begun), old(cpus[c]).thread) + 1]
    {
      hide Inv, Balanced;
      OnProcessor(Now(), c);
      var p := cpus[c].thread;
      ghost var l := Now();
      LeftInv(l, c, Some(p));
      cpus := cpus[c := Idle(Some(p))];
      ghost var m := Now();
      WaitingInv(m, p, q);
      threads := threads[p := threads[p].(state := Blocked, wait := Some(q))];
      waits := waits[q := waits[q] + [p]];
      begun := begun[p := Count(begun, p) + 1];
      assert Now() == Waiting(m, p, q);
      assert Balanced(threads, begun, ended) by { WaitBegins(m.threads, p, q, l.threads[p], old(begun), ended); }
      if timeout != 0 {
        ghost var n := Now();
        TimedInv(n, p, ticks + timeout, timeoutResult);
        threads := threads[p := threads[p].(timed := true, deadline := ticks + timeout, timeoutResult := timeoutResult)];
        timeouts := timeouts + [p];
        assert Now() == Timed(n, p, ticks + timeout, timeoutResult);
        BalancedStays(n.threads, threads, begun, ended);
      }
    }

    /** kernel_scheduler_block_current, up to the point where the processor runs another thread or idles. */
    method BlockCurrent(c: nat, q: nat, timeout: nat, timeoutResult: int) returns (blocked: bool)
      requires Ok() && c < |cpus| && q in waits
      modifies this
      ensures Ok() && EndedStay(old(Now()), Now(), {})
      ensures blocked <==> old(Active(Now(), c)) && old(ticks) + timeout <= MAX_TICKS
      ensures !blocked ==> Now() == old(Now())
      ensures blocked ==> old(cpus[c]).thread in old(threads) && Now() == Next(WaitingFor(old(Now()), c, q, timeout, timeoutResult), c)
      ensures blocked ==> Count(begun, old(cpus[c]).thread) == Count(old(begun), old(cpus[c]).thread) + 1
      ensures blocked ==> cpus[c] == Idle(Some(old(cpus[c]).thread)) || (cpus[c].On? && cpus[c].thread != old(cpus[c]).thread)
    {
      hide Inv, Balanced;
      OnProcessor(Now(), c);
      if ticks + timeout > MAX_TICKS || !cpus[c].On? || threads[cpus[c].thread].state != Running {
        return false;
      }
      var p := cpus[c].thread;
      EnterWait(c, q, timeout, timeoutResult);
      assert p !in runQueue by { NotQueued(old(Now()), p); }
      var found := Dispatch(c);
      return true;
    }

    /** kernel_scheduler_block_kernel, up to the same point: the thread waits inside the kernel, and whether it has
        ended meanwhile is not asked. `inTrap` says that it has a trap frame and no kernel stack to resume yet. */
    method BlockKernel(c: nat, q: nat, timeout: nat, timeoutResult: int, inTrap: bool) returns (blocked: bool)
      requires Ok() && c < |cpus| && q in waits
      modifies this
      ensures Ok() && (old(cpus[c]).Idle? ==> EndedStay(old(Now()), Now(), {}))
      ensures old(cpus[c]).On? ==> EndedStay(old(Now()), Now(), {old(cpus[c]).thread})
      ensures blocked <==> old(cpus[c]).On? && inTrap && old(ticks) + timeout <= MAX_TICKS
      ensures !blocked ==> Now() == old(Now())
      ensures blocked ==> old(cpus[c]).thread in old(threads) && Now() == Next(WaitingFor(old(Now()), c, q, timeout, timeoutResult), c)
      ensures blocked ==> Count(begun, old(cpus[c]).thread) == Count(old(begun), old(cpus[c]).thread) + 1
      ensures blocked ==> cpus[c] == Idle(Some(old(cpus[c]).thread)) || (cpus[c].On? && cpus[c].thread != old(cpus[c]).thread)
      ensures blocked ==> old(cpus[c]).thread in threads && threads[old(cpus[c]).thread].state == Blocked
    {
      hide Inv, Balanced;
      OnProcessor(Now(), c);
      if !cpus[c].On? || !inTrap || threads[cpus[c].thread].wait.Some? || threads[cpus[c].thread].timed || ticks + timeout > MAX_TICKS {
        return false;
      }
      var p := cpus[c].thread;
      EnterWait(c, q, timeout, timeoutResult);
      assert p !in runQueue by { NotQueued(old(Now()), p); }
      var found := Dispatch(c);
      return true;
    }

    /** The running thread blocks without a queue, for a child or another thread (kernel_scheduler_waitpid and
        kernel_scheduler_join). */
    method BlockForEvent(c: nat) returns (blocked: bool)
      requires Ok() && c < |cpus|
      modifies this
      ensures Ok() && begun == old(begun) && EndedStay(old(Now()), Now(), {})
      ensures blocked <==> old(Active(Now(), c))
      ensures !blocked ==> Now() == old(Now())
      ensures blocked ==> var p := old(cpus[c]).thread; Now() == Next(InState(Left(old(Now()), c, Some(p)), p, Blocked), c)
    {
      hide Inv, Balanced;
      OnProcessor(Now(), c);
      if !cpus[c].On? || threads[cpus[c].thread].state != Running {
        return false;
      }
      var p := cpus[c].thread;
      LeftInv(Now(), c, Some(p));
      cpus := cpus[c := Idle(Some(p))];
      ghost var m := Now();
      InStateInv(m, p, Blocked);
      threads := threads[p := threads[p].(state := Blocked)];
      assert Now() == InState(m, p, Blocked);
      BalancedStays(m.threads, threads, begun, ended);
      var found := Dispatch(c);
      return true;
    }

    /** One more round of scheduler_dequeue_or_idle after the lock was taken again. The thread that gave the processor
        up gets it back exactly when there is nothing else to run or to wait for, even if it has ended meanwhile. */
    method Retry(c: nat)
      requires Ok() && c < |cpus| && cpus[c].Idle?
      modifies this
      ensures Ok() && begun == old(begun) && Now() == Retried(old(Now()), c)
      ensures old(GivesBack(Now(), c)) ==>
        var w := old(cpus[c]).waiter.value; cpus[c] == On(w) && EndedStay(old(Now()), Now(), {w}) && threads[w].state == Running
      ensures !old(GivesBack(Now(), c)) ==> EndedStay(old(Now()), Now(), {})
    {
      hide Inv, Balanced;
      ghost var l := Now();
      OnProcessor(l, c);
      RetriedEnded(l, c);
      var waiter := cpus[c].waiter;
      var found := Dispatch(c);
      if found || waiter.None? {
        return;
      }
      if exists t :: t in threads && threads[t].state == Blocked {
        return;
      }
      if exists d :: 0 <= d < |cpus| && cpus[d].On? && cpus[d].thread in threads && threads[cpus[d].thread].state == Running {
        return;
      }
      assert GivesBack(l, c);
      var w := waiter.value;
      WaiterIsFree(l, c);
      DetachWait(w);
      ghost var m := Now();
      ReturnedInv(m, c, w);
      threads := threads[w := threads[w].(state := Running)];
      cpus := cpus[c := On(w)];
      assert Now() == Returned(m, c, w);
      BalancedStays(m.threads, threads, begun, ended);
    }

    /** A thread off all queues gets a new state. */
    method SetState(t: nat, state: RunState)
      requires Ok() && t in threads && !threads[t].queued && threads[t].wait.None?
      requires state == Running || state == Zombie
      modifies `threads
      ensures Ok() && Now() == InState(old(Now()), t, state)
    {
      hide Inv, Balanced;
      InStateInv(Now(), t, state);
      threads := threads[t := threads[t].(state := state)];
      assert Now() == InState(old(Now()), t, state);
      BalancedStays(old(threads), threads, begun, ended);
    }

    /** A thread that has ended leaves its processor for good. */
    method Leave(c: nat)
      requires Ok() && c < |cpus| && cpus[c].On?
      modifies this
      ensures Ok() && begun == old(begun) && EndedStay(old(Now()), Now(), {})
      ensures Now() == Next(Left(old(Now()), c, None), c) && cpus[c] != old(cpus[c])
    {
      hide Inv, Balanced;
      OnProcessor(Now(), c);
      LeftInv(Now(), c, None);
      assert cpus[c].thread !in runQueue by { NotQueued(Now(), cpus[c].thread); }
      cpus := cpus[c := Idle(None)];
      var found := Dispatch(c);
    }

    /** The threads of the list are woken in order. */
    method WakeThese(waiters: seq<nat>, results: seq<int>)
      requires Ok() && |waiters| == |results| && forall t :: t in waiters ==> t in threads
      modifies this
      ensures Ok() && begun == old(begun) && EndedStay(old(Now()), Now(), {}) && Now() == WokenAll(old(Now()), waiters, results)
    {
      hide Inv, Balanced, EndedStay, Woken;
      ghost var m := Now();
      assert waiters[..0] == [] && results[..0] == [];
      assert EndedStay(m, m, {}) by { NothingEnded(m); }
      for i := 0 to |waiters|
        invariant Ok() && begun == old(begun) && EndedStay(m, Now(), {})
        invariant (forall t :: t in waiters[..i] ==> t in m.threads) && Now() == WokenAll(m, waiters[..i], results[..i])
      {
        assert waiters[i] in waiters;
        ghost var n, list, told := Now(), waiters[..i + 1], results[..i + 1];
        assert list[..i] == waiters[..i] && told[..i] == results[..i];
        WakeWaiter(waiters[i], results[i]);
        WokenEnded(n, waiters[i], results[i]);
        EndedTrans(m, n, Now(), {});
      }
      assert waiters[..|waiters|] == waiters && results[..|waiters|] == results;
    }

    /** kernel_scheduler_exit: the running thread ends, the threads that wait for it are woken, and the
        processor goes on. */
    method Exit(c: nat, waiters: seq<nat>, results: seq<int>) returns (exited: bool)
      requires Ok() && c < |cpus| && |waiters| == |results| && forall t :: t in waiters ==> t in threads
      modifies this
      ensures Ok() && begun == old(begun) && EndedStay(old(Now()), Now(), {})
      ensures exited == old(Active(Now(), c))
      ensures !exited ==> Now() == old(Now())
      ensures exited ==>
        var p := old(cpus[c]).thread;
        && Now() == Next(Left(WokenAll(InState(old(Now()), p, Zombie), waiters, results), c, None), c)
        && p in threads && threads[p].state == Zombie && cpus[c] != old(cpus[c])
    {
      hide Inv, Balanced, EndedStay, WokenAll, FirstFit;
      ghost var l := Now();
      OnProcessor(l, c);
      NothingEnded(l);
      if !cpus[c].On? || threads[cpus[c].thread].state != Running {
        return false;
      }
      var p := cpus[c].thread;
      SetState(p, Zombie);
      ghost var m := Now();
      OneEnded(l, m, p);
      WakeThese(waiters, results);
      ghost var n := Now();
      EndedTrans(l, m, n, {});
      Leave(c);
      EndedTrans(l, n, Now(), {});
      EndedTrans(m, n, Now(), {});
      StillEnded(m, Now(), p);
      return true;
    }

    /** kernel_scheduler_stop_current: the thread on the processor ends if its process was told to stop by another
        thread, which `requested` says. */
    method StopCurrent(c: nat, requested: bool) returns (stopped: bool)
      requires Ok() && c < |cpus|
      modifies this
      ensures Ok() && begun == old(begun) && EndedStay(old(Now()), Now(), {})
      ensures stopped <==> old(cpus[c]).On? && requested
      ensures !stopped ==> Now() == old(Now())
      ensures stopped ==>
        var p := old(cpus[c]).thread; p in old(threads) && Now() == InState(Detached(old(Now()), p), p, Zombie) && cpus == old(cpus)
      ensures runQueue == old(runQueue) && waits == old(waits) && timeouts == old(timeouts)
    {
      hide Inv, Balanced;
      OnProcessor(Now(), c);
      if !cpus[c].On? || !requested {
        return false;
      }
      DetachWait(cpus[c].thread);
      SetState(cpus[c].thread, Zombie);
      return true;
    }

    /** A thread is taken out of every queue it is in. */
    method LeaveQueues(t: nat)
      requires Ok() && t in threads
      modifies this
      ensures Ok() && threads.Keys == old(threads.Keys) && cpus == old(cpus) && begun == old(begun)
      ensures !threads[t].queued && threads[t].wait.None? && threads[t].state == old(threads[t].state)
      ensures forall u :: u in threads && u != t ==> threads[u] == old(threads[u])
    {
      hide Inv, Balanced, Remove;
      UnqueuedInv(Now(), t);
      if threads[t].queued {
        runQueue := Remove(runQueue, t);
        threads := threads[t := threads[t].(queued := false)];
      }
      assert threads == old(threads)[t := old(threads)[t].(queued := false)];
      assert Now() == Unqueued(old(Now()), t);
      BalancedStays(old(threads), threads, begun, ended);
      DetachWait(t);
    }

    /** A thread leaves its queues and ends, unless a processor still works for it. */
    method StopOne(t: nat, working: bool)
      requires Ok() && t in threads
      modifies this
      ensures Ok() && threads.Keys == old(threads.Keys) && cpus == old(cpus) && begun == old(begun) && EndedStay(old(Now()), Now(), {})
      ensures Stopped(threads[t], working) && forall u :: u in threads && u != t ==> threads[u] == old(threads[u])
      ensures threads[t].state == if working || old(threads[t].state) == Dead then old(threads[t].state) else Zombie
    {
      hide Inv, Balanced, EndedStay;
      LeaveQueues(t);
      if !working && threads[t].state != Dead {
        SetState(t, Zombie);
      }
      OneEnded(old(Now()), Now(), t);
    }

    /** scheduler_request_process_stop: every other thread of the process leaves the queues, and ends unless a
        processor still works for it. */
    method RequestStop(members: seq<nat>, owner: nat, working: set<nat>)
      requires Ok() && forall t :: t in members ==> t in threads
      modifies this
      ensures Ok() && threads.Keys == old(threads.Keys) && cpus == old(cpus) && begun == old(begun) && EndedStay(old(Now()), Now(), {})
      ensures forall t :: t in members && t != owner ==> t !in runQueue && t !in timeouts && forall q :: q in waits ==> t !in waits[q]
      ensures forall t :: t in members && t != owner && t !in working && threads[t].state != Dead ==> threads[t].state == Zombie
      ensures forall t :: t in threads && t !in members ==> threads[t] == old(threads[t])
      ensures owner in threads ==> threads[owner] == old(threads[owner])
    {
      hide Inv, Balanced, EndedStay;
      NothingEnded(Now());
      for i := 0 to |members|
        invariant Ok() && threads.Keys == old(threads.Keys) && cpus == old(cpus) && begun == old(begun) && EndedStay(old(Now()), Now(), {})
        invariant forall j :: 0 <= j < i && members[j] != owner ==> Stopped(threads[members[j]], members[j] in working)
        invariant forall t :: t in threads && (t !in members || t == owner) ==> threads[t] == old(threads[t])
      {
        var t := members[i];
        assert t in members;
        if t != owner {
          ghost var m := Now();
          StopOne(t, t in working);
          EndedTrans(old(Now()), m, Now(), {});
        }
      }
      forall t | t in members && t != owner
        ensures t !in runQueue && t !in timeouts && forall q :: q in waits ==> t !in waits[q]
        ensures Stopped(threads[t], t in working)
      {
        var j :| 0 <= j < |members| && members[j] == t;
        InNoQueue(Now(), t);
      }
    }

    /** kernel_scheduler_fault, up to the point where it gives up the lock: every thread of the process ends, wherever
        it is. The processor still works for its thread and leaves it in a later step (Leave). */
    method Fault(c: nat, members: seq<nat>) returns (faulted: bool)
      requires Ok() && c < |cpus| && (cpus[c].On? ==> cpus[c].thread in members) && forall t :: t in members ==> t in threads
      modifies this
      ensures Ok() && threads.Keys == old(threads.Keys) && cpus == old(cpus) && begun == old(begun) && EndedStay(old(Now()), Now(), {})
      ensures faulted == old(Active(Now(), c))
      ensures !faulted ==> Now() == old(Now())
      ensures faulted ==> forall t :: t in members ==> Ended(threads[t]) && t !in runQueue && t !in timeouts && forall q :: q in waits ==> t !in waits[q]
      ensures forall t :: t in threads && t !in members ==> threads[t] == old(threads[t])
    {
      hide Inv, Balanced, EndedStay;
      OnProcessor(Now(), c);
      NothingEnded(Now());
      if !cpus[c].On? || threads[cpus[c].thread].state != Running {
        return false;
      }
      for i := 0 to |members|
        invariant Ok() && threads.Keys == old(threads.Keys) && cpus == old(cpus) && begun == old(begun) && EndedStay(old(Now()), Now(), {})
        invariant forall j :: 0 <= j < i ==> Stopped(threads[members[j]], false)
        invariant forall t :: t in threads && t !in members ==> threads[t] == old(threads[t])
      {
        var t := members[i];
        assert t in members;
        ghost var m := Now();
        StopOne(t, false);
        EndedTrans(old(Now()), m, Now(), {});
      }
      forall t | t in members
        ensures Ended(threads[t]) && t !in runQueue && t !in timeouts && forall q :: q in waits ==> t !in waits[q]
      {
        var j :| 0 <= j < |members| && members[j] == t;
        InNoQueue(Now(), t);
      }
      return true;
    }

    /** kernel_scheduler_register_process: the new threads join the run queue in order. */
    method Register(process: nat, members: seq<nat>)
      requires Ok() && Distinct(members) && forall t :: t in members ==> t !in threads
      modifies this
      ensures Ok() && runQueue == old(runQueue) + members && waits == old(waits) && timeouts == old(timeouts) && cpus == old(cpus)
      ensures forall t :: t in old(threads) ==> t in threads && threads[t] == old(threads[t])
    {
      hide Inv, Balanced;
      for i := 0 to |members|
        invariant Ok() && runQueue == old(runQueue) + members[..i] && waits == old(waits) && timeouts == old(timeouts) && cpus == old(cpus)
        invariant forall t :: t in threads <==> t in old(threads) || t in members[..i]
        invariant forall t :: t in old(threads) ==> threads[t] == old(threads[t])
      {
        var t := members[i];
        assert t in members && t !in members[..i] by { assert Distinct(members); }
        assert members[..i + 1] == members[..i] + [t];
        RegisterOne(process, t);
      }
    }

    /** One new thread joins the run queue. */
    method RegisterOne(process: nat, t: nat)
      requires Ok() && t !in threads
      modifies this
      ensures Ok() && runQueue == old(runQueue) + [t] && waits == old(waits) && timeouts == old(timeouts) && cpus == old(cpus)
      ensures threads.Keys == old(threads.Keys) + {t} && forall u :: u in old(threads) ==> threads[u] == old(threads[u])
    {
      hide Inv, Balanced;
      ghost var m := Now();
      var th := Thread(process, New, false, None, false, 0, 0, 0, 0);
      AddedInv(m, t, th);
      EnqueuedInv(Added(m, t, th), t);
      threads := threads[t := th.(state := Runnable)];
      begun, ended := begun[t := 0], ended[t := 0];
      NewBalance(m.threads, t, th.(state := Runnable), old(begun), old(ended));
      ghost var n := threads;
      var ok := Enqueue(t);
      assert threads == m.threads[t := th.(state := Runnable, queued := true)];
      assert Now() == Enqueued(Added(m, t, th), t);
      BalancedStays(n, threads, begun, ended);
    }
  }

  lemma NothingEnded(m: State)
    ensures EndedStay(m, m, {})
  {
  }

  lemma StillEnded(m: State, n: State, t: nat)
    requires EndedStay(m, n, {}) && t in m.threads && Ended(m.threads[t])
    ensures t in n.threads && n.threads[t].state == m.threads[t].state
  {
  }

  lemma SameTicks(m: State, n: State, list: seq<nat>)
    requires (forall t :: t in list ==> t in m.threads) && WokeExactly(m, n, list)
    ensures n.ticks == m.ticks
  {
  }

  lemma TickEnded(m: State, n: State)
    requires Inv(m) && WokeExactly(m.(ticks := m.ticks + 1), n, m.timeouts)
    ensures EndedStay(m, n, {})
  {
    hide Roused;
    var l := m.(ticks := m.ticks + 1);
    forall t | t in m.threads && Ended(m.threads[t])
      ensures n.threads[t].state == m.threads[t].state
    {
      assert !Due(l, t);
    }
  }

  lemma NextStays(m: State, c: nat)
    requires Inv(m) && c < |m.cpus|
    ensures EndedStay(m, Next(m, c), {})
  {
    NextEnded(m, c);
  }

  /** In no queue, and ended unless a processor still works for it. */
  predicate Stopped(th: Thread, working: bool) {
    !th.queued && th.wait.None? && (working || th.state == Zombie || th.state == Dead)
  }

  lemma InNoQueue(m: State, t: nat)
    requires Inv(m) && t in m.threads && !m.threads[t].queued && m.threads[t].wait.None?
    ensures t !in m.runQueue && t !in m.timeouts && forall q :: q in m.waits ==> t !in m.waits[q]
  {
  }

  lemma NewBalance(threads: map<nat, Thread>, t: nat, th: Thread, begun: map<nat, nat>, ended: map<nat, nat>)
    requires Balanced(threads, begun, ended) && t !in threads && th.wait.None?
    ensures Balanced(threads[t := th], begun[t := 0], ended[t := 0])
  {
  }

  const MAX_TICKS: nat := 0xFFFF_FFFF_FFFF_FFFF

  lemma WaitBegins(threads: map<nat, Thread>, p: nat, q: nat, th: Thread, begun: map<nat, nat>, ended: map<nat, nat>)
    requires Balanced(threads, begun, ended) && p in threads && threads[p] == th && th.wait.None?
    ensures Balanced(threads[p := th.(state := Blocked, wait := Some(q))], begun[p := Count(begun, p) + 1], ended)
  {
  }

  /** Processor `c` runs a thread. */
  ghost predicate Active(m: State, c: nat)
    requires c < |m.cpus|
  {
    m.cpus[c].On? && m.cpus[c].thread in m.threads && m.threads[m.cpus[c].thread].state == Running
  }

  lemma NotQueued(m: State, t: nat)
    requires Inv(m) && t in m.threads && !m.threads[t].queued
    ensures t !in m.runQueue
  {
  }

  lemma WholeTurn(s: seq<nat>)
    ensures Rotated(s, 0) == s && Rotated(s, |s|) == s
  {
  }

  lemma QueueExists(m: State, t: nat)
    requires Inv(m) && t in m.threads
    ensures m.threads[t].wait.Some? ==> m.threads[t].wait.value in m.waits
  {
  }

  lemma LaterInv(m: State)
    requires Inv(m)
    ensures Inv(m.(ticks := m.ticks + 1)) && Distinct(m.timeouts) && forall t :: t in m.timeouts ==> t in m.threads
  {
  }
}
