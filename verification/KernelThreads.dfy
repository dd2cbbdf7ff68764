/** The scheduler and the semaphores as the kernel runs them, statement by statement on its own
    variables, each method proved to be the corresponding step of the Scheduler machine. */
module KernelThreads {
  import opened Options
  import opened Scheduler
  import opened SchedulerRuns
  import opened Threads

  class Kernel {
    var status: map<Tid, Status>
    var ticks: map<Tid, nat>
    var ready: seq<Tid>
    var cur: Tid
    var semas: map<SemaId, Sema>
    var idleThread: Option<Tid>
    const roundRobin: bool
    ghost const idler: Tid
    ghost var at: map<Tid, Place>

    ghost function Now(): State
      reads this
    {
      State(status, at, ticks, ready, cur, semas, idleThread, idler, roundRobin)
    }

    method NextThreadToRun() returns (next: Tid)
      requires ready != [] || idleThread.Some?
      modifies this`ready
      ensures if old(ready) == [] then next == idleThread.value && ready == [] else next == old(ready)[0] && ready == old(ready)[1..]
    {
      if ready == [] {
        next := idleThread.value;
      } else {
        next, ready := ready[0], ready[1..];
      }
    }

    /** schedule and thread_schedule_tail, with switch_threads as the change of running thread. */
    method Schedule()
      requires Parked(Now())
      modifies this`ready, this`cur, this`status
      ensures Inv(Now()) && Now() == Scheduled(old(Now()))
    {
      hide Parked, Inv;
      NextExists(Now());
      DispatchKeeps(Now());
      assert status[cur] != Running;
      var next := NextThreadToRun();
      cur := next;
      status := status[cur := Running];
    }

    /** thread_block, by a thread that has put itself on a wait list or is the idle thread. */
    method ThreadBlock()
      requires cur in status && Parked(CurBlocked(Now()))
      modifies this`ready, this`cur, this`status
      ensures Inv(Now()) && Now() == Scheduled(CurBlocked(old(Now())))
    {
      hide Parked, Inv;
      status := status[cur := Blocked];
      Schedule();
    }

    method ThreadUnblock(t: Tid)
      requires t in status && status[t] == Blocked
      modifies this`ready, this`status
      ensures Now() == Unblocked(old(Now()), t)
    {
      ready := ready + [t];
      status := status[t := Ready];
    }

    method ThreadYield()
      requires Inv(Now())
      modifies this`ready, this`cur, this`status
      ensures Inv(Now()) && Now() == YieldCpu(old(Now()))
    {
      hide Parked, Inv;
      YieldKeeps(Now());
      if idleThread != Some(cur) {
        ready := ready + [cur];
      }
      status := status[cur := Ready];
      Schedule();
    }

    method ThreadExit()
      requires Inv(Now()) && at[cur] == Own
      modifies this`ready, this`cur, this`status
      ensures Inv(Now()) && Now() == ExitCpu(old(Now()))
    {
      hide Parked, Inv;
      ExitKeeps(Now());
      status := status[cur := Dying];
      Schedule();
    }

    /** One turn of sema_down's loop.  When it returns false another thread is running, and this one
        will take its next turn when it is chosen again. */
    method SemaDownTurn(x: SemaId) returns (taken: bool)
      requires Inv(Now()) && x in semas && (at[cur] == Own || at[cur] == InDown(x))
      modifies this`ready, this`cur, this`status, this`semas, this`at
      ensures Inv(Now()) && Now() == DownTurn(old(Now()), x) && taken == (old(semas)[x].value > 0)
    {
      hide Parked, Inv;
      DownTurnKeeps(Now(), x);
      if semas[x].value == 0 {
        QueueKeeps(Now(), x);
        semas := semas[x := semas[x].(waiters := semas[x].waiters + [cur])];
        at := at[cur := InDown(x)];
        ThreadBlock();
        return false;
      }
      semas := semas[x := semas[x].(value := semas[x].value - 1)];
      at := at[cur := Own];
      taken := true;
    }

    method SemaTryDown(x: SemaId) returns (success: bool)
      requires Inv(Now()) && x in semas
      modifies this`semas
      ensures Inv(Now()) && Now() == Next(old(Now()), TryDown(x)) && success == (old(semas)[x].value > 0)
    {
      hide Parked, Inv;
      NextKeeps(Now(), TryDown(x));
      if semas[x].value > 0 {
        semas := semas[x := semas[x].(value := semas[x].value - 1)];
        success := true;
      } else {
        success := false;
      }
    }

    method SemaUp(x: SemaId)
      requires Inv(Now()) && x in semas
      modifies this`ready, this`status, this`semas
      ensures Inv(Now()) && Now() == Next(old(Now()), Up(x)) && semas.Keys == old(semas).Keys
    {
      hide Parked, Inv;
      UpKeeps(Now(), x);
      ghost var m := semas[x];
      if semas[x].waiters != [] {
        var t := semas[x].waiters[0];
        semas := semas[x := semas[x].(waiters := semas[x].waiters[1..])];
        ThreadUnblock(t);
      }
      semas := semas[x := semas[x].(value := semas[x].value + 1)];
      assert semas == old(semas)[x := Sema(m.value + 1, if m.waiters == [] then [] else m.waiters[1..])];
    }

    /** thread_tick under round robin; the result asks for a yield on return from the interrupt. */
    method ThreadTick() returns (yieldOnReturn: bool)
      requires Inv(Now())
      modifies this`ticks
      ensures Inv(Now()) && Now() == (if roundRobin then TickCharged(old(Now())) else old(Now()))
      ensures yieldOnReturn == (roundRobin && old(ticks)[cur] + 1 >= QUANTUM)
    {
      hide Parked, Inv;
      TickChargedKeeps(Now());
      yieldOnReturn := false;
      if roundRobin {
        ticks := ticks[cur := ticks[cur] + 1];
        if ticks[cur] >= QUANTUM {
          yieldOnReturn := true;
          ticks := ticks[cur := 0];
          assert ticks == old(ticks)[cur := 0];
        }
      }
    }

    /** The wakeups of an interrupt handler. */
    method WakeAll(ups: seq<SemaId>)
      requires Inv(Now()) && forall x | x in ups :: x in semas
      modifies this`ready, this`status, this`semas
      ensures Inv(Now()) && Now() == UppedAll(old(Now()), ups)
    {
      hide Inv, Upped;
      var i := 0;
      while i < |ups|
        invariant i <= |ups| && Inv(Now())
        invariant forall x | x in ups :: x in semas
        invariant UppedAll(Now(), ups[i..]) == UppedAll(old(Now()), ups)
      {
        assert ups[i..][0] == ups[i] && ups[i..][1..] == ups[i + 1..];
        SemaUp(ups[i]);
        i := i + 1;
      }
    }

    /** An external interrupt, from its handler's first action to the yield on return. */
    method Interrupt(tick: bool, ups: seq<SemaId>, preempt: bool)
      requires Inv(Now()) && Enabled(Now(), Action.Interrupt(tick, ups, preempt))
      modifies this`ready, this`cur, this`status, this`semas, this`ticks
      ensures Inv(Now()) && Now() == Next(old(Now()), Action.Interrupt(tick, ups, preempt))
    {
      hide Parked, Inv, TickCharged, UppedAll, YieldCpu;
      var yieldOnReturn := false;
      TickSemas(Now());
      if tick {
        yieldOnReturn := ThreadTick();
      }
      if preempt {
        yieldOnReturn := true;
      }
      WakeAll(ups);
      if yieldOnReturn {
        ThreadYield();
      }
    }
  }

  /** Dispatched, from a state in which schedule is known to find a thread. */
  ghost function Scheduled(s: State): State
    requires Parked(s)
  {
    NextExists(s);
    Dispatched(s)
  }
}
