/** Whole runs of the scheduler: every interleaving of thread steps and interrupts. */
module SchedulerRuns {
  import opened Options
  import opened StableOrder
  import opened Scheduler
  import opened Threads

  datatype Action =
    | Down(x: SemaId)                  // sema_down, from the thread's own code
    | Recheck                          // a chosen thread resumes sema_down's loop
    | TryDown(x: SemaId)
    | Up(x: SemaId)
    | Yield
    | Exit
    | Create(t: Tid)
    | NewSema(x: SemaId, value: nat)
    | EnterIdle                        // idle_thread = thread_current ()
    | StartIdle                        // sema_up (idle_started)
    | IdleBlock                        // one turn of the idle thread's loop
    | Interrupt(tick: bool, ups: seq<SemaId>, preempt: bool)
    | Sort(order: seq<Tid>)            // list_sort (&ready_list), by the SJF and MLFQS policies

  predicate Enabled(s: State, a: Action)
    requires s.cur in s.at
  {
    match a
    case Down(x) => s.at[s.cur] == Own && x in s.semas
    case Recheck => s.at[s.cur].InDown?
    case TryDown(x) => x in s.semas
    case Up(x) => x in s.semas
    case Yield => s.at[s.cur] == Own
    case Exit => s.at[s.cur] == Own
    case Create(t) => t !in s.status
    case NewSema(x, value) => x !in s.semas
    case EnterIdle => s.at[s.cur].IdleEntry?
    case StartIdle => s.at[s.cur].IdleUp?
    case IdleBlock => s.at[s.cur].IdleLoop?
    case Interrupt(tick, ups, preempt) => (forall x | x in ups :: x in s.semas) && (preempt ==> tick && !s.roundRobin)
    case Sort(order) => !s.roundRobin && multiset(order) == multiset(s.ready)
  }

  /** One turn of sema_down's loop by the running thread. */
  function DownTurn(s: State, x: SemaId): State
    requires Inv(s) && x in s.semas && (s.at[s.cur] == Own || s.at[s.cur] == InDown(x))
  {
    if s.semas[x].value == 0 then
      QueueKeeps(s, x);
      var parked := CurBlocked(Queued(s, x));
      NextExists(parked);
      Dispatched(parked)
    else PastDown(Decremented(s, x))
  }

  function YieldCpu(s: State): State
    requires Inv(s)
  {
    YieldKeeps(s);
    NextExists(CurYielding(s));
    Dispatched(CurYielding(s))
  }

  function ExitCpu(s: State): State
    requires Inv(s) && s.at[s.cur] == Own
  {
    ExitKeeps(s);
    NextExists(CurDying(s));
    Dispatched(CurDying(s))
  }

  function IdleBlockCpu(s: State): State
    requires Inv(s) && s.at[s.cur] == IdleLoop
  {
    IdleBlockKeeps(s);
    NextExists(CurBlocked(s));
    Dispatched(CurBlocked(s))
  }

  /** The wakeups an interrupt handler performs, in order. */
  function UppedAll(s: State, ups: seq<SemaId>): (s': State)
    requires Inv(s) && forall x | x in ups :: x in s.semas
    ensures Inv(s') && s'.semas.Keys == s.semas.Keys
    decreases |ups|
  {
    if ups == [] then s
    else
      assert ups[0] in ups;
      UpKeeps(s, ups[0]);
      UppedAll(Upped(s, ups[0]), ups[1..])
  }

  /** The timer interrupt: charge the tick, wake sleepers, and yield on return if the quantum is up
      (round robin) or the policy asked for it. */
  function Interrupted(s: State, tick: bool, ups: seq<SemaId>, preempt: bool): State
    requires Inv(s) && forall x | x in ups :: x in s.semas
  {
    var charge := tick && s.roundRobin;
    var expired := charge && s.ticks[s.cur] + 1 >= QUANTUM;
    TickChargedKeeps(s);
    var s1 := UppedAll(if charge then TickCharged(s) else s, ups);
    if expired || preempt then YieldCpu(s1) else s1
  }

  function Next(s: State, a: Action): State
    requires Inv(s) && Enabled(s, a)
  {
    match a
    case Down(x) => DownTurn(s, x)
    case Recheck => DownTurn(s, s.at[s.cur].sema)
    case TryDown(x) => if s.semas[x].value > 0 then Decremented(s, x) else s
    case Up(x) => UpKeeps(s, x); Upped(s, x)
    case Yield => YieldCpu(s)
    case Exit => ExitCpu(s)
    case Create(t) => Created(s, t)
    case NewSema(x, value) => s.(semas := s.semas[x := Sema(value, [])])
    case EnterIdle => IdleEntered(s)
    case StartIdle =>
      UpKeeps(s, s.at[s.cur].started);
      var s1 := Upped(s, s.at[s.cur].started);
      s1.(at := s1.at[s.cur := IdleLoop])
    case IdleBlock => IdleBlockCpu(s)
    case Interrupt(tick, ups, preempt) => Interrupted(s, tick, ups, preempt)
    case Sort(order) => s.(ready := order)
  }

  lemma InterruptedKeeps(s: State, tick: bool, ups: seq<SemaId>, preempt: bool)
    requires Inv(s) && forall x | x in ups :: x in s.semas
    ensures Inv(Interrupted(s, tick, ups, preempt))
  {
    hide Inv;
    TickChargedKeeps(s);
    var s1 := UppedAll(if tick && s.roundRobin then TickCharged(s) else s, ups);
    YieldKeeps(s1);
    DispatchKeeps(CurYielding(s1));
  }

  /** Only the idle thread is ever at one of the idle function's places. */
  lemma IdleIsIdler(s: State)
    requires Inv(s) && !s.at[s.cur].Own? && !s.at[s.cur].InDown?
    ensures s.cur == s.idler && (!s.at[s.cur].IdleEntry? ==> s.idleThread == Some(s.cur))
  {
  }

  lemma StartIdleKeeps(s: State)
    requires Inv(s) && s.at[s.cur].IdleUp?
    ensures Inv(Next(s, StartIdle))
  {
    var x := s.at[s.cur].started;
    IdleIsIdler(s);
    hide Inv;
    UpKeeps(s, x);
    IdleMoved(Upped(s, x), Next(s, StartIdle));
  }

  lemma EnterIdleKeeps(s: State)
    requires Inv(s) && s.at[s.cur].IdleEntry?
    ensures Inv(IdleEntered(s))
  {
    assert s.cur == s.idler;
    IdleMoved(s, IdleEntered(s));
  }

  lemma DownTurnKeeps(s: State, x: SemaId)
    requires Inv(s) && x in s.semas && (s.at[s.cur] == Own || s.at[s.cur] == InDown(x))
    ensures Inv(DownTurn(s, x))
  {
    if s.semas[x].value == 0 {
      QueueKeeps(s, x);
      DispatchKeeps(CurBlocked(Queued(s, x)));
    } else {
      TakeKeeps(s, x);
    }
  }

  /** Every step keeps the scheduler's discipline; that Next is defined at all says that none of
      the assertions in thread_unblock and schedule can fail. */
  lemma NextKeeps(s: State, a: Action)
    requires Inv(s) && Enabled(s, a)
    ensures Inv(Next(s, a))
  {
    match a {
      case Down(x) => DownTurnKeeps(s, x);
      case Recheck => DownTurnKeeps(s, s.at[s.cur].sema);
      case TryDown(x) =>
        if s.semas[x].value > 0 {
          DecrementKeeps(s, x);
        }
      case Up(x) => UpKeeps(s, x);
      case Yield =>
        YieldKeeps(s);
        DispatchKeeps(CurYielding(s));
      case Exit =>
        ExitKeeps(s);
        DispatchKeeps(CurDying(s));
      case Create(t) => CreateKeeps(s, t);
      case NewSema(x, value) => NewSemaKeeps(s, x, value);
      case EnterIdle => EnterIdleKeeps(s);
      case StartIdle => StartIdleKeeps(s);
      case IdleBlock =>
        IdleBlockKeeps(s);
        DispatchKeeps(CurBlocked(s));
      case Interrupt(tick, ups, preempt) => InterruptedKeeps(s, tick, ups, preempt);
      case Sort(order) => SortKeeps(s, order);
    }
  }

  // ----- runs

  /** As thread_start leaves it when it enables interrupts: the initial thread runs, the idle
      thread-to-be is ready, and idle_started is 0. */
  function Boot(initial: Tid, idler: Tid, started: SemaId, roundRobin: bool): (s: State)
    requires initial != idler
    ensures Inv(s)
  {
    var s := State(map[initial := Running, idler := Ready], map[initial := Own, idler := IdleEntry(started)],
                   map[initial := 0, idler := 0], [idler], initial, map[started := Sema(0, [])], None, idler, roundRobin);
    assert forall t :: !BlockedOn(s, t, started);
    s
  }

  /** The state after some actions, provided each was possible when it was taken. */
  function After(s: State, actions: seq<Action>): (s': Option<State>)
    requires Inv(s)
    ensures s'.Some? ==> Inv(s'.value)
  {
    if actions == [] then Some(s)
    else
      var before := After(s, actions[..|actions| - 1]);
      var a := actions[|actions| - 1];
      if before.None? || !Enabled(before.value, a) then None
      else
        NextKeeps(before.value, a);
        Some(Next(before.value, a))
  }

  /** One thread runs; a thread other than the idle one is READY exactly when it is on the ready list,
      once; nobody's elem is on two lists; the idle thread is on none. */
  ghost predicate Disciplined(s: State) {
    && (forall t | t in s.status :: s.status[t] == Running <==> t == s.cur)
    && (forall t | t in s.status && s.idleThread != Some(t) :: s.status[t] == Ready <==> multiset(s.ready)[t] == 1)
    && (forall t, x | t in s.ready && x in s.semas :: t !in s.semas[x].waiters)
    && (forall t, x, y | x in s.semas && y in s.semas && t in s.semas[x].waiters && t in s.semas[y].waiters :: x == y)
    && (forall t | t in s.ready :: t in s.status && s.idleThread != Some(t))
  }

  lemma ReachableDisciplined(initial: Tid, idler: Tid, started: SemaId, roundRobin: bool, actions: seq<Action>)
    requires initial != idler
    ensures var s := After(Boot(initial, idler, started, roundRobin), actions); s.Some? ==> Disciplined(s.value)
  {
    var s := After(Boot(initial, idler, started, roundRobin), actions);
    if s.Some? {
      InvDisciplined(s.value);
    }
  }

  lemma InvDisciplined(s: State)
    requires Inv(s)
    ensures Disciplined(s)
  {
    ListsDisjoint(s);
  }

  lemma ListsDisjoint(s: State)
    requires Inv(s)
    ensures forall t | t in s.status && s.idleThread != Some(t) :: s.status[t] == Ready <==> multiset(s.ready)[t] == 1
    ensures forall t, x | t in s.ready && x in s.semas :: t !in s.semas[x].waiters
    ensures forall t, x, y | x in s.semas && y in s.semas && t in s.semas[x].waiters && t in s.semas[y].waiters :: x == y
  {
    forall t | t in s.status && s.idleThread != Some(t) ensures s.status[t] == Ready <==> multiset(s.ready)[t] == 1 {
      DistinctMultiplicity(s.ready, t);
      assert t in s.ready <==> t in multiset(s.ready);
    }
    forall t, x | t in s.ready && x in s.semas ensures t !in s.semas[x].waiters {
      assert WaitList(s, x) && !BlockedOn(s, t, x);
    }
    forall t, x, y | x in s.semas && y in s.semas && t in s.semas[x].waiters && t in s.semas[y].waiters ensures x == y {
      assert WaitList(s, x) && WaitList(s, y) && BlockedOn(s, t, x) && BlockedOn(s, t, y);
    }
  }

  /** No wakeup is lost: whenever a semaphore is positive and threads still wait on it, some thread
      woken on it is ready or running and has yet to re-check. */
  lemma WakeupPending(s: State, x: SemaId)
    requires Inv(s) && x in s.semas && s.semas[x].value > 0 && s.semas[x].waiters != []
    ensures exists t | t in Woken(s, x) :: s.status[t] == Ready || s.status[t] == Running
  {
    assert NoLostWakeup(s, x);
    assert Woken(s, x) != {};
    var t :| t in Woken(s, x);
    assert WaitList(s, x) && !BlockedOn(s, t, x);
  }

  /** In every reachable state with threads waiting on a semaphore, the threads woken but not yet re-checked number at least
      its value. */
  lemma WokenCoverValue(initial: Tid, idler: Tid, started: SemaId, roundRobin: bool, actions: seq<Action>, x: SemaId)
    requires initial != idler
    ensures var s := After(Boot(initial, idler, started, roundRobin), actions);
            s.Some? && x in s.value.semas && s.value.semas[x].waiters != [] ==> s.value.semas[x].value <= |Woken(s.value, x)|
  {
    var s := After(Boot(initial, idler, started, roundRobin), actions);
    if s.Some? && x in s.value.semas {
      assert NoLostWakeup(s.value, x);
    }
  }

  // ----- conservation of a semaphore's units

  ghost function Ups(s: State, a: Action, x: SemaId): nat
    requires s.cur in s.at
  {
    match a
    case Up(y) => if y == x then 1 else 0
    case StartIdle => if s.at[s.cur] == IdleUp(x) then 1 else 0
    case Interrupt(_, ups, _) => multiset(ups)[x]
    case _ => 0
  }

  ghost function Downs(s: State, a: Action, x: SemaId): nat
    requires s.cur in s.at
  {
    if x !in s.semas || s.semas[x].value == 0 then 0
    else
      match a
      case Down(y) => if y == x then 1 else 0
      case TryDown(y) => if y == x then 1 else 0
      case Recheck => if s.at[s.cur] == InDown(x) then 1 else 0
      case _ => 0
  }

  lemma {:induction false} UppedAllValue(s: State, ups: seq<SemaId>, x: SemaId)
    requires Inv(s) && x in s.semas && forall y | y in ups :: y in s.semas
    ensures UppedAll(s, ups).semas[x].value == s.semas[x].value + multiset(ups)[x]
    decreases |ups|
  {
    hide Inv;
    if ups != [] {
      assert ups[0] in ups;
      UpKeeps(s, ups[0]);
      UppedAllValue(Upped(s, ups[0]), ups[1..], x);
      assert ups == [ups[0]] + ups[1..];
    }
  }

  lemma InterruptConserves(s: State, tick: bool, ups: seq<SemaId>, preempt: bool, x: SemaId)
    requires Inv(s) && x in s.semas && forall y | y in ups :: y in s.semas
    ensures var s' := Interrupted(s, tick, ups, preempt);
            x in s'.semas && s'.semas[x].value == s.semas[x].value + multiset(ups)[x]
  {
    hide Inv, UppedAll, TickCharged;
    var charged := if tick && s.roundRobin then TickCharged(s) else s;
    TickChargedKeeps(s);
    TickSemas(s);
    UppedAllValue(charged, ups, x);
    YieldSemas(UppedAll(charged, ups));
  }

  lemma TickSemas(s: State)
    requires s.cur in s.ticks
    ensures TickCharged(s).semas == s.semas && TickCharged(s).roundRobin == s.roundRobin
  {
  }

  lemma YieldSemas(s: State)
    requires Inv(s)
    ensures YieldCpu(s).semas == s.semas
  {
    hide Inv;
  }

  /** A thread step moves a unit of x only if it ups x or completes a down of x. */
  lemma StepConserves(s: State, a: Action, x: SemaId)
    requires Inv(s) && Enabled(s, a) && x in s.semas
    ensures x in Next(s, a).semas
    ensures Next(s, a).semas[x].value + Downs(s, a, x) == s.semas[x].value + Ups(s, a, x)
  {
    hide Inv, Interrupted, UppedAll, DownTurn, YieldCpu;
    match a {
      case Down(y) => DownTurnSemas(s, y, x);
      case Recheck => DownTurnSemas(s, s.at[s.cur].sema, x);
      case Yield => YieldSemas(s);
      case Interrupt(tick, ups, preempt) => InterruptConserves(s, tick, ups, preempt, x);
      case _ =>
    }
  }

  lemma DownTurnSemas(s: State, x: SemaId, y: SemaId)
    requires Inv(s) && x in s.semas && y in s.semas && (s.at[s.cur] == Own || s.at[s.cur] == InDown(x))
    ensures var s' := DownTurn(s, x);
            y in s'.semas && s'.semas[y].value == s.semas[y].value - (if y == x && s.semas[x].value > 0 then 1 else 0)
  {
    hide Inv;
  }

  ghost function TotalUps(s: State, actions: seq<Action>, x: SemaId): nat
    requires Inv(s) && After(s, actions).Some?
  {
    if actions == [] then 0
    else
      var k := |actions| - 1;
      TotalUps(s, actions[..k], x) + Ups(After(s, actions[..k]).value, actions[k], x)
  }

  ghost function TotalDowns(s: State, actions: seq<Action>, x: SemaId): nat
    requires Inv(s) && After(s, actions).Some?
  {
    if actions == [] then 0
    else
      var k := |actions| - 1;
      TotalDowns(s, actions[..k], x) + Downs(After(s, actions[..k]).value, actions[k], x)
  }

  /** In every interleaving, value plus completed downs equals initial value plus ups. */
  lemma {:induction false} SemaphoreConserves(s: State, actions: seq<Action>, x: SemaId)
    requires Inv(s) && x in s.semas && After(s, actions).Some?
    ensures x in After(s, actions).value.semas
    ensures After(s, actions).value.semas[x].value + TotalDowns(s, actions, x) == s.semas[x].value + TotalUps(s, actions, x)
  {
    hide Inv, Next, Enabled, Ups, Downs;
    if actions != [] {
      var k := |actions| - 1;
      SemaphoreConserves(s, actions[..k], x);
      StepConserves(After(s, actions[..k]).value, actions[k], x);
    }
  }
}
