/** The thread scheduler and its semaphores on one processor (threads/thread.c, threads/synch.c),
    as a machine whose atomic steps are the interrupts-off regions of the kernel and the timer
    interrupt.  A thread that blocks in sema_down keeps its place in that loop, and re-checks the
    semaphore's value when it is next chosen to run. */
module Scheduler {
  import opened Options
  import opened StableOrder
  import opened Threads

  type SemaId = nat

  datatype Status = Running | Ready | Blocked | Dying

  /** Where a thread is: in its own code, inside sema_down's loop after having blocked there, or at
      one of the three places of the idle thread's function. */
  datatype Place = Own | InDown(sema: SemaId) | IdleEntry(started: SemaId) | IdleUp(started: SemaId) | IdleLoop

  datatype State = State(
    status: map<Tid, Status>, at: map<Tid, Place>, ticks: map<Tid, nat>,
    ready: seq<Tid>, cur: Tid, semas: map<SemaId, Sema>,
    idleThread: Option<Tid>, idler: Tid, roundRobin: bool)

  // ----- the list and status discipline

  /** The ready list holds exactly the READY threads, once each, but never the idle thread. */
  ghost predicate ReadyList(s: State) {
    && Distinct(s.ready)
    && (forall t | t in s.ready :: t in s.status && s.status[t] == Ready && s.idleThread != Some(t))
    && (forall t | t in s.status :: s.status[t] == Ready && s.idleThread != Some(t) ==> t in s.ready)
  }

  ghost predicate BlockedOn(s: State, t: Tid, x: SemaId) {
    t in s.status && t in s.at && s.status[t] == Blocked && s.at[t] == InDown(x)
  }

  /** A semaphore's list holds exactly the threads blocked in sema_down on it, once each. */
  ghost predicate WaitList(s: State, x: SemaId)
    requires x in s.semas
  {
    Distinct(s.semas[x].waiters) && forall t :: t in s.semas[x].waiters <==> BlockedOn(s, t, x)
  }

  ghost predicate WaitLists(s: State) {
    && s.at.Keys == s.status.Keys
    && (forall x | x in s.semas :: WaitList(s, x))
    && (forall t | t in s.at && s.at[t].InDown? :: s.at[t].sema in s.semas && s.status[t] != Dying)
    && (forall t | t in s.status && s.status[t] == Blocked :: s.at[t].InDown? || t == s.idler)
  }

  /** The idle thread: it enters idle_thread's name once, and is never on a list after that. */
  ghost predicate IdleDiscipline(s: State) {
    && s.idler in s.status && s.idler in s.at && s.status[s.idler] != Dying
    && !s.at[s.idler].Own? && !s.at[s.idler].InDown?
    && (s.at[s.idler].IdleEntry? <==> s.idleThread.None?)
    && (s.idleThread.Some? ==> s.idleThread.value == s.idler)
    && (s.idleThread.None? ==> s.status[s.idler] != Blocked)
    && (s.at[s.idler].IdleEntry? || s.at[s.idler].IdleUp? ==> s.at[s.idler].started in s.semas)
    && (forall t | t in s.at && t != s.idler :: s.at[t].Own? || s.at[t].InDown?)
  }

  ghost predicate OneRunning(s: State) {
    && s.cur in s.status && s.status[s.cur] == Running
    && (forall t | t in s.status :: s.status[t] == Running ==> t == s.cur)
  }

  ghost predicate NoneRunning(s: State) {
    s.cur in s.status && forall t | t in s.status :: s.status[t] != Running
  }

  ghost predicate TicksBelowQuantum(s: State) {
    s.ticks.Keys == s.status.Keys && forall t | t in s.ticks :: s.ticks[t] < QUANTUM
  }

  /** Threads that were woken on x and have not yet re-checked its value. */
  ghost function Woken(s: State, x: SemaId): set<Tid>
    requires x in s.semas
  {
    set t | t in s.at && s.at[t] == InDown(x) && t !in s.semas[x].waiters
  }

  /** While threads wait on a semaphore, every unit of its value has a woken thread coming for it. */
  ghost predicate NoLostWakeup(s: State, x: SemaId)
    requires x in s.semas
  {
    s.semas[x].waiters != [] ==> s.semas[x].value <= |Woken(s, x)|
  }

  ghost predicate Wakeups(s: State) {
    forall x | x in s.semas :: NoLostWakeup(s, x)
  }

  ghost predicate Inv(s: State)
    ensures Inv(s) ==> s.at.Keys == s.status.Keys == s.ticks.Keys && s.cur in s.at
    ensures Inv(s) && s.at[s.cur].InDown? ==> s.at[s.cur].sema in s.semas
    ensures Inv(s) && s.at[s.cur].IdleUp? ==> s.at[s.cur].started in s.semas
  {
    ReadyList(s) && WaitLists(s) && IdleDiscipline(s) && TicksBelowQuantum(s) && Wakeups(s) && OneRunning(s)
  }

  /** The state inside schedule, after the running thread has been given another status. */
  ghost predicate Parked(s: State)
    ensures Parked(s) ==> s.cur in s.status && s.status[s.cur] != Running
  {
    ReadyList(s) && WaitLists(s) && IdleDiscipline(s) && TicksBelowQuantum(s) && Wakeups(s) && NoneRunning(s)
  }

  // ----- the kernel's operations on states

  /** thread_unblock; the status is its assertion. */
  function Unblocked(s: State, t: Tid): State
    requires t in s.status && s.status[t] == Blocked
  {
    s.(ready := s.ready + [t], status := s.status[t := Ready])
  }

  /** schedule with next_thread_to_run; there must be a thread to run. */
  function Dispatched(s: State): State
    requires s.cur in s.status && s.status[s.cur] != Running
    requires s.ready != [] || s.idleThread.Some?
  {
    if s.ready == [] then
      var next := s.idleThread.value;
      s.(cur := next, status := s.status[next := Running])
    else
      var next := s.ready[0];
      s.(cur := next, ready := s.ready[1..], status := s.status[next := Running])
  }

  /** What thread_block, thread_yield and thread_exit do before they call schedule. */
  function CurBlocked(s: State): State { s.(status := s.status[s.cur := Blocked]) }

  function CurYielding(s: State): State {
    s.(status := s.status[s.cur := Ready], ready := if s.idleThread == Some(s.cur) then s.ready else s.ready + [s.cur])
  }

  function CurDying(s: State): State { s.(status := s.status[s.cur := Dying]) }

  /** sema_up. */
  function Upped(s: State, x: SemaId): State
    requires x in s.semas
    requires s.semas[x].waiters != [] ==> s.semas[x].waiters[0] in s.status && s.status[s.semas[x].waiters[0]] == Blocked
  {
    var m := s.semas[x];
    if m.waiters == [] then s.(semas := s.semas[x := Sema(m.value + 1, [])])
    else Unblocked(s, m.waiters[0]).(semas := s.semas[x := Sema(m.value + 1, m.waiters[1..])])
  }

  /** A unit of a positive semaphore is taken. */
  function Decremented(s: State, x: SemaId): State
    requires x in s.semas && s.semas[x].value > 0
  {
    s.(semas := s.semas[x := s.semas[x].(value := s.semas[x].value - 1)])
  }

  /** The running thread leaves sema_down. */
  function PastDown(s: State): State { s.(at := s.at[s.cur := Own]) }

  /** The running thread queues itself on a semaphore whose value is 0. */
  function Queued(s: State, x: SemaId): State
    requires x in s.semas
  {
    s.(semas := s.semas[x := s.semas[x].(waiters := s.semas[x].waiters + [s.cur])], at := s.at[s.cur := InDown(x)])
  }

  /** thread_create: a new thread, made ready. */
  function Created(s: State, t: Tid): State {
    s.(status := s.status[t := Ready], at := s.at[t := Own], ticks := s.ticks[t := 0], ready := s.ready + [t])
  }

  // ----- each operation keeps the discipline

  lemma NextExists(s: State)
    requires Parked(s)
    ensures s.ready != [] || s.idleThread.Some?
  {
    if s.idleThread.None? {
      assert s.status[s.idler] == Ready;
      assert s.idler in s.ready;
    }
  }

  lemma SameWoken(s: State, s': State, x: SemaId)
    requires x in s.semas && x in s'.semas && s.semas[x].waiters == s'.semas[x].waiters
    requires s.at.Keys == s'.at.Keys && forall t | t in s.at :: s.at[t] == InDown(x) <==> s'.at[t] == InDown(x)
    ensures Woken(s, x) == Woken(s', x)
  {
  }

  /** Wakeups survive anything that only moves threads between statuses and the ready list. */
  lemma SameWakeups(s: State, s': State)
    requires Wakeups(s) && s'.at == s.at && s'.semas == s.semas
    ensures Wakeups(s')
  {
    forall x | x in s'.semas ensures NoLostWakeup(s', x) {
      assert NoLostWakeup(s, x);
      SameWoken(s, s', x);
    }
  }

  lemma SameWaitList(s: State, s': State, x: SemaId)
    requires x in s.semas && x in s'.semas && s.semas[x].waiters == s'.semas[x].waiters && WaitList(s, x)
    requires forall t :: BlockedOn(s, t, x) <==> BlockedOn(s', t, x)
    ensures WaitList(s', x)
  {
  }

  /** Wait lists survive anything that blocks and unblocks only threads outside sema_down. */
  lemma SameWaitLists(s: State, s': State)
    requires WaitLists(s) && s'.at == s.at && s'.semas == s.semas && s'.idler == s.idler && s'.status.Keys == s.status.Keys
    requires forall t | t in s.status && s.at[t].InDown? :: s'.status[t] != Dying && (s.status[t] == Blocked <==> s'.status[t] == Blocked)
    requires forall t | t in s.status && !s.at[t].InDown? :: s'.status[t] == Blocked ==> t == s.idler
    ensures WaitLists(s')
  {
    hide WaitList;
    forall x | x in s'.semas ensures WaitList(s', x) {
      SameWaitList(s, s', x);
    }
  }

  lemma DispatchReady(s: State)
    requires ReadyList(s) && IdleDiscipline(s) && NoneRunning(s) && (s.ready != [] || s.idleThread.Some?)
    ensures ReadyList(Dispatched(s)) && IdleDiscipline(Dispatched(s)) && OneRunning(Dispatched(s))
    ensures Dispatched(s).status.Keys == s.status.Keys
  {
    var s' := Dispatched(s);
    if s.ready != [] {
      assert s'.cur == s.ready[0];
      assert forall t :: t in s.ready <==> t == s'.cur || t in s'.ready;
    }
  }

  /** The idle thread is blocked outside every list, so running it empties none. */
  lemma DispatchWaits(s: State)
    requires ReadyList(s) && WaitLists(s) && IdleDiscipline(s) && NoneRunning(s) && (s.ready != [] || s.idleThread.Some?)
    ensures WaitLists(Dispatched(s))
  {
    hide WaitList;
    SameWaitLists(s, Dispatched(s));
  }

  /** schedule always finds a thread, and exactly that one is running afterwards. */
  lemma DispatchKeeps(s: State)
    requires Parked(s)
    ensures s.ready != [] || s.idleThread.Some?
    ensures Inv(Dispatched(s))
  {
    hide ReadyList, WaitLists, IdleDiscipline, Wakeups, WaitList;
    NextExists(s);
    DispatchReady(s);
    DispatchWaits(s);
    SameWakeups(s, Dispatched(s));
  }

  lemma YieldReady(s: State)
    requires ReadyList(s) && IdleDiscipline(s) && OneRunning(s)
    ensures ReadyList(CurYielding(s)) && IdleDiscipline(CurYielding(s)) && NoneRunning(CurYielding(s))
  {
  }

  lemma YieldKeeps(s: State)
    requires Inv(s)
    ensures Parked(CurYielding(s))
  {
    hide ReadyList, WaitList, IdleDiscipline, Wakeups;
    YieldReady(s);
    SameWaitLists(s, CurYielding(s));
    SameWakeups(s, CurYielding(s));
  }

  lemma ExitReady(s: State)
    requires ReadyList(s) && IdleDiscipline(s) && OneRunning(s) && s.cur in s.at && s.at[s.cur] == Own
    ensures ReadyList(CurDying(s)) && IdleDiscipline(CurDying(s)) && NoneRunning(CurDying(s))
  {
  }

  lemma ExitKeeps(s: State)
    requires Inv(s) && s.at[s.cur] == Own
    ensures Parked(CurDying(s))
  {
    hide ReadyList, IdleDiscipline, Wakeups;
    ExitReady(s);
    SameWaitLists(s, CurDying(s));
    SameWakeups(s, CurDying(s));
  }

  lemma IdleBlockReady(s: State)
    requires ReadyList(s) && IdleDiscipline(s) && OneRunning(s) && s.cur in s.at && s.at[s.cur] == IdleLoop
    ensures ReadyList(CurBlocked(s)) && IdleDiscipline(CurBlocked(s)) && NoneRunning(CurBlocked(s))
  {
  }

  lemma IdleBlockWaits(s: State)
    requires WaitLists(s) && IdleDiscipline(s) && OneRunning(s) && s.at[s.cur] == IdleLoop
    ensures WaitLists(CurBlocked(s))
  {
    hide WaitList;
    SameWaitLists(s, CurBlocked(s));
  }

  lemma IdleBlockKeeps(s: State)
    requires Inv(s) && s.at[s.cur] == IdleLoop
    ensures Parked(CurBlocked(s))
  {
    hide ReadyList, IdleDiscipline, Wakeups;
    IdleBlockReady(s);
    IdleBlockWaits(s);
    SameWakeups(s, CurBlocked(s));
  }

  lemma CreateReady(s: State, t: Tid)
    requires ReadyList(s) && IdleDiscipline(s) && OneRunning(s) && t !in s.status
    ensures ReadyList(Created(s, t)) && IdleDiscipline(Created(s, t)) && OneRunning(Created(s, t))
  {
  }

  lemma CreateWaits(s: State, t: Tid)
    requires WaitLists(s) && t !in s.status
    ensures WaitLists(Created(s, t))
  {
    hide WaitList;
    var s' := Created(s, t);
    forall x | x in s'.semas ensures WaitList(s', x) {
      SameWaitList(s, s', x);
    }
  }

  lemma CreateWakeups(s: State, t: Tid)
    requires Wakeups(s) && t !in s.at
    ensures Wakeups(Created(s, t))
  {
    var s' := Created(s, t);
    forall x | x in s'.semas ensures NoLostWakeup(s', x) {
      assert NoLostWakeup(s, x);
      assert Woken(s, x) == Woken(s', x);
    }
  }

  lemma CreateKeeps(s: State, t: Tid)
    requires Inv(s) && t !in s.status
    ensures Inv(Created(s, t))
  {
    hide ReadyList, IdleDiscipline, Wakeups;
    CreateReady(s, t);
    CreateWaits(s, t);
    CreateWakeups(s, t);
  }

  // ----- semaphores

  lemma UpReady(s: State, x: SemaId)
    requires ReadyList(s) && IdleDiscipline(s) && OneRunning(s) && WaitLists(s) && x in s.semas
    ensures s.semas[x].waiters != [] ==> s.semas[x].waiters[0] in s.status && s.status[s.semas[x].waiters[0]] == Blocked
    ensures ReadyList(Upped(s, x)) && IdleDiscipline(Upped(s, x)) && OneRunning(Upped(s, x))
  {
    var m := s.semas[x];
    if m.waiters != [] {
      var w := m.waiters[0];
      assert WaitList(s, x) && w in m.waiters && BlockedOn(s, w, x) && w !in s.ready;
    }
  }

  /** The front waiter leaves the list as it stops being blocked. */
  lemma UpWaitsOn(s: State, x: SemaId)
    requires x in s.semas && WaitList(s, x) && s.semas[x].waiters != []
    requires s.semas[x].waiters[0] in s.status && s.status[s.semas[x].waiters[0]] == Blocked
    ensures WaitList(Upped(s, x), x)
  {
    var ws := s.semas[x].waiters;
    var s' := Upped(s, x);
    forall t ensures t in ws[1..] <==> BlockedOn(s', t, x) {
      assert t in ws <==> t == ws[0] || t in ws[1..];
      assert t in ws <==> BlockedOn(s, t, x);
    }
  }

  lemma UpWaits(s: State, x: SemaId)
    requires WaitLists(s) && x in s.semas
    requires s.semas[x].waiters != [] ==> s.semas[x].waiters[0] in s.status && s.status[s.semas[x].waiters[0]] == Blocked
    ensures WaitLists(Upped(s, x))
  {
    assert WaitList(s, x);
    var ws := s.semas[x].waiters;
    assert ws != [] ==> BlockedOn(s, ws[0], x);
    hide WaitList;
    var s' := Upped(s, x);
    forall y | y in s'.semas ensures WaitList(s', y) {
      if y == x && ws != [] {
        UpWaitsOn(s, x);
      } else {
        SameWaitList(s, s', y);
      }
    }
  }

  /** An up adds one to the value and, if anyone waits, one to the woken. */
  lemma UpWakeups(s: State, x: SemaId)
    requires Wakeups(s) && WaitLists(s) && x in s.semas
    requires s.semas[x].waiters != [] ==> s.semas[x].waiters[0] in s.status && s.status[s.semas[x].waiters[0]] == Blocked
    ensures Wakeups(Upped(s, x))
  {
    var s' := Upped(s, x);
    var m := s.semas[x];
    forall y | y in s'.semas ensures NoLostWakeup(s', y) {
      assert NoLostWakeup(s, y);
      if y != x {
        SameWoken(s, s', y);
      } else if m.waiters != [] {
        var w := m.waiters[0];
        assert WaitList(s, x) && w in m.waiters && BlockedOn(s, w, x);
        assert Woken(s', x) == Woken(s, x) + {w};
      }
    }
  }

  /** sema_up never finds its front waiter in any state but BLOCKED. */
  lemma UpKeeps(s: State, x: SemaId)
    requires Inv(s) && x in s.semas
    ensures s.semas[x].waiters != [] ==> s.semas[x].waiters[0] in s.status && s.status[s.semas[x].waiters[0]] == Blocked
    ensures Inv(Upped(s, x))
  {
    hide ReadyList, WaitLists, IdleDiscipline, Wakeups, OneRunning;
    UpReady(s, x);
    UpWaits(s, x);
    UpWakeups(s, x);
  }

  /** What one thread does to a semaphore: take a unit of it ... */
  lemma DecrementKeeps(s: State, x: SemaId)
    requires Inv(s) && x in s.semas && s.semas[x].value > 0
    ensures Inv(Decremented(s, x))
  {
    var s' := Decremented(s, x);
    forall y | y in s'.semas ensures NoLostWakeup(s', y) && WaitList(s', y) {
      assert NoLostWakeup(s, y) && WaitList(s, y);
      SameWoken(s, s', y);
      SameWaitList(s, s', y);
    }
  }

  lemma PastDownWakeups(s: State, x: SemaId)
    requires Wakeups(s) && WaitLists(s) && OneRunning(s) && x in s.semas && s.semas[x].value > 0
    requires s.at[s.cur] == Own || s.at[s.cur] == InDown(x)
    ensures Wakeups(PastDown(Decremented(s, x)))
  {
    var s' := PastDown(Decremented(s, x));
    forall y | y in s'.semas ensures NoLostWakeup(s', y) {
      assert NoLostWakeup(s, y);
      if y == x && s.at[s.cur] == InDown(x) {
        assert WaitList(s, x) && !BlockedOn(s, s.cur, x);
        assert Woken(s', x) == Woken(s, x) - {s.cur} && s.cur in Woken(s, x);
      } else {
        SameWoken(s, s', y);
      }
    }
  }

  lemma PastDownWaits(s: State, x: SemaId)
    requires WaitLists(s) && OneRunning(s) && x in s.semas && s.semas[x].value > 0
    ensures WaitLists(PastDown(Decremented(s, x)))
  {
    hide WaitList;
    var s' := PastDown(Decremented(s, x));
    forall y | y in s'.semas ensures WaitList(s', y) {
      SameWaitList(s, s', y);
    }
  }

  lemma PastDownReady(s: State, x: SemaId)
    requires ReadyList(s) && IdleDiscipline(s) && OneRunning(s) && x in s.semas && s.semas[x].value > 0
    requires s.cur in s.at && (s.at[s.cur] == Own || s.at[s.cur] == InDown(x))
    ensures var s' := PastDown(Decremented(s, x)); ReadyList(s') && IdleDiscipline(s') && OneRunning(s')
  {
  }

  /** ... and leave sema_down with it: a woken thread that takes its unit is no longer owed one ... */
  lemma TakeKeeps(s: State, x: SemaId)
    requires Inv(s) && x in s.semas && s.semas[x].value > 0
    requires s.at[s.cur] == Own || s.at[s.cur] == InDown(x)
    ensures Inv(PastDown(Decremented(s, x)))
  {
    assert s.cur in s.at;
    hide ReadyList, WaitLists, IdleDiscipline, Wakeups, OneRunning;
    PastDownWakeups(s, x);
    PastDownWaits(s, x);
    PastDownReady(s, x);
  }

  lemma QueueWaits(s: State, x: SemaId)
    requires WaitLists(s) && OneRunning(s) && x in s.semas && (s.at[s.cur] == Own || s.at[s.cur] == InDown(x))
    ensures WaitLists(CurBlocked(Queued(s, x)))
  {
    var s' := CurBlocked(Queued(s, x));
    assert WaitList(s, x);
    var ws := s.semas[x].waiters;
    assert s.cur !in ws by { assert !BlockedOn(s, s.cur, x); }
    forall y | y in s'.semas ensures WaitList(s', y) {
      if y == x {
        forall t ensures t in ws + [s.cur] <==> BlockedOn(s', t, x) {
          assert t in ws <==> BlockedOn(s, t, x);
        }
      } else {
        SameWaitList(s, s', y);
      }
    }
  }

  lemma QueueWakeups(s: State, x: SemaId)
    requires Wakeups(s) && x in s.semas && s.semas[x].value == 0 && s.cur in s.at
    requires s.at[s.cur] == Own || s.at[s.cur] == InDown(x)
    ensures Wakeups(CurBlocked(Queued(s, x)))
  {
    var s' := CurBlocked(Queued(s, x));
    forall y | y in s'.semas ensures NoLostWakeup(s', y) {
      assert NoLostWakeup(s, y);
      if y != x {
        SameWoken(s, s', y);
      }
    }
  }

  lemma QueueReady(s: State, x: SemaId)
    requires ReadyList(s) && IdleDiscipline(s) && OneRunning(s) && x in s.semas
    requires s.cur in s.at && (s.at[s.cur] == Own || s.at[s.cur] == InDown(x))
    ensures var s' := CurBlocked(Queued(s, x)); ReadyList(s') && IdleDiscipline(s') && NoneRunning(s')
    ensures CurBlocked(Queued(s, x)).status.Keys == s.status.Keys
  {
  }

  /** ... or queue on it when the value is 0, for the first time or, having lost the race, again. */
  lemma QueueKeeps(s: State, x: SemaId)
    requires Inv(s) && x in s.semas && s.semas[x].value == 0
    requires s.at[s.cur] == Own || s.at[s.cur] == InDown(x)
    ensures Parked(CurBlocked(Queued(s, x)))
  {
    assert s.cur in s.at;
    hide ReadyList, WaitLists, IdleDiscipline, Wakeups, OneRunning;
    QueueWaits(s, x);
    QueueWakeups(s, x);
    QueueReady(s, x);
  }

  lemma NewSemaKeeps(s: State, x: SemaId, value: nat)
    requires Inv(s) && x !in s.semas
    ensures Inv(s.(semas := s.semas[x := Sema(value, [])]))
  {
    var s' := s.(semas := s.semas[x := Sema(value, [])]);
    forall y | y in s'.semas ensures WaitList(s', y) && NoLostWakeup(s', y) {
      if y != x {
        assert WaitList(s, y) && NoLostWakeup(s, y);
        SameWaitList(s, s', y);
        SameWoken(s, s', y);
      } else {
        assert forall t :: !BlockedOn(s', t, x);
      }
    }
  }

  // ----- the idle thread

  function IdleEntered(s: State): State
    requires s.cur in s.at && s.at[s.cur].IdleEntry?
  {
    s.(idleThread := Some(s.cur), at := s.at[s.cur := IdleUp(s.at[s.cur].started)])
  }

  /** Only the idle thread's place, and idle_thread itself, have changed. */
  lemma IdleMoved(s: State, s': State)
    requires Inv(s) && s.cur == s.idler && s.cur in s'.at
    requires s' == s.(at := s.at[s.cur := s'.at[s.cur]], idleThread := Some(s.cur))
    requires (s'.at[s.cur].IdleLoop? || (s'.at[s.cur].IdleUp? && s'.at[s.cur].started in s.semas))
    ensures Inv(s')
  {
    assert s.cur !in s.ready;
    forall x | x in s'.semas ensures WaitList(s', x) && NoLostWakeup(s', x) {
      assert WaitList(s, x) && NoLostWakeup(s, x);
      SameWoken(s, s', x);
      SameWaitList(s, s', x);
    }
  }

  // ----- the timer

  /** thread_tick under round robin: one more tick for the running thread. */
  function TickCharged(s: State): State
    requires s.cur in s.ticks
  {
    var n := s.ticks[s.cur] + 1;
    s.(ticks := s.ticks[s.cur := if n >= QUANTUM then 0 else n])
  }

  lemma TickChargedKeeps(s: State)
    requires Inv(s)
    ensures Inv(TickCharged(s))
  {
    hide ReadyList, WaitLists, IdleDiscipline;
    SameWakeups(s, TickCharged(s));
    TickChargedLists(s);
  }

  lemma TickChargedLists(s: State)
    requires ReadyList(s) && WaitLists(s) && IdleDiscipline(s) && s.cur in s.ticks
    ensures var s' := TickCharged(s); ReadyList(s') && WaitLists(s') && IdleDiscipline(s')
  {
    SameWaitLists(s, TickCharged(s));
  }

  /** The policies that sort the ready list only permute it. */
  lemma SortKeeps(s: State, order: seq<Tid>)
    requires Inv(s) && multiset(order) == multiset(s.ready)
    ensures Inv(s.(ready := order))
  {
    var s' := s.(ready := order);
    MultisetElements(s.ready, order);
    MultisetDistinct(s.ready, order);
    SameWaitLists(s, s');
    SameWakeups(s, s');
  }
}
