/** Locks and condition variables (threads/synch.c): one lock, any number of condition variables
    protected by it, any number of threads, every interleaving of the interrupts-off regions and of
    the plain statements between them. */
module Monitor {
  import opened Options
  import opened StableOrder
  import opened Threads

  type Cond = nat

  /** Why the lock is being acquired, and what follows its release. */
  datatype Purpose = Plain | ForWait(c: Cond)

  /** Where a thread is with respect to the lock. */
  datatype Place =
    | Own                               // own code, without the lock
    | Acquiring(why: Purpose)           // in lock_acquire's sema_down, having blocked there
    | Acquired(why: Purpose)            // past that sema_down, holder not yet set
    | Holding                           // own code, with the lock
    | Enqueued(c: Cond)                 // in cond_wait, queued on c, lock not yet released
    | Releasing(why: Purpose)           // holder cleared, lock's sema_up not yet done
    | Sleeping(c: Cond)                 // in cond_wait's sema_down on its own semaphore
    | Awake(c: Cond)                    // past it, about to reacquire the lock
    | Signalling(w: Tid, all: bool, c: Cond)  // in cond_signal, w taken off c, its sema_up not yet done
    | Broadcasting(c: Cond)             // in cond_broadcast, between two signals

  /** holder and semaphore of the lock, the waiters of each condition variable, and the semaphore of
      each waiting thread's waiter record. */
  datatype State = State(holder: Option<Tid>, lock: Sema, conds: map<Cond, seq<Tid>>, own: map<Tid, Sema>, at: map<Tid, Place>)

  /** Between passing the lock's sema_down and finishing its sema_up. */
  predicate InsideAt(p: Place) {
    p.Acquired? || p.Holding? || p.Enqueued? || p.Releasing? || p.Signalling? || p.Broadcasting?
  }

  /** The part of that in which holder names the thread. */
  predicate HoldsAt(p: Place) {
    p.Holding? || p.Enqueued? || p.Signalling? || p.Broadcasting?
  }

  /** In cond_wait, from joining a queue to being past the waiter's own semaphore, and on which variable. */
  predicate Waiting(p: Place) {
    p.Enqueued? || p.Sleeping? || (p.Releasing? && p.why.ForWait?)
  }

  function CondOf(p: Place): Cond
    requires Waiting(p)
  {
    if p.Releasing? then p.why.c else p.c
  }

  datatype Move = Acquire | TryAcquire | Recheck | SetHolder | ClearHolder | UpLock
                | Wait(c: Cond) | SleepTurn | Reacquire | Signal(c: Cond) | UpWaiter | Broadcast(c: Cond) | Continue

  /** Which move a thread can make next.  A thread on a semaphore's list is blocked. */
  predicate Enabled(s: State, t: Tid, m: Move) {
    t in s.at &&
    match m
    case Acquire => s.at[t].Own?
    case TryAcquire => s.at[t].Own?
    case Recheck => s.at[t].Acquiring? && t !in s.lock.waiters
    case SetHolder => s.at[t].Acquired?
    case ClearHolder => s.at[t].Holding? || s.at[t].Enqueued?
    case UpLock => s.at[t].Releasing?
    case Wait(c) => s.at[t].Holding? && c in s.conds
    case SleepTurn => s.at[t].Sleeping? && t in s.own && t !in s.own[t].waiters
    case Reacquire => s.at[t].Awake?
    case Signal(c) => s.at[t].Holding? && c in s.conds
    case UpWaiter => s.at[t].Signalling? && s.at[t].w in s.own
    case Broadcast(c) => s.at[t].Holding? && c in s.conds
    case Continue => s.at[t].Broadcasting? && s.at[t].c in s.conds
  }

  function Moved(s: State, t: Tid, p: Place): State { s.(at := s.at[t := p]) }

  /** One turn of sema_down on the lock. */
  function LockTurn(s: State, t: Tid, why: Purpose): State {
    if s.lock.value == 0 then Moved(s, t, Acquiring(why)).(lock := s.lock.(waiters := s.lock.waiters + [t]))
    else Moved(s, t, Acquired(why)).(lock := s.lock.(value := s.lock.value - 1))
  }

  /** sema_up: the front waiter stops being blocked, and the value goes up. */
  function Upped(m: Sema): Sema {
    Sema(m.value + 1, if m.waiters == [] then [] else m.waiters[1..])
  }

  /** Take the front waiter of c off its queue. */
  function Popped(s: State, t: Tid, c: Cond, all: bool): State
    requires c in s.conds
  {
    if s.conds[c] == [] then Moved(s, t, Holding)
    else Moved(s, t, Signalling(s.conds[c][0], all, c)).(conds := s.conds[c := s.conds[c][1..]])
  }

  function Next(s: State, t: Tid, m: Move): State
    requires Enabled(s, t, m)
  {
    match m
    case Acquire => LockTurn(s, t, Plain)
    case TryAcquire => if s.lock.value == 0 then s else LockTurn(s, t, Plain)
    case Recheck => LockTurn(s, t, s.at[t].why)
    case SetHolder => Moved(s, t, Holding).(holder := Some(t))
    case ClearHolder =>
      Moved(s, t, Releasing(if s.at[t].Holding? then Plain else ForWait(s.at[t].c))).(holder := None)
    case UpLock =>
      Moved(s, t, if s.at[t].why.Plain? then Own else Sleeping(s.at[t].why.c)).(lock := Upped(s.lock))
    case Wait(c) =>
      Moved(s, t, Enqueued(c)).(own := s.own[t := Sema(0, [])], conds := s.conds[c := s.conds[c] + [t]])
    case SleepTurn =>
      var m := s.own[t];
      if m.value == 0 then s.(own := s.own[t := m.(waiters := m.waiters + [t])])
      else Moved(s, t, Awake(s.at[t].c)).(own := s.own[t := m.(value := m.value - 1)])
    case Reacquire => LockTurn(s, t, ForWait(s.at[t].c))
    case Signal(c) => Popped(s, t, c, false)
    case UpWaiter =>
      var p := s.at[t];
      Moved(s, t, if p.all then Broadcasting(p.c) else Holding).(own := s.own[p.w := Upped(s.own[p.w])])
    case Broadcast(c) => Moved(s, t, Broadcasting(c))
    case Continue => Popped(s, t, s.at[t].c, true)
  }

  // ----- invariants

  ghost function Inside(s: State): set<Tid> {
    set t | t in s.at && InsideAt(s.at[t])
  }

  /** The lock's value plus the threads inside is one: mutual exclusion. */
  ghost predicate Exclusion(s: State) {
    s.lock.value + |Inside(s)| == 1
  }

  ghost predicate HolderIsInside(s: State) {
    forall t :: s.holder == Some(t) <==> t in s.at && HoldsAt(s.at[t])
  }

  ghost predicate LockWaiters(s: State) {
    Distinct(s.lock.waiters) && forall t | t in s.lock.waiters :: t in s.at && s.at[t].Acquiring?
  }

  ghost predicate BeingSignalled(s: State, t: Tid) {
    exists u | u in s.at :: s.at[u].Signalling? && s.at[u].w == t
  }

  /** A thread in cond_wait: not yet signalled and still queued; or signalled, its semaphore 1 and
      nobody asleep on it; or taken off the queue by a signaller that has yet to up its semaphore. */
  ghost predicate WaiterOk(s: State, t: Tid)
    requires t in s.at && Waiting(s.at[t])
  {
    var c := CondOf(s.at[t]);
    c in s.conds && t in s.own &&
    var m := s.own[t];
    && (m.waiters == [] || (m.waiters == [t] && m.value == 0 && s.at[t].Sleeping?))
    && (m.value == 0 || m.value == 1)
    && (t in s.conds[c] <==> m.value == 0 && !BeingSignalled(s, t))
    && (m.value == 1 ==> !BeingSignalled(s, t))
  }

  ghost predicate Queues(s: State) {
    && (forall c | c in s.conds :: Distinct(s.conds[c]))
    && (forall c, t | c in s.conds && t in s.conds[c] :: t in s.at && Waiting(s.at[t]) && CondOf(s.at[t]) == c)
  }

  ghost predicate Waiters(s: State) {
    forall t | t in s.at && Waiting(s.at[t]) :: WaiterOk(s, t)
  }

  /** A signaller's target is asleep in cond_wait, past its release of the lock, so the record the
      signaller is about to use still exists. */
  ghost predicate Signallers(s: State) {
    && (forall u | u in s.at && s.at[u].Signalling? :: s.at[u].c in s.conds && s.at[u].w in s.at && s.at[s.at[u].w] == Sleeping(s.at[u].c))
    && (forall u | u in s.at && s.at[u].Broadcasting? :: s.at[u].c in s.conds)
  }

  ghost predicate Inv(s: State) {
    Exclusion(s) && HolderIsInside(s) && LockWaiters(s) && Queues(s) && Waiters(s) && Signallers(s)
  }

  // ----- mutual exclusion

  lemma OnlyInside(s: State, t: Tid)
    requires Exclusion(s) && t in s.at && InsideAt(s.at[t])
    ensures s.lock.value == 0 && forall u | u in s.at && InsideAt(s.at[u]) :: u == t
  {
    assert t in Inside(s) && |Inside(s) - {t}| == |Inside(s)| - 1;
    assert Inside(s) == {t};
    assert forall u | u in s.at && InsideAt(s.at[u]) :: u in Inside(s);
  }

  /** t moves to p, the lock's value changes accordingly. */
  lemma ExclusionMoved(s: State, s': State, t: Tid, p: Place)
    requires Exclusion(s) && t in s.at && s'.at == s.at[t := p]
    requires s'.lock.value == s.lock.value + (if InsideAt(s.at[t]) then 1 else 0) - (if InsideAt(p) then 1 else 0)
    ensures Exclusion(s')
  {
    if InsideAt(s.at[t]) == InsideAt(p) {
      assert Inside(s') == Inside(s);
    } else if InsideAt(p) {
      assert Inside(s') == Inside(s) + {t} && t !in Inside(s);
    } else {
      assert Inside(s') == Inside(s) - {t} && t in Inside(s);
    }
  }

  lemma NextExclusion(s: State, t: Tid, m: Move)
    requires Exclusion(s) && Enabled(s, t, m)
    ensures Exclusion(Next(s, t, m))
  {
    hide Exclusion;
    var s' := Next(s, t, m);
    if s'.at == s.at {
      ExclusionSame(s, s');
    } else {
      ExclusionMoved(s, s', t, s'.at[t]);
    }
  }

  lemma ExclusionSame(s: State, s': State)
    requires Exclusion(s) && s'.at == s.at && s'.lock.value == s.lock.value
    ensures Exclusion(s')
  {
    assert Inside(s') == Inside(s);
  }

  lemma NextHolder(s: State, t: Tid, m: Move)
    requires Exclusion(s) && HolderIsInside(s) && Enabled(s, t, m)
    ensures HolderIsInside(Next(s, t, m))
  {
    if InsideAt(s.at[t]) {
      OnlyInside(s, t);
    }
    hide Exclusion;
    var s' := Next(s, t, m);
    forall u ensures s'.holder == Some(u) <==> u in s'.at && HoldsAt(s'.at[u]) {
      assert s.holder == Some(u) <==> u in s.at && HoldsAt(s.at[u]);
      assert s.holder == Some(t) <==> t in s.at && HoldsAt(s.at[t]);
    }
  }

  lemma NextLockWaiters(s: State, t: Tid, m: Move)
    requires LockWaiters(s) && Enabled(s, t, m)
    ensures LockWaiters(Next(s, t, m))
  {
    var s' := Next(s, t, m);
    if s.at[t].Acquiring? {
      assert m.Recheck?;
    } else {
      assert t !in s.lock.waiters;
    }
  }

  // ----- condition variables

  lemma SameSignals(s: State, s': State, t: Tid, p: Place, u: Tid)
    requires t in s.at && s'.at == s.at[t := p] && !s.at[t].Signalling? && !p.Signalling?
    ensures BeingSignalled(s', u) <==> BeingSignalled(s, u)
  {
    if BeingSignalled(s, u) {
      var v :| v in s.at && s.at[v].Signalling? && s.at[v].w == u;
      assert v in s'.at && s'.at[v] == s.at[v];
    }
    if BeingSignalled(s', u) {
      var v :| v in s'.at && s'.at[v].Signalling? && s'.at[v].w == u;
      assert v in s.at && s'.at[v] == s.at[v];
    }
  }

  /** Same place in cond_wait, same queue, same semaphore, same signals. */
  lemma SameWaiter(s: State, s': State, u: Tid)
    requires u in s.at && u in s'.at && Waiting(s.at[u]) && WaiterOk(s, u)
    requires Waiting(s'.at[u]) && CondOf(s'.at[u]) == CondOf(s.at[u]) && (s.at[u].Sleeping? ==> s'.at[u].Sleeping?)
    requires s'.conds.Keys == s.conds.Keys && u in s'.own && s'.own[u] == s.own[u]
    requires u in s'.conds[CondOf(s.at[u])] <==> u in s.conds[CondOf(s.at[u])]
    requires BeingSignalled(s', u) <==> BeingSignalled(s, u)
    ensures WaiterOk(s', u)
  {
  }

  /** t moves to a place of the same kind, and no queue or waiter semaphore changes. */
  lemma WaitersFrame(s: State, s': State, t: Tid, p: Place)
    requires Waiters(s) && Queues(s) && t in s.at && s'.at == s.at[t := p] && s'.conds == s.conds && s'.own == s.own
    requires !s.at[t].Signalling? && !p.Signalling?
    requires Waiting(s.at[t]) == Waiting(p) && (Waiting(p) ==> CondOf(p) == CondOf(s.at[t]))
    requires s.at[t].Sleeping? ==> p.Sleeping?
    ensures Waiters(s') && Queues(s')
  {
    hide WaiterOk, BeingSignalled;
    forall u | u in s'.at && Waiting(s'.at[u]) ensures WaiterOk(s', u) {
      assert WaiterOk(s, u);
      WaiterFacts(s, u);
      SameSignals(s, s', t, p, u);
      SameWaiter(s, s', u);
    }
  }

  lemma WaiterFacts(s: State, t: Tid)
    requires t in s.at && Waiting(s.at[t]) && WaiterOk(s, t)
    ensures CondOf(s.at[t]) in s.conds && t in s.own
  {
  }

  lemma SignallersFrame(s: State, s': State, t: Tid, p: Place)
    requires Signallers(s) && t in s.at && s'.at == s.at[t := p] && s'.conds.Keys == s.conds.Keys
    requires s.at[t].Sleeping? ==> p == s.at[t]
    requires !p.Signalling? && (p.Broadcasting? ==> p.c in s.conds)
    ensures Signallers(s')
  {
  }

  /** While some thread holds the lock and is not itself signalling, nobody is being signalled. */
  lemma NobodySignalled(s: State, t: Tid, u: Tid)
    requires Exclusion(s) && t in s.at && InsideAt(s.at[t]) && !s.at[t].Signalling?
    ensures !BeingSignalled(s, u)
  {
    OnlyInside(s, t);
  }

  /** cond_wait joins the queue with a fresh semaphore; it holds the lock, so nobody is signalling. */
  lemma WaitWaiters(s: State, t: Tid, c: Cond)
    requires Inv(s) && Enabled(s, t, Wait(c))
    ensures var s' := Next(s, t, Wait(c)); Waiters(s') && Queues(s')
  {
    hide HolderIsInside, LockWaiters, Exclusion;
    var s' := Next(s, t, Wait(c));
    NextExclusion(s, t, Wait(c));
    assert t !in s.conds[c];
    forall u | u in s'.at && Waiting(s'.at[u]) ensures WaiterOk(s', u) {
      NobodySignalled(s, t, u);
      NobodySignalled(s', t, u);
      if u != t {
        assert WaiterOk(s, u);
      }
    }
  }

  /** The waiter falls asleep on its own semaphore. */
  lemma FallAsleep(s: State, t: Tid)
    requires Inv(s) && Enabled(s, t, SleepTurn) && s.own[t].value == 0
    ensures var s' := Next(s, t, SleepTurn); Waiters(s') && Queues(s') && Signallers(s')
  {
    hide HolderIsInside, LockWaiters, Exclusion;
    var s' := Next(s, t, SleepTurn);
    forall u | u in s'.at && Waiting(s'.at[u]) ensures WaiterOk(s', u) {
      assert WaiterOk(s, u);
      assert BeingSignalled(s', u) <==> BeingSignalled(s, u);
    }
  }

  /** The waiter takes the unit its signaller gave it. */
  lemma WakeUp(s: State, t: Tid)
    requires Inv(s) && Enabled(s, t, SleepTurn) && s.own[t].value != 0
    ensures var s' := Next(s, t, SleepTurn); Waiters(s') && Queues(s') && Signallers(s')
  {
    hide HolderIsInside, LockWaiters, Exclusion;
    assert WaiterOk(s, t);
    WakeUpWaiters(s, t);
    WakeUpQueues(s, t);
    assert forall u | u in s.at && s.at[u].Signalling? && s.at[u].w == t :: BeingSignalled(s, t);
  }

  lemma WakeUpQueues(s: State, t: Tid)
    requires Queues(s) && Enabled(s, t, SleepTurn) && s.own[t].value != 0 && s.at[t].c in s.conds && t !in s.conds[s.at[t].c]
    ensures Queues(Next(s, t, SleepTurn))
  {
  }

  lemma WakeUpWaiters(s: State, t: Tid)
    requires Waiters(s) && Enabled(s, t, SleepTurn) && s.own[t].value != 0
    ensures Waiters(Next(s, t, SleepTurn))
  {
    hide WaiterOk, BeingSignalled;
    var s' := Next(s, t, SleepTurn);
    forall u | u in s'.at && Waiting(s'.at[u]) ensures WaiterOk(s', u) {
      assert WaiterOk(s, u);
      WaiterFacts(s, u);
      SameSignals(s, s', t, s'.at[t], u);
      SameWaiter(s, s', u);
    }
  }

  /** A signaller takes the longest waiter off the queue; holding the lock, it finds it asleep. */
  lemma PopWaiters(s: State, t: Tid, c: Cond, all: bool)
    requires Inv(s) && t in s.at && (s.at[t].Holding? || s.at[t] == Broadcasting(c)) && c in s.conds
    ensures var s' := Popped(s, t, c, all); Waiters(s') && Queues(s') && Signallers(s')
  {
    hide HolderIsInside, LockWaiters, Exclusion, WaiterOk, BeingSignalled;
    var s' := Popped(s, t, c, all);
    if s.conds[c] == [] {
      WaitersFrame(s, s', t, Holding);
      SignallersFrame(s, s', t, Holding);
    } else {
      OnlyInside(s, t);
      PopQueues(s, t, c, all);
      PopSignallers(s, t, c, all);
      forall u | u in s'.at && Waiting(s'.at[u]) ensures WaiterOk(s', u) {
        assert WaiterOk(s, u);
        NobodySignalled(s, t, u);
        PopWaiter(s, t, c, all, u);
      }
    }
  }

  lemma PopQueues(s: State, t: Tid, c: Cond, all: bool)
    requires Queues(s) && t in s.at && !Waiting(s.at[t]) && c in s.conds && s.conds[c] != []
    ensures Queues(Popped(s, t, c, all))
  {
    assert forall v :: v in s.conds[c] <==> v == s.conds[c][0] || v in s.conds[c][1..];
  }

  lemma PopSignallers(s: State, t: Tid, c: Cond, all: bool)
    requires Queues(s) && Signallers(s) && t in s.at && InsideAt(s.at[t]) && !Waiting(s.at[t]) && c in s.conds && s.conds[c] != []
    requires forall u | u in s.at && InsideAt(s.at[u]) :: u == t
    ensures Signallers(Popped(s, t, c, all))
  {
    var w := s.conds[c][0];
    assert w in s.conds[c] && Waiting(s.at[w]) && CondOf(s.at[w]) == c;
  }

  lemma PopWaiter(s: State, t: Tid, c: Cond, all: bool, u: Tid)
    requires Queues(s) && t in s.at && u in s.at && u != t && c in s.conds && s.conds[c] != []
    requires Waiting(s.at[u]) && WaiterOk(s, u) && !BeingSignalled(s, u) && !s.at[t].Signalling?
    ensures WaiterOk(Popped(s, t, c, all), u)
  {
    var s' := Popped(s, t, c, all);
    var w := s.conds[c][0];
    assert forall v :: v in s.conds[c] <==> v == w || v in s.conds[c][1..];
    assert w in s.conds[c];
    assert s'.at[t].Signalling? && s'.at[t].w == w;
    assert u == w <==> BeingSignalled(s', u);
  }

  /** The signaller's up reaches the waiter whether it is already asleep or not. */
  lemma UpWaiterWaiters(s: State, t: Tid)
    requires Inv(s) && Enabled(s, t, UpWaiter)
    ensures var s' := Next(s, t, UpWaiter); Waiters(s') && Queues(s') && Signallers(s')
  {
    hide HolderIsInside, LockWaiters, Exclusion;
    var s' := Next(s, t, UpWaiter);
    var w := s.at[t].w;
    OnlyInside(s, t);
    NextExclusion(s, t, UpWaiter);
    assert BeingSignalled(s, w) && WaiterOk(s, w);
    forall u | u in s'.at && Waiting(s'.at[u]) ensures WaiterOk(s', u) {
      assert WaiterOk(s, u);
      NobodySignalled(s', t, u);
      assert u != w ==> !BeingSignalled(s, u);
    }
  }

  lemma PlainMoves(s: State, t: Tid, m: Move)
    requires Inv(s) && Enabled(s, t, m)
    requires m.Acquire? || m.TryAcquire? || m.Recheck? || m.SetHolder? || m.ClearHolder? || m.UpLock? || m.Reacquire? || m.Broadcast?
    ensures var s' := Next(s, t, m); Waiters(s') && Queues(s') && Signallers(s')
  {
    hide Waiters, Queues, Signallers, Inside;
    var s' := Next(s, t, m);
    assert s'.at == s.at[t := s'.at[t]];
    WaitersFrame(s, s', t, s'.at[t]);
    SignallersFrame(s, s', t, s'.at[t]);
  }

  /** Every step of every thread keeps all of it. */
  lemma NextKeeps(s: State, t: Tid, m: Move)
    requires Inv(s) && Enabled(s, t, m)
    ensures Inv(Next(s, t, m))
  {
    NextExclusion(s, t, m);
    NextHolder(s, t, m);
    NextLockWaiters(s, t, m);
    hide Waiters, Queues, Exclusion, HolderIsInside, LockWaiters;
    match m {
      case Wait(c) =>
        WaitWaiters(s, t, c);
        SignallersFrame(s, Next(s, t, m), t, Enqueued(c));
      case SleepTurn =>
        if s.own[t].value == 0 {
          FallAsleep(s, t);
        } else {
          WakeUp(s, t);
        }
      case Signal(c) => PopWaiters(s, t, c, false);
      case Continue => PopWaiters(s, t, s.at[t].c, true);
      case UpWaiter => UpWaiterWaiters(s, t);
      case _ => PlainMoves(s, t, m);
    }
  }

  /** holder names exactly the thread that its place says holds the lock. */
  lemma HolderKnown(s: State, t: Tid)
    requires Inv(s) && t in s.at
    ensures s.holder == Some(t) <==> HoldsAt(s.at[t])
  {
  }

  /** The waiter record a signaller is about to use belongs to a thread still asleep in cond_wait. */
  lemma TargetAsleep(s: State, t: Tid)
    requires Inv(s) && t in s.at && s.at[t].Signalling?
    ensures s.at[t].w in s.at && s.at[s.at[t].w] == Sleeping(s.at[t].c)
  {
  }

  // ----- runs

  /** After lock_init and cond_init, before any thread has touched the lock. */
  function Start(threads: set<Tid>, conds: set<Cond>): (s: State)
    ensures Inv(s)
  {
    var s := State(None, Sema(1, []), map c | c in conds :: [], map[], map t | t in threads :: Own);
    assert Inside(s) == {};
    s
  }

  function After(s: State, run: seq<(Tid, Move)>): (s': Option<State>)
    requires Inv(s)
    ensures s'.Some? ==> Inv(s'.value)
  {
    if run == [] then Some(s)
    else
      var before := After(s, run[..|run| - 1]);
      var (t, m) := run[|run| - 1];
      if before.None? || !Enabled(before.value, t, m) then None
      else
        NextKeeps(before.value, t, m);
        Some(Next(before.value, t, m))
  }

  /** In every run: the lock's value plus the threads between passing its sema_down and finishing its
      sema_up is one, including the windows in which holder is null; so at most one thread holds it,
      and holder, when set, is that thread. */
  lemma MutualExclusion(threads: set<Tid>, conds: set<Cond>, run: seq<(Tid, Move)>)
    requires After(Start(threads, conds), run).Some?
    ensures var s := After(Start(threads, conds), run).value;
            && s.lock.value + |Inside(s)| == 1
            && (forall t, u | t in s.at && u in s.at && InsideAt(s.at[t]) && InsideAt(s.at[u]) :: t == u)
            && (forall t | t in s.at && HoldsAt(s.at[t]) :: s.holder == Some(t))
            && (s.holder.Some? ==> s.holder.value in s.at && HoldsAt(s.at[s.holder.value]))
  {
    var s := After(Start(threads, conds), run).value;
    forall t, u | t in s.at && u in s.at && InsideAt(s.at[t]) && InsideAt(s.at[u]) ensures t == u {
      OnlyInside(s, t);
    }
  }

  /** cond_wait leaves its last step only with the lock held. */
  lemma WaitReturnsHolding(s: State, t: Tid, m: Move, c: Cond)
    requires Inv(s) && Enabled(s, t, m) && s.at[t] in {Sleeping(c), Awake(c), Acquiring(ForWait(c)), Acquired(ForWait(c))}
    ensures var s' := Next(s, t, m);
            s'.at[t] in {Sleeping(c), Awake(c), Acquiring(ForWait(c)), Acquired(ForWait(c))} ||
            (s'.at[t] == Holding && s'.holder == Some(t) && s'.lock.value == 0 && Inside(s') == {t})
  {
    NextKeeps(s, t, m);
    var s' := Next(s, t, m);
    if s'.at[t].Holding? {
      OnlyInside(s', t);
      assert t in Inside(s');
    }
  }

  /** A signal that has been given is not lost: a waiter that is neither queued nor in a signaller's
      hands finds its semaphore 1, is not blocked, and its next turn takes it out of its sleep. */
  lemma SignalNotLost(s: State, t: Tid)
    requires Inv(s) && t in s.at && s.at[t].Sleeping? && t !in s.conds[CondOf(s.at[t])] && !BeingSignalled(s, t)
    ensures Enabled(s, t, SleepTurn) && Next(s, t, SleepTurn).at[t] == Awake(s.at[t].c)
  {
    assert WaiterOk(s, t);
  }

  /** In particular a signal that lands after cond_wait has released the lock, but before its sema_down,
      goes to the longest waiter and lets it pass that sema_down without blocking. */
  lemma SignalBeforeSleep(s: State, t: Tid, u: Tid, c: Cond)
    requires Inv(s) && t in s.at && s.at[t] == Sleeping(c) && t !in s.own[t].waiters
    requires s.conds[c] != [] && s.conds[c][0] == t && u in s.at && s.at[u].Holding?
    ensures Enabled(s, u, Signal(c))
    ensures var s1 := Next(s, u, Signal(c));
            Enabled(s1, u, UpWaiter) &&
            var s2 := Next(s1, u, UpWaiter);
            Enabled(s2, t, SleepTurn) && Next(s2, t, SleepTurn).at[t] == Awake(c) && s2.at[u].Holding?
  {
    assert WaiterOk(s, t);
    assert t != u;
  }

  // ----- the assertions, and no lost wakeup of the lock

  /** The assertions of lock_acquire, lock_try_acquire, lock_release and the cond_* functions on who holds the lock. */
  lemma AssertionsHold(s: State, t: Tid, m: Move)
    requires Inv(s) && Enabled(s, t, m)
    ensures m.Acquire? || m.TryAcquire? || m.Reacquire? ==> s.holder != Some(t)
    ensures m.ClearHolder? || m.Wait? || m.Signal? || m.Broadcast? || m.Continue? ==> s.holder == Some(t)
  {
    HolderKnown(s, t);
  }

  /** While threads are blocked on a free lock, a thread woken on it has yet to re-check. */
  ghost predicate LockServed(s: State) {
    s.lock.waiters != [] && s.lock.value > 0 ==> exists t | t in s.at :: s.at[t].Acquiring? && t !in s.lock.waiters
  }

  lemma NextServed(s: State, t: Tid, m: Move)
    requires Inv(s) && LockServed(s) && Enabled(s, t, m)
    ensures LockServed(Next(s, t, m))
  {
    hide Waiters, Queues, Signallers, HolderIsInside;
    var s' := Next(s, t, m);
    if m.UpLock? {
      if s.lock.waiters != [] {
        var w := s.lock.waiters[0];
        assert w in s.lock.waiters && w !in s.lock.waiters[1..] && s'.at[w].Acquiring?;
      }
    } else if s'.lock == s.lock && s'.lock.waiters != [] && s'.lock.value > 0 {
      var w :| w in s.at && s.at[w].Acquiring? && w !in s.lock.waiters;
      assert s'.at[w].Acquiring?;
    }
  }

  /** In every run, whenever the lock is free and threads are blocked on it, one that can take it is on its way. */
  lemma {:induction false} LockWakeupPending(threads: set<Tid>, conds: set<Cond>, run: seq<(Tid, Move)>)
    requires After(Start(threads, conds), run).Some?
    ensures var s := After(Start(threads, conds), run).value;
            s.lock.waiters != [] && s.lock.value > 0 ==> exists t | t in s.at :: Enabled(s, t, Recheck) && Next(s, t, Recheck).at[t].Acquired?
  {
    ServedRun(threads, conds, run);
    var s := After(Start(threads, conds), run).value;
    if s.lock.waiters != [] && s.lock.value > 0 {
      var t :| t in s.at && s.at[t].Acquiring? && t !in s.lock.waiters;
      assert Enabled(s, t, Recheck) && Next(s, t, Recheck).at[t].Acquired?;
    }
  }

  lemma {:induction false} ServedRun(threads: set<Tid>, conds: set<Cond>, run: seq<(Tid, Move)>)
    requires After(Start(threads, conds), run).Some?
    ensures LockServed(After(Start(threads, conds), run).value)
  {
    hide Inv, Next, Enabled;
    if run != [] {
      var k := |run| - 1;
      ServedRun(threads, conds, run[..k]);
      NextServed(After(Start(threads, conds), run[..k]).value, run[k].0, run[k].1);
    }
  }

  // ----- first in, first out

  /** The threads that joined c's queue, and those that were signalled off it, in order. */
  ghost function Joined(s: State, run: seq<(Tid, Move)>, c: Cond): seq<Tid> {
    if run == [] then []
    else
      var (t, m) := run[|run| - 1];
      Joined(s, run[..|run| - 1], c) + if m == Wait(c) then [t] else []
  }

  ghost function Signalled(s: State, run: seq<(Tid, Move)>, c: Cond): seq<Tid>
    requires Inv(s) && After(s, run).Some?
  {
    if run == [] then []
    else
      var k := |run| - 1;
      var before := After(s, run[..k]).value;
      var (t, m) := run[k];
      var pops := c in before.conds && before.conds[c] != [] && (m == Signal(c) || (m.Continue? && before.at[t] == Broadcasting(c)));
      Signalled(s, run[..k], c) + if pops then [before.conds[c][0]] else []
  }

  lemma QueueStep(s: State, t: Tid, m: Move, c: Cond)
    requires Enabled(s, t, m) && c in s.conds
    ensures var s' := Next(s, t, m);
            var pops := s.conds[c] != [] && (m == Signal(c) || (m.Continue? && s.at[t] == Broadcasting(c)));
            c in s'.conds &&
            s'.conds[c] == (if pops then s.conds[c][1..] else s.conds[c]) + if m == Wait(c) then [t] else []
  {
  }

  /** Whoever joined first is signalled first: arrivals are the signalled threads followed by those still queued. */
  lemma {:induction false} FirstInFirstOut(threads: set<Tid>, conds: set<Cond>, run: seq<(Tid, Move)>, c: Cond)
    requires c in conds && After(Start(threads, conds), run).Some?
    ensures var s0 := Start(threads, conds);
            var s := After(s0, run).value;
            c in s.conds && Joined(s0, run, c) == Signalled(s0, run, c) + s.conds[c]
  {
    hide Inv, Next, Enabled;
    var s0 := Start(threads, conds);
    if run != [] {
      var k := |run| - 1;
      FirstInFirstOut(threads, conds, run[..k], c);
      var before := After(s0, run[..k]).value;
      QueueStep(before, run[k].0, run[k].1, c);
    }
  }
}
