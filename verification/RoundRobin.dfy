/** Round robin has a waiting bound: a thread at index i of the ready list gets the processor
    within QUANTUM * (i + 1) ticks, whatever the other threads do. */
module RoundRobin {
  import opened Options
  import opened StableOrder
  import opened Scheduler
  import opened SchedulerRuns
  import opened Threads

  /** Ticks that may still pass before t runs: what is left of the running thread's quantum, and a
      whole quantum for every thread in front of t. */
  ghost function Credit(s: State, t: Tid): int
    requires t in s.ready && s.cur in s.ticks
  {
    QUANTUM - s.ticks[s.cur] + QUANTUM * Rank(s.ready, t)
  }

  lemma {:induction false} RankPrefix(r: seq<Tid>, longer: seq<Tid>, t: Tid)
    requires t in r && r <= longer
    ensures t in longer && Rank(longer, t) == Rank(r, t)
  {
    assert r[0] == longer[0];
    if r[0] != t {
      RankPrefix(r[1..], longer[1..], t);
    }
  }

  /** Ticks in one action. */
  function Ticks(a: Action): nat {
    if a.Interrupt? && a.tick then 1 else 0
  }

  function TotalTicks(actions: seq<Action>): nat {
    if actions == [] then 0 else TotalTicks(actions[..|actions| - 1]) + Ticks(actions[|actions| - 1])
  }

  /** From s to s' in n ticks, t has been chosen or its credit has gone down by n. */
  ghost predicate Progress(s: State, s': State, t: Tid, n: nat)
    requires t in s.ready && s.cur in s.ticks && s'.cur in s'.ticks
  {
    s'.roundRobin == s.roundRobin && (s'.cur == t || (t in s'.ready && Credit(s', t) + n <= Credit(s, t)))
  }

  /** A context switch brings t one place nearer, or to the processor. */
  lemma DispatchCredit(s: State, t: Tid)
    requires Parked(s) && t in s.ready
    ensures Inv(Dispatched(s)) && Dispatched(s).roundRobin == s.roundRobin
    ensures Dispatched(s).cur == t || (t in Dispatched(s).ready && Credit(Dispatched(s), t) <= QUANTUM * Rank(s.ready, t))
  {
    DispatchKeeps(s);
  }

  lemma SwitchProgress(s: State, parked: State, t: Tid)
    requires Inv(s) && t in s.ready && Parked(parked) && parked.roundRobin == s.roundRobin && s.ready <= parked.ready
    ensures t in parked.ready && (parked.ready != [] || parked.idleThread.Some?)
    ensures Inv(Dispatched(parked)) && Progress(s, Dispatched(parked), t, 1)
  {
    QuantumLeft(s);
    hide Inv, Parked;
    RankPrefix(s.ready, parked.ready, t);
    NextExists(parked);
    DispatchCredit(parked, t);
  }

  lemma QuantumLeft(s: State)
    requires Inv(s)
    ensures s.ticks[s.cur] < QUANTUM
  {
  }

  /** s' differs from s in who waits where, but the running thread and the front of the queue are the same. */
  ghost predicate Extends(s: State, s': State) {
    s.ready <= s'.ready && s'.cur == s.cur && s'.ticks == s.ticks && s'.roundRobin == s.roundRobin
  }

  lemma ExtendsProgress(s: State, s': State, t: Tid)
    requires Extends(s, s') && t in s.ready && s.cur in s.ticks
    ensures Progress(s, s', t, 0)
  {
    RankPrefix(s.ready, s'.ready, t);
  }

  lemma UpExtends(s: State, x: SemaId)
    requires Inv(s) && x in s.semas
    ensures s.semas[x].waiters != [] ==> s.semas[x].waiters[0] in s.status && s.status[s.semas[x].waiters[0]] == Blocked
    ensures Inv(Upped(s, x)) && Extends(s, Upped(s, x)) && Upped(s, x).semas.Keys == s.semas.Keys
  {
    hide Inv;
    UpKeeps(s, x);
  }

  lemma {:induction false} UppedAllExtends(s: State, ups: seq<SemaId>)
    requires Inv(s) && forall x | x in ups :: x in s.semas
    ensures Extends(s, UppedAll(s, ups))
    decreases |ups|
  {
    hide Inv, Upped;
    if ups != [] {
      assert ups[0] in ups;
      UpExtends(s, ups[0]);
      UppedAllExtends(Upped(s, ups[0]), ups[1..]);
    }
  }

  lemma TickCost(s: State, t: Tid)
    requires Inv(s) && t in s.ready
    ensures var s' := TickCharged(s);
            && s'.ready == s.ready && s'.cur == s.cur && s'.roundRobin == s.roundRobin && s'.cur in s'.ticks
            && (s.ticks[s.cur] + 1 < QUANTUM ==> Credit(s', t) + 1 == Credit(s, t))
            && (s.ticks[s.cur] + 1 >= QUANTUM ==> Credit(s, t) == 1 + QUANTUM * Rank(s.ready, t))
  {
    QuantumLeft(s);
  }

  /** The timer interrupt uses up one tick of the credit. */
  lemma InterruptProgress(s: State, tick: bool, ups: seq<SemaId>, t: Tid)
    requires Inv(s) && s.roundRobin && t in s.ready && forall x | x in ups :: x in s.semas
    ensures var s' := Interrupted(s, tick, ups, false);
            Inv(s') && Progress(s, s', t, if tick then 1 else 0)
  {
    hide Inv, UppedAll, TickCharged, Parked, CurYielding, Dispatched;
    InterruptedKeeps(s, tick, ups, false);
    TickChargedKeeps(s);
    TickSemas(s);
    TickCost(s, t);
    var charged := if tick then TickCharged(s) else s;
    var s1 := UppedAll(charged, ups);
    UppedAllExtends(charged, ups);
    RankPrefix(s.ready, s1.ready, t);
    if tick && s.ticks[s.cur] + 1 >= QUANTUM {
      YieldKeeps(s1);
      YieldAppends(s1);
      RankPrefix(s.ready, CurYielding(s1).ready, t);
      NextExists(CurYielding(s1));
      DispatchCredit(CurYielding(s1), t);
    }
  }

  lemma YieldAppends(s: State)
    ensures s.ready <= CurYielding(s).ready && CurYielding(s).roundRobin == s.roundRobin
  {
  }

  lemma StepProgress(s: State, a: Action, t: Tid)
    requires Inv(s) && s.roundRobin && Enabled(s, a) && t in s.ready
    ensures Inv(Next(s, a)) && Progress(s, Next(s, a), t, Ticks(a))
  {
    hide Inv, Interrupted, DownTurn, YieldCpu, ExitCpu, IdleBlockCpu, UppedAll, Progress;
    NextKeeps(s, a);
    match a {
      case Down(x) => DownProgress(s, x, t);
      case Recheck => DownProgress(s, s.at[s.cur].sema, t);
      case TryDown(x) => ExtendsProgress(s, Next(s, a), t);
      case Up(x) =>
        UpExtends(s, x);
        ExtendsProgress(s, Next(s, a), t);
      case Yield => GiveUp(s, a, t);
      case Exit => GiveUp(s, a, t);
      case Create(u) => CreateProgress(s, u, t);
      case NewSema(x, value) => ExtendsProgress(s, Next(s, a), t);
      case EnterIdle => ExtendsProgress(s, Next(s, a), t);
      case StartIdle =>
        UpExtends(s, s.at[s.cur].started);
        ExtendsProgress(s, Next(s, a), t);
      case IdleBlock => GiveUp(s, a, t);
      case Interrupt(tick, ups, preempt) => InterruptProgress(s, tick, ups, t);
      case Sort(order) => assert false;
    }
  }

  lemma GiveUp(s: State, a: Action, t: Tid)
    requires Inv(s) && Enabled(s, a) && t in s.ready && (a.Yield? || a.Exit? || a.IdleBlock?)
    ensures Inv(Next(s, a)) && Progress(s, Next(s, a), t, 0)
  {
    hide Inv, Parked, Dispatched, Progress;
    NextKeeps(s, a);
    match a {
      case Yield =>
        YieldKeeps(s);
        SwitchProgress(s, CurYielding(s), t);
      case Exit =>
        ExitKeeps(s);
        SwitchProgress(s, CurDying(s), t);
      case IdleBlock =>
        IdleBlockKeeps(s);
        SwitchProgress(s, CurBlocked(s), t);
    }
    LessProgress(s, Next(s, a), t);
  }

  lemma LessProgress(s: State, s': State, t: Tid)
    requires t in s.ready && s.cur in s.ticks && s'.cur in s'.ticks && Progress(s, s', t, 1)
    ensures Progress(s, s', t, 0)
  {
  }

  lemma CreateProgress(s: State, u: Tid, t: Tid)
    requires Inv(s) && u !in s.status && t in s.ready
    ensures Progress(s, Created(s, u), t, 0)
  {
    hide Inv;
    RankPrefix(s.ready, Created(s, u).ready, t);
  }

  lemma DownProgress(s: State, x: SemaId, t: Tid)
    requires Inv(s) && x in s.semas && t in s.ready && (s.at[s.cur] == Own || s.at[s.cur] == InDown(x))
    ensures Inv(DownTurn(s, x)) && Progress(s, DownTurn(s, x), t, 0)
  {
    hide Inv, Parked, Dispatched;
    DownTurnKeeps(s, x);
    if s.semas[x].value == 0 {
      QueueKeeps(s, x);
      SwitchProgress(s, CurBlocked(Queued(s, x)), t);
    } else {
      ExtendsProgress(s, DownTurn(s, x), t);
    }
  }

  /** As long as t has not run, every tick has been paid for out of its credit. */
  lemma {:induction false} WaitingCosts(s: State, actions: seq<Action>, t: Tid)
    requires Inv(s) && s.roundRobin && t in s.ready && After(s, actions).Some?
    requires forall k :: 0 <= k <= |actions| && After(s, actions[..k]).Some? ==> After(s, actions[..k]).value.cur != t
    ensures var s' := After(s, actions).value;
            s'.roundRobin && t in s'.ready && Credit(s', t) + TotalTicks(actions) <= Credit(s, t)
    ensures TotalTicks(actions) < QUANTUM * (Rank(s.ready, t) + 1)
  {
    hide Inv, Next, Enabled;
    if actions != [] {
      var k := |actions| - 1;
      var before := After(s, actions[..k]);
      forall j | 0 <= j <= k && After(s, actions[..k][..j]).Some? ensures After(s, actions[..k][..j]).value.cur != t {
        assert actions[..k][..j] == actions[..j];
      }
      WaitingCosts(s, actions[..k], t);
      StepProgress(before.value, actions[k], t);
      assert actions[..|actions|] == actions;
    }
    QuantumLeft(After(s, actions).value);
  }

  /** In every run, the thread at index i of the ready list has the processor by the time
      QUANTUM * (i + 1) ticks have passed. */
  lemma WaitingBound(s: State, actions: seq<Action>, t: Tid)
    requires Inv(s) && s.roundRobin && t in s.ready && After(s, actions).Some?
    requires TotalTicks(actions) >= QUANTUM * (Rank(s.ready, t) + 1)
    ensures exists k :: 0 <= k <= |actions| && After(s, actions[..k]).Some? && After(s, actions[..k]).value.cur == t
  {
    if !exists k :: 0 <= k <= |actions| && After(s, actions[..k]).Some? && After(s, actions[..k]).value.cur == t {
      WaitingCosts(s, actions, t);
    }
  }

  /** And no thread is hurried: a tick takes the processor from the running thread exactly when it is the last of its
      quantum. It then goes to the thread that was first in the queue, and the running thread, if not the idle one, to
      the back of it. */
  lemma QuantumKept(s: State, ups: seq<SemaId>)
    requires Inv(s) && s.roundRobin && forall x | x in ups :: x in s.semas
    ensures var s' := Interrupted(s, true, ups, false);
            if s.ticks[s.cur] + 1 < QUANTUM then
              s'.cur == s.cur && s'.ticks == s.ticks[s.cur := s.ticks[s.cur] + 1] && s.ready <= s'.ready
            else
              && s'.ticks == s.ticks[s.cur := 0]
              && (s.ready != [] ==> s'.cur == s.ready[0])
              && (s.ready != [] && s.idleThread != Some(s.cur) ==> s'.ready != [] && s'.ready[|s'.ready| - 1] == s.cur)
  {
    QuantumLeft(s);
    TickIs(s);
    hide Inv, UppedAll, YieldCpu, TickCharged, Dispatched, CurYielding;
    TickChargedKeeps(s);
    var charged := TickCharged(s);
    UppedAllExtends(charged, ups);
    UppedAllIdle(charged, ups);
    YieldIs(UppedAll(charged, ups));
  }

  lemma TickIs(s: State)
    requires Inv(s)
    ensures var s' := TickCharged(s);
            && s'.ready == s.ready && s'.cur == s.cur && s'.idleThread == s.idleThread && s'.semas == s.semas
            && s'.ticks == s.ticks[s.cur := if s.ticks[s.cur] + 1 < QUANTUM then s.ticks[s.cur] + 1 else 0]
  {
    hide Inv;
  }

  lemma YieldIs(s: State)
    requires Inv(s)
    ensures var s' := YieldCpu(s);
            && s'.ticks == s.ticks && (s.ready != [] ==> s'.cur == s.ready[0])
            && (s.ready != [] && s.idleThread != Some(s.cur) ==> s'.ready != [] && s'.ready[|s'.ready| - 1] == s.cur)
  {
    hide Inv, Parked, ReadyList, WaitLists, IdleDiscipline, Wakeups;
    YieldKeeps(s);
    NextExists(CurYielding(s));
  }

  lemma {:induction false} UppedAllIdle(s: State, ups: seq<SemaId>)
    requires Inv(s) && forall x | x in ups :: x in s.semas
    ensures UppedAll(s, ups).idleThread == s.idleThread
    decreases |ups|
  {
    hide Inv, Upped;
    if ups != [] {
      assert ups[0] in ups;
      UpExtends(s, ups[0]);
      UpIdle(s, ups[0]);
      UppedAllIdle(Upped(s, ups[0]), ups[1..]);
    }
  }

  lemma UpIdle(s: State, x: SemaId)
    requires x in s.semas
    requires s.semas[x].waiters != [] ==> s.semas[x].waiters[0] in s.status && s.status[s.semas[x].waiters[0]] == Blocked
    ensures Upped(s, x).idleThread == s.idleThread
  {
  }

  // ----- a thread's ticks

  /** The ticks of a run that find t running. */
  ghost function RanTicks(s: State, actions: seq<Action>, t: Tid): nat
    requires Inv(s) && After(s, actions).Some?
  {
    if actions == [] then 0
    else
      var k := |actions| - 1;
      RanTicks(s, actions[..k], t) + if Ticks(actions[k]) == 1 && After(s, actions[..k]).value.cur == t then 1 else 0
  }

  /** A count that starts again at the quantum. */
  function OneTick(n: nat): nat { if n + 1 < QUANTUM then n + 1 else 0 }

  lemma StepTicks(s: State, a: Action, t: Tid)
    requires Inv(s) && s.roundRobin && Enabled(s, a) && t in s.ticks
    ensures var s' := Next(s, a);
            && s'.roundRobin && t in s'.ticks
            && s'.ticks[t] == if Ticks(a) == 1 && s.cur == t then OneTick(s.ticks[t]) else s.ticks[t]
  {
    hide Inv, Interrupted, UppedAll, Upped, YieldCpu, DownTurn, OneTick;
    TicksKnown(s, t);
    match a {
      case Interrupt(tick, ups, _) => InterruptTicks(s, tick, ups, t);
      case Up(x) => UpExtends(s, x);
      case StartIdle => UpExtends(s, s.at[s.cur].started);
      case Yield => YieldTicks(s);
      case Down(x) => DownTicks(s, x);
      case Recheck => DownTicks(s, s.at[s.cur].sema);
      case _ =>
    }
  }

  lemma TicksKnown(s: State, t: Tid)
    requires Inv(s) && t in s.ticks
    ensures s.ticks[t] < QUANTUM && t in s.status
  {
  }

  lemma YieldTicks(s: State)
    requires Inv(s)
    ensures YieldCpu(s).ticks == s.ticks && YieldCpu(s).roundRobin == s.roundRobin
  {
    hide Inv;
  }

  lemma DownTicks(s: State, x: SemaId)
    requires Inv(s) && x in s.semas && (s.at[s.cur] == Own || s.at[s.cur] == InDown(x))
    ensures DownTurn(s, x).ticks == s.ticks && DownTurn(s, x).roundRobin == s.roundRobin
  {
    hide Inv;
  }

  lemma InterruptTicks(s: State, tick: bool, ups: seq<SemaId>, t: Tid)
    requires Inv(s) && s.roundRobin && t in s.ticks && forall x | x in ups :: x in s.semas
    ensures var s' := Interrupted(s, tick, ups, false);
            && s'.roundRobin && t in s'.ticks
            && s'.ticks[t] == if tick && s.cur == t then OneTick(s.ticks[t]) else s.ticks[t]
  {
    hide Inv, UppedAll, YieldCpu, TickCharged;
    TickIs(s);
    TickSemas(s);
    TickChargedKeeps(s);
    var charged := if tick then TickCharged(s) else s;
    UppedAllExtends(charged, ups);
    YieldTicks(UppedAll(charged, ups));
  }

  lemma OneTickModulo(n: nat, ticks: nat)
    requires ticks == n % QUANTUM
    ensures OneTick(ticks) == (n + 1) % QUANTUM
  {
  }

  /** In every run a thread's tick count is that of the ticks it has run, modulo the quantum. */
  lemma {:induction false} TicksCounted(s: State, actions: seq<Action>, t: Tid)
    requires Inv(s) && s.roundRobin && After(s, actions).Some? && t in s.ticks
    ensures After(s, actions).value.roundRobin && t in After(s, actions).value.ticks
    ensures After(s, actions).value.ticks[t] == (s.ticks[t] + RanTicks(s, actions, t)) % QUANTUM
  {
    hide Inv, Next, Enabled, OneTick;
    TicksKnown(s, t);
    if actions != [] {
      var k := |actions| - 1;
      TicksCounted(s, actions[..k], t);
      var before := After(s, actions[..k]).value;
      StepTicks(before, actions[k], t);
      OneTickModulo(s.ticks[t] + RanTicks(s, actions[..k], t), before.ticks[t]);
    }
  }

  /** A created thread starts from 0, so it has the whole of its first quantum. */
  lemma CreatedTicks(s: State, t: Tid, s0: State, actions: seq<Action>)
    requires Inv(s) && s.roundRobin && Enabled(s, Create(t)) && s0 == Next(s, Create(t)) && Inv(s0)
    requires After(s0, actions).Some?
    ensures t in After(s0, actions).value.ticks
    ensures After(s0, actions).value.ticks[t] == RanTicks(s0, actions, t) % QUANTUM
  {
    hide Inv, After, RanTicks;
    assert s0.ticks[t] == 0 && s0.roundRobin;
    TicksCounted(s0, actions, t);
  }
}
