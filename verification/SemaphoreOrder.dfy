/** Semaphores serve first come, first served (threads/synch.c), in every run of the scheduler. */
module SemaphoreOrder {
  import opened Options
  import opened Scheduler
  import opened SchedulerRuns
  import opened Threads

  /** The thread that an action queues on x, as a sequence. */
  ghost function Joins(s: State, a: Action, x: SemaId): seq<Tid>
    requires x in s.semas && s.cur in s.at
  {
    if s.semas[x].value == 0 && (a == Down(x) || (a.Recheck? && s.at[s.cur] == InDown(x))) then [s.cur] else []
  }

  /** The threads that an action wakes on x: one for each up, as long as some wait. */
  ghost function Wakes(s: State, a: Action, x: SemaId): seq<Tid>
    requires x in s.semas && s.cur in s.at
  {
    Front(s.semas[x].waiters, Ups(s, a, x))
  }

  function Front<T>(s: seq<T>, n: nat): seq<T> {
    if n < |s| then s[..n] else s
  }

  function Rest<T>(s: seq<T>, n: nat): seq<T> {
    if n < |s| then s[n..] else []
  }

  lemma FrontRest<T>(s: seq<T>, n: nat)
    ensures Front(s, n) + Rest(s, n) == s
  {
  }

  lemma {:induction false} UppedAllWaiters(s: State, ups: seq<SemaId>, x: SemaId)
    requires Inv(s) && x in s.semas && forall y | y in ups :: y in s.semas
    ensures UppedAll(s, ups).semas[x].waiters == Rest(s.semas[x].waiters, multiset(ups)[x])
    decreases |ups|
  {
    hide Inv, Upped, Rest;
    var w := s.semas[x].waiters;
    RestFew(w);
    if ups != [] {
      var more := multiset(ups[1..])[x];
      assert ups[0] in ups;
      UpKeeps(s, ups[0]);
      UppedWaiters(s, ups[0], x);
      UppedAllWaiters(Upped(s, ups[0]), ups[1..], x);
      assert ups == [ups[0]] + ups[1..];
      RestTwice(w, more);
    }
  }

  lemma UppedWaiters(s: State, y: SemaId, x: SemaId)
    requires Inv(s) && x in s.semas && y in s.semas
    ensures s.semas[y].waiters != [] ==> s.semas[y].waiters[0] in s.status && s.status[s.semas[y].waiters[0]] == Blocked
    ensures Upped(s, y).semas.Keys == s.semas.Keys
    ensures Upped(s, y).semas[x].waiters == if x == y then Rest(s.semas[x].waiters, 1) else s.semas[x].waiters
  {
    hide Inv;
    UpKeeps(s, y);
  }

  lemma RestTwice<T>(s: seq<T>, n: nat)
    ensures Rest(Rest(s, 1), n) == Rest(s, n + 1)
  {
  }

  lemma InterruptWaiters(s: State, tick: bool, ups: seq<SemaId>, preempt: bool, x: SemaId)
    requires Inv(s) && x in s.semas && forall y | y in ups :: y in s.semas
    ensures var s' := Interrupted(s, tick, ups, preempt);
            x in s'.semas && s'.semas[x].waiters == Rest(s.semas[x].waiters, multiset(ups)[x])
  {
    hide Inv, UppedAll, TickCharged;
    var charged := if tick && s.roundRobin then TickCharged(s) else s;
    TickChargedKeeps(s);
    TickSemas(s);
    UppedAllWaiters(charged, ups, x);
    YieldSemas(UppedAll(charged, ups));
  }

  lemma DownTurnWaiters(s: State, x: SemaId, y: SemaId)
    requires Inv(s) && x in s.semas && y in s.semas && (s.at[s.cur] == Own || s.at[s.cur] == InDown(x))
    ensures var s' := DownTurn(s, x);
            y in s'.semas && s'.semas[y].waiters == s.semas[y].waiters + if y == x && s.semas[x].value == 0 then [s.cur] else []
  {
    hide Inv;
  }

  /** Threads are woken from the front of a semaphore's list and join at its end. */
  lemma StepWaiters(s: State, a: Action, x: SemaId)
    requires Inv(s) && Enabled(s, a) && x in s.semas
    ensures x in Next(s, a).semas
    ensures s.semas[x].waiters + Joins(s, a, x) == Wakes(s, a, x) + Next(s, a).semas[x].waiters
  {
    hide Inv, Interrupted, UppedAll, DownTurn, YieldCpu, Front, Rest;
    FrontRest(s.semas[x].waiters, Ups(s, a, x));
    RestFew(s.semas[x].waiters);
    match a {
      case Down(y) => DownTurnWaiters(s, y, x);
      case Recheck => DownTurnWaiters(s, s.at[s.cur].sema, x);
      case Yield => YieldSemas(s);
      case Interrupt(tick, ups, preempt) => InterruptWaiters(s, tick, ups, preempt, x);
      case _ =>
    }
  }

  lemma RestFew<T>(s: seq<T>)
    ensures Rest(s, 0) == s && Front(s, 0) == [] && Rest(s, 1) == if s == [] then [] else s[1..]
  {
  }

  /** Those that queued on x over a run, and those that were woken on it, in order. A woken thread that finds the value 0
      when it runs queues anew. */
  ghost function Joined(s: State, actions: seq<Action>, x: SemaId): seq<Tid>
    requires Inv(s) && x in s.semas && After(s, actions).Some?
  {
    if actions == [] then []
    else
      var k := |actions| - 1;
      var before := After(s, actions[..k]).value;
      SemaphoreConserves(s, actions[..k], x);
      Joined(s, actions[..k], x) + Joins(before, actions[k], x)
  }

  ghost function WokenUp(s: State, actions: seq<Action>, x: SemaId): seq<Tid>
    requires Inv(s) && x in s.semas && After(s, actions).Some?
  {
    if actions == [] then []
    else
      var k := |actions| - 1;
      var before := After(s, actions[..k]).value;
      SemaphoreConserves(s, actions[..k], x);
      WokenUp(s, actions[..k], x) + Wakes(before, actions[k], x)
  }

  /** In every interleaving a semaphore's waiters are woken in the order in which they queued: those waiting at first
      and those that queued are, in order, those woken and those still waiting. */
  lemma {:induction false} FirstComeFirstServed(s: State, actions: seq<Action>, x: SemaId)
    requires Inv(s) && x in s.semas && After(s, actions).Some?
    ensures x in After(s, actions).value.semas
    ensures s.semas[x].waiters + Joined(s, actions, x) == WokenUp(s, actions, x) + After(s, actions).value.semas[x].waiters
  {
    hide Inv, Next, Enabled, Joins, Wakes;
    if actions != [] {
      var k := |actions| - 1;
      var before := After(s, actions[..k]).value;
      FirstComeFirstServed(s, actions[..k], x);
      StepWaiters(before, actions[k], x);
      Chain(s.semas[x].waiters, Joined(s, actions[..k], x), Joins(before, actions[k], x), WokenUp(s, actions[..k], x),
            Wakes(before, actions[k], x), before.semas[x].waiters, After(s, actions).value.semas[x].waiters);
    }
  }

  lemma Chain<T>(a: seq<T>, b: seq<T>, c: seq<T>, d: seq<T>, e: seq<T>, f: seq<T>, g: seq<T>)
    requires a + b == d + f && f + c == e + g
    ensures a + (b + c) == d + e + g
  {
    assert a + (b + c) == (a + b) + c;
    assert d + e + g == d + (e + g);
  }

  /** From sema_init with a value on: its value is that one, plus ups, less completed downs, and its waiters are those that
      queued and were not woken yet, in the order in which they queued. */
  lemma InitializedSemaphore(s: State, x: SemaId, value: nat, s0: State, actions: seq<Action>, e: State)
    requires Inv(s) && Enabled(s, NewSema(x, value)) && s0 == Next(s, NewSema(x, value)) && Inv(s0)
    requires After(s0, actions) == Some(e)
    ensures x in s0.semas && x in e.semas
    ensures e.semas[x].value + TotalDowns(s0, actions, x) == value + TotalUps(s0, actions, x)
    ensures Joined(s0, actions, x) == WokenUp(s0, actions, x) + e.semas[x].waiters
  {
    hide Inv, After, Joined, WokenUp, TotalUps, TotalDowns;
    assert s0.semas[x] == Sema(value, []);
    hide Next;
    SemaphoreConserves(s0, actions, x);
    FirstComeFirstServed(s0, actions, x);
    assert s0.semas[x].waiters + Joined(s0, actions, x) == Joined(s0, actions, x);
  }
}
