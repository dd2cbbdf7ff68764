/** The multi-level feedback queue policy: thread_tick's MLFQS branch, the priority refresh and the
    choice of the next thread (threads/thread.c). */
module Mlfqs {
  import opened FixedPoint
  import opened LoadAverage
  import opened RecentCpu
  import opened StableOrder
  import opened Threads

  const PRI_MIN: int := 0
  const PRI_MAX: int := 63

  datatype Thread = Thread(priority: int, nice: int, cpu: int)

  /** What the policy reads and writes: the tick counter, the threads on all_list, the ready queue,
      the running thread, load_avg and thread_ticks. */
  datatype State = State(now: nat, threads: map<Tid, Thread>, ready: seq<Tid>, cur: Tid, load: int, slice: nat) {
    /** Queued threads and the running thread are known; the queue holds nobody twice. */
    ghost predicate Valid() {
      && cur in threads && Distinct(ready) && cur !in ready
      && (forall t | t in ready :: t in threads)
      && load >= 0
    }
  }

  function Priority(nice: int, cpu: int): (p: int)
    ensures PRI_MIN <= p <= PRI_MAX
  {
    var p := PRI_MAX - FpToIntRound(DivInt(cpu, 4)) - nice * 2;
    if p > PRI_MAX then PRI_MAX else if p < PRI_MIN then PRI_MIN else p
  }

  /** priority_cmp: the thread with the higher priority comes first. */
  function PriorityLess(threads: map<Tid, Thread>): (Tid, Tid) -> bool {
    (a, b) => a in threads && b in threads && threads[a].priority > threads[b].priority
  }

  lemma PriorityLessStrictWeak(threads: map<Tid, Thread>, S: set<Tid>)
    requires S <= threads.Keys
    ensures StrictWeak(PriorityLess(threads), S)
  {
  }

  /** thread_foreach (refresh_cpu): every thread but the idle one. */
  function WithCpuRefreshed(threads: map<Tid, Thread>, load: int, idle: Tid): map<Tid, Thread>
    requires load >= 0
  {
    map t | t in threads :: if t == idle then threads[t]
                            else threads[t].(cpu := NextCpu(load, threads[t].nice, threads[t].cpu))
  }

  /** refresh_priority: the running thread, and every queued thread but the initial one. */
  function WithPriorityRefreshed(threads: map<Tid, Thread>, ready: seq<Tid>, cur: Tid, initial: Tid): map<Tid, Thread> {
    map t | t in threads :: if t == cur || (t in ready && t != initial)
                            then threads[t].(priority := Priority(threads[t].nice, threads[t].cpu))
                            else threads[t]
  }

  function Charged(threads: map<Tid, Thread>, t: Tid): map<Tid, Thread>
    requires t in threads
  {
    threads[t := threads[t].(cpu := AddInt(threads[t].cpu, 1))]
  }

  /** The queue a yield is about to push the preempted thread onto. */
  function Queue(threads: map<Tid, Thread>, ready: seq<Tid>): seq<Tid> {
    StableSort(PriorityLess(threads), ready)
  }

  lemma NextLoadNonNegative(load: int, r: nat)
    requires load >= 0
    ensures NextLoad(load, r) >= 0
  {
    NextLoadIs(load, r);
  }

  /** Once a second: load_avg first, then every thread's recent_cpu from the new load_avg. */
  function Refreshed(s: State, idle: Tid): State
    requires s.Valid()
  {
    if s.now % TIMER_FREQ == 0 then
      NextLoadNonNegative(s.load, |s.ready|);
      var load := NextLoad(s.load, |s.ready|);
      s.(load := load, threads := WithCpuRefreshed(s.threads, load, idle))
    else s
  }

  /** Every fourth second: priorities, and the queue in priority order. */
  function Reprioritised(s: State, initial: Tid): State {
    if s.now % (TIMER_FREQ * 4) == 0 then
      var threads := WithPriorityRefreshed(s.threads, s.ready, s.cur, initial);
      s.(threads := threads, ready := Queue(threads, s.ready))
    else s
  }

  /** thread_tick at time now, with the ready list as it stands; the flag asks for a yield on return. */
  function Tick(s: State, idle: Tid, initial: Tid): (State, bool)
    requires s.Valid()
  {
    if s.ready == [] then (s, false)
    else
      var next := s.ready[0];
      var s1 := Refreshed(s, idle);
      var s2 := s1.(threads := Charged(s1.threads, s1.cur));
      var s3 := Reprioritised(s2, initial).(slice := s.slice + 1);
      if s3.slice >= QUANTUM && s3.threads[s3.cur].priority <= s3.threads[next].priority
      then (s3.(ready := Queue(s3.threads, s3.ready)), true)
      else (s3, false)
  }

  /** schedule: the front of the queue, or the idle thread, with a new time slice. */
  function Dispatched(s: State, idle: Tid): State {
    if s.ready == [] then s.(cur := idle, slice := 0)
    else s.(cur := s.ready[0], ready := s.ready[1..], slice := 0)
  }

  /** thread_yield: to the back of the queue, unless idle, and schedule. */
  function Yielded(s: State, idle: Tid): State {
    Dispatched(s.(ready := if s.cur == idle then s.ready else s.ready + [s.cur]), idle)
  }

  /** thread_tick as the kernel runs it, on its own variables. */
  class Scheduler {
    const idle: Tid
    const initial: Tid
    var threads: map<Tid, Thread>
    var all: seq<Tid>
    var ready: seq<Tid>
    var cur: Tid
    var loadAvg: int
    var threadTicks: nat

    ghost function At(now: nat): State
      reads this
    {
      State(now, threads, ready, cur, loadAvg, threadTicks)
    }

    ghost predicate Valid(now: nat)
      reads this
    {
      At(now).Valid() && Distinct(all) && Elements(all) == threads.Keys
    }

    method RefreshLoadAvg()
      modifies this`loadAvg
      ensures loadAvg == NextLoad(old(loadAvg), |ready|)
    {
      loadAvg := AddFp(DivInt(MultInt(loadAvg, 59), 60), DivInt(IntToFp(|ready|), 60));
    }

    method RefreshCpu(t: Tid)
      requires t in threads && loadAvg >= 0
      modifies this`threads
      ensures threads == if t == idle then old(threads)
                         else old(threads)[t := old(threads)[t].(cpu := NextCpu(loadAvg, old(threads)[t].nice, old(threads)[t].cpu))]
    {
      if t != idle {
        var firstTerm := MultInt(loadAvg, 2);
        var secondTerm := AddInt(firstTerm, 1);
        var thirdTerm := DivFp(firstTerm, secondTerm);
        var th := threads[t];
        threads := threads[t := th.(cpu := AddInt(MultFp(thirdTerm, th.cpu), th.nice))];
      }
    }

    method ForeachRefreshCpu()
      requires loadAvg >= 0 && Distinct(all) && Elements(all) == threads.Keys
      modifies this`threads
      ensures threads == WithCpuRefreshed(old(threads), loadAvg, idle)
    {
      ghost var before := threads;
      assert forall j :: 0 <= j < |all| ==> all[j] in Elements(all);
      var i := 0;
      while i < |all|
        invariant i <= |all| && threads.Keys == before.Keys && forall j :: 0 <= j < |all| ==> all[j] in threads
        invariant forall j :: 0 <= j < i ==> threads[all[j]] == WithCpuRefreshed(before, loadAvg, idle)[all[j]]
        invariant forall j :: i <= j < |all| ==> threads[all[j]] == before[all[j]]
      {
        RefreshCpu(all[i]);
        i := i + 1;
      }
      assert forall t | t in threads :: t in Elements(all);
    }

    method RefreshPriorityThread(t: Tid)
      requires t in threads
      modifies this`threads
      ensures threads == old(threads)[t := old(threads)[t].(priority := Priority(old(threads)[t].nice, old(threads)[t].cpu))]
    {
      var th := threads[t];
      var pri := PRI_MAX - FpToIntRound(DivInt(th.cpu, 4)) - th.nice * 2;
      threads := threads[t := th.(priority := pri)];
      if pri > PRI_MAX {
        threads := threads[t := th.(priority := PRI_MAX)];
      } else if pri < PRI_MIN {
        threads := threads[t := th.(priority := PRI_MIN)];
      }
    }

    method RefreshPriority()
      requires cur in threads && Distinct(ready) && cur !in ready && forall t | t in ready :: t in threads
      modifies this`threads
      ensures threads == WithPriorityRefreshed(old(threads), ready, cur, initial)
    {
      ghost var before := threads;
      ghost var after := WithPriorityRefreshed(before, ready, cur, initial);
      var i := 0;
      while i < |ready|
        invariant i <= |ready| && threads.Keys == before.Keys
        invariant forall j :: 0 <= j < i ==> threads[ready[j]] == after[ready[j]]
        invariant forall t | t in threads && t !in ready[..i] :: threads[t] == before[t]
      {
        if ready[i] != initial {
          RefreshPriorityThread(ready[i]);
        }
        assert ready[..i + 1] == ready[..i] + [ready[i]];
        i := i + 1;
      }
      assert ready[..i] == ready;
      RefreshPriorityThread(cur);
    }

    method RefreshStatistics(now: nat)
      requires Valid(now)
      modifies this`threads, this`loadAvg
      ensures Valid(now) && At(now) == Refreshed(old(At(now)), idle)
    {
      if now % TIMER_FREQ == 0 {
        NextLoadNonNegative(loadAvg, |ready|);
        RefreshLoadAvg();
        ForeachRefreshCpu();
      }
    }

    method RecalculatePriorities(now: nat)
      requires Valid(now)
      modifies this`threads, this`ready
      ensures At(now) == Reprioritised(old(At(now)), initial)
      ensures threads.Keys == old(threads.Keys)
    {
      if now % (TIMER_FREQ * 4) == 0 {
        RefreshPriority();
        ready := StableSort(PriorityLess(threads), ready);
      }
    }

    method ThreadTick(now: nat) returns (yieldOnReturn: bool)
      requires Valid(now)
      modifies this`threads, this`ready, this`loadAvg, this`threadTicks
      ensures (At(now), yieldOnReturn) == Tick(old(At(now)), idle, initial)
    {
      hide Refreshed, Reprioritised, StableSort, PriorityLess;
      if ready == [] {
        return false;
      }
      var next := ready[0];
      RefreshStatistics(now);
      threads := threads[cur := threads[cur].(cpu := AddInt(threads[cur].cpu, 1))];
      RecalculatePriorities(now);
      threadTicks := threadTicks + 1;
      yieldOnReturn := threadTicks >= QUANTUM && threads[cur].priority <= threads[next].priority;
      if yieldOnReturn {
        ready := StableSort(PriorityLess(threads), ready);
      }
    }
  }

  lemma QueueElements(threads: map<Tid, Thread>, ready: seq<Tid>)
    requires Distinct(ready)
    ensures Distinct(Queue(threads, ready)) && forall t :: t in Queue(threads, ready) <==> t in ready
  {
    StableSortElements(PriorityLess(threads), ready);
    MultisetDistinct(ready, Queue(threads, ready));
    MultisetElements(ready, Queue(threads, ready));
  }

  /** A tick changes nobody's place among queued, running and known threads. */
  lemma TickKeepsValid(s: State, idle: Tid, initial: Tid)
    requires s.Valid()
    ensures var s' := Tick(s, idle, initial).0;
            s'.Valid() && s'.now == s.now && s'.cur == s.cur && s'.threads.Keys == s.threads.Keys
  {
    hide Queue, PriorityLess;
    if s.ready != [] {
      NextLoadNonNegative(s.load, |s.ready|);
      var s1 := Refreshed(s, idle);
      var s2 := s1.(threads := Charged(s1.threads, s1.cur));
      var s3 := Reprioritised(s2, initial);
      QueueElements(s3.threads, s.ready);
      QueueElements(s3.threads, s3.ready);
    }
  }

  /** The queue after a preempting tick is the priority order of the queue it found, whether it was sorted once or twice. */
  lemma PreemptionQueue(s: State, idle: Tid, initial: Tid)
    requires s.Valid() && Tick(s, idle, initial).1
    ensures var s' := Tick(s, idle, initial).0; s'.ready == Queue(s'.threads, s.ready)
  {
    hide StableSort, PriorityLess, StrictWeak, Distinct;
    var s1 := Refreshed(s, idle);
    var s2 := s1.(threads := Charged(s1.threads, s1.cur));
    var s3 := Reprioritised(s2, initial);
    PriorityLessStrictWeak(s3.threads, Elements(s.ready));
    StableSortIdempotent(PriorityLess(s3.threads), s.ready);
  }

  /** A quantum preemption hands the CPU to a queued thread whose priority is at least that of the
      preempted thread and of everything that was queued; among equals it takes the one queued
      first.  Threads that the same interrupt wakes later cannot get in front of it. */
  lemma PreemptionPicksBest(s: State, idle: Tid, initial: Tid, woken: seq<Tid>)
    requires s.Valid() && Tick(s, idle, initial).1
    ensures var s1 := Tick(s, idle, initial).0;
            var s2 := Yielded(s1.(ready := s1.ready + woken), idle);
            && s2.cur in s.ready && s2.cur in s1.threads && s.cur in s1.threads
            && s1.threads[s2.cur].priority >= s1.threads[s.cur].priority
            && forall t | t in s.ready && t != s2.cur ::
                 && t in s1.threads && s1.threads[s2.cur].priority >= s1.threads[t].priority
                 && (s1.threads[s2.cur].priority == s1.threads[t].priority ==> Rank(s.ready, s2.cur) < Rank(s.ready, t))
  {
    hide StableSort, StrictWeak, Distinct, Reprioritised, Refreshed, Queue;
    var s1 := Tick(s, idle, initial).0;
    TickKeepsValid(s, idle, initial);
    PreemptionQueue(s, idle, initial);
    var less := PriorityLess(s1.threads);
    PriorityLessStrictWeak(s1.threads, Elements(s.ready));
    assert Queue(s1.threads, s.ready) == StableSort(less, s.ready) by { QueueIs(s1.threads, s.ready); }
    StableSortHead(less, s.ready);
    var best := s1.ready[0];
    var s2 := Yielded(s1.(ready := s1.ready + woken), idle);
    assert s2.cur == best;
    var next := s.ready[0];
    assert next in s.ready;
    assert next == best || Precedes(less, Ranks(s.ready), best, next);
    PreemptedBelowNext(s, idle, initial);
    forall t | t in s.ready && t != best
      ensures t in s1.threads && s1.threads[best].priority >= s1.threads[t].priority
      ensures s1.threads[best].priority == s1.threads[t].priority ==> Rank(s.ready, best) < Rank(s.ready, t)
    {
      assert Precedes(less, Ranks(s.ready), best, t);
    }
  }

  lemma QueueIs(threads: map<Tid, Thread>, ready: seq<Tid>)
    ensures Queue(threads, ready) == StableSort(PriorityLess(threads), ready)
  {
  }

  lemma PreemptedBelowNext(s: State, idle: Tid, initial: Tid)
    requires s.Valid() && Tick(s, idle, initial).1
    ensures var s' := Tick(s, idle, initial).0;
            s.ready != [] && s.ready[0] in s'.threads && s'.cur in s'.threads &&
            s'.threads[s'.cur].priority <= s'.threads[s.ready[0]].priority
  {
  }
}
