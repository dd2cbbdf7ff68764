/** CPU accounting over whole runs of the multi-level feedback queue scheduler: timer ticks
    interleaved with anything else the kernel does to queues and threads. */
module MlfqsRuns {
  import opened FixedPoint
  import opened LoadAverage
  import opened RecentCpu
  import opened StableOrder
  import opened Mlfqs
  import opened Threads

  /** A tick, or what the kernel does between ticks: the running thread yields, blocks, exits, or sets its nice value or
      priority; a blocked thread is woken; a thread is created, blocked at first. */
  datatype Action =
    | Ticked
    | Yield
    | Block
    | Unblock(t: Tid)
    | Create(t: Tid, priority: int)
    | Exit
    | SetNice(nice: int)
    | SetPriority(priority: int)

  /** The idle thread is always known and never queued. */
  ghost predicate Sound(s: State, idle: Tid) {
    s.Valid() && idle in s.threads && idle !in s.ready
  }

  predicate Enabled(a: Action, s: State, idle: Tid) {
    match a
    case Unblock(t) => t in s.threads && t !in s.ready && t != s.cur && t != idle
    case Create(t, priority) => t !in s.threads && PRI_MIN <= priority <= PRI_MAX
    case Exit => s.cur != idle
    case _ => true
  }

  function Next(a: Action, s: State, idle: Tid, initial: Tid): State
    requires s.Valid()
  {
    match a
    case Ticked => Tick(s.(now := s.now + 1), idle, initial).0
    case Yield => Yielded(s, idle)
    case Block => Dispatched(s, idle)
    case Unblock(t) => s.(ready := s.ready + [t])
    case Create(t, priority) => s.(threads := s.threads[t := Thread(priority, 0, 0)])
    case Exit => Dispatched(s.(threads := s.threads - {s.cur}), idle)
    case SetNice(nice) => Reset(s, s.threads[s.cur].(nice := nice), initial)
    case SetPriority(priority) => Reset(s, s.threads[s.cur].(priority := priority), initial)
  }

  /** The running thread's record replaced, and refresh_priority. */
  function Reset(s: State, thread: Thread, initial: Tid): State {
    s.(threads := WithPriorityRefreshed(s.threads[s.cur := thread], s.ready, s.cur, initial))
  }

  ghost predicate Step(a: Action, s: State, s': State, idle: Tid, initial: Tid)
    requires s.Valid()
  {
    Enabled(a, s, idle) && s' == Next(a, s, idle, initial)
  }

  lemma DispatchSound(s: State, idle: Tid)
    requires Distinct(s.ready) && (forall t | t in s.ready :: t in s.threads) && s.load >= 0
    requires idle in s.threads && idle !in s.ready
    ensures Sound(Dispatched(s, idle), idle)
  {
    if s.ready != [] {
      assert s.ready[0] in s.ready && forall t | t in s.ready[1..] :: t in s.ready;
    }
  }

  /** Steps lead from sound states to sound states. */
  lemma StepSound(a: Action, s: State, s': State, idle: Tid, initial: Tid)
    requires Sound(s, idle) && Step(a, s, s', idle, initial)
    ensures Sound(s', idle)
  {
    hide Tick, Dispatched, Priority, Distinct;
    match a
    case Ticked =>
      TickKeepsValid(s.(now := s.now + 1), idle, initial);
      TickQueue(s.(now := s.now + 1), idle, initial);
    case Yield =>
      var ready := if s.cur == idle then s.ready else s.ready + [s.cur];
      DistinctLast(s.ready, s.cur);
      DispatchSound(s.(ready := ready), idle);
    case Block => DispatchSound(s, idle);
    case Exit => DispatchSound(s.(threads := s.threads - {s.cur}), idle);
    case Unblock(t) => DistinctLast(s.ready, t);
    case _ =>
  }

  lemma DistinctLast(ready: seq<Tid>, t: Tid)
    requires Distinct(ready) && t !in ready
    ensures Distinct(ready + [t])
  {
  }

  lemma TickQueue(s: State, idle: Tid, initial: Tid)
    requires s.Valid()
    ensures forall t :: t in Tick(s, idle, initial).0.ready <==> t in s.ready
  {
    hide Queue;
    if s.ready != [] {
      var s1 := Refreshed(s, idle);
      var s2 := s1.(threads := Charged(s1.threads, s1.cur));
      var s3 := Reprioritised(s2, initial);
      QueueElements(s3.threads, s.ready);
      QueueElements(s3.threads, s3.ready);
    }
  }

  /** Between ticks nothing touches load_avg or recent_cpu, which starts at zero. */
  lemma OtherStep(a: Action, s: State, s': State, idle: Tid, initial: Tid)
    requires s.Valid() && Step(a, s, s', idle, initial) && !a.Ticked?
    ensures s'.now == s.now && s'.load == s.load
    ensures forall t | t in s'.threads :: s'.threads[t].cpu == if t in s.threads then s.threads[t].cpu else 0
  {
  }

  ghost predicate LightState(s: State, n: nat) {
    |s.ready| <= n && forall t | t in s.threads :: -NICE_MAX <= s.threads[t].nice <= NICE_MAX
  }

  /** Ticks charged to a thread since the last refresh, counting the refreshing tick itself. */
  ghost function NowCharged(a: Action, s: State, s': State, charged: nat): nat {
    if !a.Ticked? || s.ready == [] then charged
    else if s'.now % TIMER_FREQ == 0 then 1
    else charged + 1
  }

  datatype Run = Run(states: seq<State>, actions: seq<Action>) {
    ghost predicate Valid(idle: Tid, initial: Tid)
      ensures Valid(idle, initial) ==> |states| == |actions| + 1
    {
      && |states| == |actions| + 1
      && idle != initial && initial in states[0].threads
      && (forall i :: 0 <= i < |states| ==> Sound(states[i], idle))
      && states[0].now == 0 && states[0].load == 0
      && (forall t | t in states[0].threads :: states[0].threads[t].cpu == 0)
      && (forall i :: 0 <= i < |actions| ==> Step(actions[i], states[i], states[i + 1], idle, initial))
    }

    function Last(): State
      requires |states| > 0
    {
      states[|states| - 1]
    }

    function Earlier(): Run
      requires |states| > 0 && |actions| > 0
    {
      Run(states[..|states| - 1], actions[..|actions| - 1])
    }

    ghost function SinceRefresh(): nat
      decreases |actions|
    {
      if |actions| == 0 || |states| < 2 then 0
      else NowCharged(actions[|actions| - 1], states[|states| - 2], Last(), Earlier().SinceRefresh())
    }

    /** In every state at most n threads are ready and nice values are in range. */
    ghost predicate Loaded(n: nat) {
      forall i :: 0 <= i < |states| ==> LightState(states[i], n)
    }

    /** Whenever a second is up, some thread is ready. */
    ghost predicate BusyEverySecond() {
      forall i :: 0 <= i < |actions| && i + 1 < |states| && actions[i].Ticked? && states[i + 1].now % TIMER_FREQ == 0 ==>
        states[i].ready != []
    }

    ghost predicate ChargedAtMost(c: nat)
      decreases |actions|
    {
      SinceRefresh() <= c && (|actions| > 0 && |states| > 0 ==> Earlier().ChargedAtMost(c))
    }
  }

  lemma EarlierValid(r: Run, idle: Tid, initial: Tid)
    requires r.Valid(idle, initial) && |r.actions| > 0
    ensures r.Earlier().Valid(idle, initial)
    ensures forall n :: r.Loaded(n) ==> r.Earlier().Loaded(n)
    ensures r.BusyEverySecond() ==> r.Earlier().BusyEverySecond()
    ensures Step(r.actions[|r.actions| - 1], r.Earlier().Last(), r.Last(), idle, initial)
  {
    hide Step, State.Valid, LightState;
    var e := r.Earlier();
    assert forall i :: 0 <= i < |e.states| ==> e.states[i] == r.states[i];
    assert forall i :: 0 <= i < |e.actions| ==> e.actions[i] == r.actions[i];
  }

  /** The bounds every thread but the idle one keeps. */
  ghost predicate Bounded(s: State, n: nat, c: nat, charged: nat, idle: Tid) {
    && 0 <= s.load <= n * F
    && (forall t | t in s.threads && t != idle :: CpuLow(n) <= s.threads[t].cpu <= CpuHigh(n, c, charged))
  }

  lemma RefreshBounded(s: State, n: nat, c: nat, charged: nat, idle: Tid)
    requires s.Valid() && Bounded(s, n, c, charged, idle) && LightState(s, n) && charged <= c
    ensures Bounded(Refreshed(s, idle), n, c, if s.now % TIMER_FREQ == 0 then 0 else charged, idle)
  {
    if s.now % TIMER_FREQ == 0 {
      NextLoadIs(s.load, |s.ready|);
      var s' := Refreshed(s, idle);
      forall t | t in s'.threads && t != idle ensures CpuLow(n) <= s'.threads[t].cpu <= CpuHigh(n, c, 0) {
        HighMonotone(n, c, charged);
        NextCpuBounded(s'.load, s.threads[t].nice, s.threads[t].cpu, n, c);
      }
    }
  }

  lemma HighMonotone(n: nat, c: nat, charged: nat)
    requires charged <= c
    ensures CpuHigh(n, c, charged) <= CpuHigh(n, c, c)
  {
  }

  lemma TickBounded(s: State, n: nat, c: nat, charged: nat, idle: Tid, initial: Tid)
    requires s.Valid() && Bounded(s, n, c, charged, idle) && LightState(s, n) && charged <= c && s.ready != []
    ensures Bounded(Tick(s, idle, initial).0, n, c, if s.now % TIMER_FREQ == 0 then 1 else charged + 1, idle)
  {
    hide Queue;
    RefreshBounded(s, n, c, charged, idle);
  }

  lemma StepBounded(a: Action, s: State, s': State, n: nat, c: nat, charged: nat, idle: Tid, initial: Tid)
    requires s.Valid() && Bounded(s, n, c, charged, idle) && LightState(s, n) && charged <= c
    requires Step(a, s, s', idle, initial)
    ensures Bounded(s', n, c, NowCharged(a, s, s', charged), idle)
  {
    hide Tick, Bounded, Next;
    if a.Ticked? {
      var ticked := s.(now := s.now + 1);
      BoundedAt(s, ticked, n, c, charged, idle);
      NextTicked(s, idle, initial);
      if s.ready == [] {
        IdleTick(ticked, idle, initial);
      } else {
        TickKeepsValid(ticked, idle, initial);
        TickBounded(ticked, n, c, charged, idle, initial);
      }
    } else {
      OtherBounded(a, s, s', n, c, charged, idle, initial);
    }
  }

  lemma NextTicked(s: State, idle: Tid, initial: Tid)
    requires s.Valid()
    ensures Next(Ticked, s, idle, initial) == Tick(s.(now := s.now + 1), idle, initial).0
  {
    hide Tick, Yielded, Dispatched, Reset;
  }

  /** While at most n threads are ready and at most c ticks are charged between refreshes, whatever c is, recent_cpu stays
      within its bounds in every state of every run. */
  lemma {:induction false} CpuBoundedRun(r: Run, n: nat, c: nat, idle: Tid, initial: Tid)
    requires r.Valid(idle, initial) && r.Loaded(n) && r.ChargedAtMost(c)
    ensures Bounded(r.Last(), n, c, r.SinceRefresh(), idle)
    ensures n <= 545 && c <= 100 ==> forall t | t in r.Last().threads && t != idle :: Int32(r.Last().threads[t].cpu)
    decreases |r.actions|
  {
    if |r.actions| > 0 {
      hide Step, Bounded, LightState, State.Valid, NowCharged;
      EarlierValid(r, idle, initial);
      var e := r.Earlier();
      CpuBoundedRun(e, n, c, idle, initial);
      assert e.Last() == r.states[|r.actions| - 1];
      StepBounded(r.actions[|r.actions| - 1], e.Last(), r.Last(), n, c, e.SinceRefresh(), idle, initial);
    } else {
      StartBounded(r, n, c, idle, initial);
    }
    BoundedFits(r.Last(), n, c, r.SinceRefresh(), idle);
  }

  lemma StartBounded(r: Run, n: nat, c: nat, idle: Tid, initial: Tid)
    requires r.Valid(idle, initial) && |r.actions| == 0
    ensures Bounded(r.Last(), n, c, 0, idle)
  {
    HighAtMost(n, c);
  }

  lemma IdleTick(s: State, idle: Tid, initial: Tid)
    requires s.Valid() && s.ready == []
    ensures Tick(s, idle, initial).0 == s
  {
  }

  lemma BoundedAt(s: State, s': State, n: nat, c: nat, charged: nat, idle: Tid)
    requires Bounded(s, n, c, charged, idle) && s' == s.(now := s'.now)
    ensures Bounded(s', n, c, charged, idle)
  {
  }

  lemma OtherBounded(a: Action, s: State, s': State, n: nat, c: nat, charged: nat, idle: Tid, initial: Tid)
    requires s.Valid() && Bounded(s, n, c, charged, idle) && Step(a, s, s', idle, initial) && !a.Ticked?
    ensures Bounded(s', n, c, charged, idle)
  {
    hide Step;
    OtherStep(a, s, s', idle, initial);
    HighAtMost(n, c);
  }

  lemma BoundedFits(s: State, n: nat, c: nat, charged: nat, idle: Tid)
    requires Bounded(s, n, c, charged, idle) && charged <= c
    ensures n <= 545 && c <= 100 ==> forall t | t in s.threads && t != idle :: Int32(s.threads[t].cpu)
  {
    HighAtMost(n, c);
  }

  lemma StepNow(a: Action, s: State, s': State, idle: Tid, initial: Tid)
    requires s.Valid() && Step(a, s, s', idle, initial)
    ensures s'.now == if a.Ticked? then s.now + 1 else s.now
  {
    hide Tick;
    if a.Ticked? {
      TickKeepsValid(s.(now := s.now + 1), idle, initial);
    } else {
      OtherStep(a, s, s', idle, initial);
    }
  }

  /** How the count of charged ticks moves in one step of a busy run. */
  lemma SinceRefreshStep(r: Run, idle: Tid, initial: Tid)
    requires r.Valid(idle, initial) && r.BusyEverySecond() && |r.actions| > 0
    ensures var last := |r.actions| - 1;
            var now := r.Earlier().Last().now;
            var before := r.Earlier().SinceRefresh();
            && r.Last().now == (if r.actions[last].Ticked? then now + 1 else now)
            && r.SinceRefresh() <= (if r.actions[last].Ticked? then before + 1 else before)
            && (r.actions[last].Ticked? && (now + 1) % TIMER_FREQ == 0 ==> r.SinceRefresh() <= 1)
  {
    hide Step;
    EarlierValid(r, idle, initial);
    var last := |r.actions| - 1;
    StepNow(r.actions[last], r.Earlier().Last(), r.Last(), idle, initial);
  }

  /** If some thread is ready every time a second is up, at most 100 ticks are charged between refreshes. */
  lemma {:induction false} BusyRunsAreRefreshed(r: Run, idle: Tid, initial: Tid)
    requires r.Valid(idle, initial) && r.BusyEverySecond()
    ensures r.SinceRefresh() <= r.Last().now % TIMER_FREQ + 1 && r.ChargedAtMost(100)
    decreases |r.actions|
  {
    hide Run.Valid, Run.BusyEverySecond, Run.SinceRefresh;
    if |r.actions| > 0 {
      EarlierValid(r, idle, initial);
      BusyRunsAreRefreshed(r.Earlier(), idle, initial);
      SinceRefreshStep(r, idle, initial);
    } else {
      NothingCharged(r);
    }
  }

  lemma NothingCharged(r: Run)
    requires |r.actions| == 0
    ensures r.SinceRefresh() == 0
  {
  }

  // ----- missed seconds

  /** Thread 0 is charged for c ticks; thread 1, the idle thread 2 and the initial thread 3 for none. */
  function MissedThreads(c: nat): map<Tid, Thread> {
    map[0 := Thread(PRI_MAX, 0, c * F), 1 := Thread(PRI_MIN, 0, 0), 2 := Thread(PRI_MIN, 0, 0), 3 := Thread(PRI_MIN, 0, 0)]
  }

  function ChargedOf(i: nat): nat { i - i / 100 }

  /** The state after i ticks, before the next: thread 0 runs, and thread 1 is ready but when the next tick ends a second. */
  function MissedSeconds(i: nat): State {
    if (i + 1) % 100 == 0 then State(i, MissedThreads(ChargedOf(i)), [], 0, 0, 0)
    else State(i, MissedThreads(ChargedOf(i)), [1], 0, 0, i % 100)
  }

  lemma ChargedOfNext(i: nat)
    ensures ChargedOf(i + 1) == if (i + 1) % 100 == 0 then ChargedOf(i) else ChargedOf(i) + 1
  {
  }

  lemma MissedSecondsSound(i: nat)
    ensures Sound(MissedSeconds(i), 2) && LightState(MissedSeconds(i), 1)
  {
  }

  lemma MissedSecondsStart()
    ensures var r := Run([MissedSeconds(0)], []); r.Valid(2, 3) && r.Loaded(1) && r.Last() == MissedSeconds(0)
  {
  }

  /** A tick at which nothing is due and the running thread outranks the queue only charges it. */
  lemma PlainTick(s: State, idle: Tid, initial: Tid)
    requires s.Valid() && s.ready != [] && s.now % 100 != 0 && s.ready[0] != s.cur
    requires s.threads[s.cur].priority > s.threads[s.ready[0]].priority
    ensures Tick(s, idle, initial).0 == s.(threads := Charged(s.threads, s.cur), slice := s.slice + 1)
  {
    hide Queue;
    assert Refreshed(s, idle) == s;
    assert s.now % 400 != 0;
  }

  lemma MissedThreadsCharged(c: nat)
    ensures Charged(MissedThreads(c), 0) == MissedThreads(c + 1)
  {
    assert AddInt(c * F, 1) == (c + 1) * F;
  }

  /** The state right after the tick numbered i + 1. */
  function AfterTick(i: nat): State {
    MissedSeconds(i).(now := i + 1, threads := MissedThreads(ChargedOf(i + 1)),
                      slice := if (i + 1) % 100 == 0 then 0 else i % 100 + 1)
  }

  lemma MissedSecondsTick(i: nat)
    requires MissedSeconds(i).Valid()
    ensures Step(Ticked, MissedSeconds(i), AfterTick(i), 2, 3)
  {
    hide Tick, Charged, MissedThreads, ChargedOf, State.Valid;
    var s := MissedSeconds(i).(now := i + 1);
    ChargedOfNext(i);
    NextTicked(MissedSeconds(i), 2, 3);
    TickedFacts(i);
    if (i + 1) % 100 == 0 {
      IdleTick(s, 2, 3);
    } else {
      PlainTick(s, 2, 3);
      MissedThreadsCharged(ChargedOf(i));
    }
  }

  lemma TickedFacts(i: nat)
    ensures var s := MissedSeconds(i).(now := i + 1);
            s.Valid() && 0 in s.threads && 1 in s.threads && s.threads[0].priority > s.threads[1].priority
  {
  }

  lemma AppendStep(r: Run, a: Action, s: State, n: nat, idle: Tid, initial: Tid)
    requires r.Valid(idle, initial) && r.Loaded(n)
    requires Sound(s, idle) && LightState(s, n) && Step(a, r.Last(), s, idle, initial)
    ensures var r' := Run(r.states + [s], r.actions + [a]); r'.Valid(idle, initial) && r'.Loaded(n) && r'.Last() == s
  {
    hide Step, Sound, LightState;
  }

  /** Just before a second is up thread 0 blocks, thread 1 runs, wakes it and blocks: nobody is ready, and the time slice
      has started again. Just after, thread 1 is woken. */
  lemma SwitchSteps(i: nat)
    ensures var s := AfterTick(i);
            && ((i + 2) % 100 == 0 ==>
                  && s.Valid() && s.(cur := 1, ready := [], slice := 0).Valid() && s.(cur := 1, ready := [0], slice := 0).Valid()
                  && Step(Block, s, s.(cur := 1, ready := [], slice := 0), 2, 3)
                  && Step(Unblock(0), s.(cur := 1, ready := [], slice := 0), s.(cur := 1, ready := [0], slice := 0), 2, 3)
                  && Step(Block, s.(cur := 1, ready := [0], slice := 0), MissedSeconds(i + 1), 2, 3))
            && ((i + 1) % 100 == 0 ==> s.Valid() && Step(Unblock(1), s, MissedSeconds(i + 1), 2, 3))
            && ((i + 2) % 100 != 0 && (i + 1) % 100 != 0 ==> s == MissedSeconds(i + 1))
  {
    hide ChargedOf;
  }

  lemma AfterTickSound(i: nat)
    ensures var s := AfterTick(i);
            && Sound(s, 2) && LightState(s, 1)
            && Sound(s.(cur := 1, ready := [], slice := 0), 2) && LightState(s.(cur := 1, ready := [], slice := 0), 1)
            && Sound(s.(cur := 1, ready := [0], slice := 0), 2) && LightState(s.(cur := 1, ready := [0], slice := 0), 1)
  {
  }

  lemma {:induction false} MissedSecondsRun(i: nat) returns (r: Run)
    ensures r.Valid(2, 3) && r.Loaded(1) && r.Last() == MissedSeconds(i)
  {
    hide *;
    MissedSecondsSound(i);
    if i == 0 {
      MissedSecondsStart();
      r := Run([MissedSeconds(0)], []);
    } else {
      r := MissedSecondsRun(i - 1);
      r := SecondSteps(r, i - 1);
    }
  }

  /** One more tick, and the switches after it. */
  lemma SecondSteps(r0: Run, i: nat) returns (r: Run)
    requires r0.Valid(2, 3) && r0.Loaded(1) && r0.Last() == MissedSeconds(i)
    ensures r.Valid(2, 3) && r.Loaded(1) && r.Last() == MissedSeconds(i + 1)
  {
    hide Run.Valid, Run.Loaded, Step, Sound, LightState, MissedSeconds, AfterTick;
    var s := AfterTick(i);
    MissedSecondsSound(i);
    SoundValid(MissedSeconds(i), 2);
    MissedSecondsTick(i);
    AfterTickSound(i);
    MissedSecondsSound(i + 1);
    SwitchSteps(i);
    AppendStep(r0, Ticked, s, 1, 2, 3);
    r := Run(r0.states + [s], r0.actions + [Ticked]);
    if (i + 2) % 100 == 0 {
      var t, u, v := s.(cur := 1, ready := [], slice := 0), s.(cur := 1, ready := [0], slice := 0), MissedSeconds(i + 1);
      AppendStep(r, Block, t, 1, 2, 3);
      r := Run(r.states + [t], r.actions + [Block]);
      AppendStep(r, Unblock(0), u, 1, 2, 3);
      r := Run(r.states + [u], r.actions + [Unblock(0)]);
      AppendStep(r, Block, v, 1, 2, 3);
      r := Run(r.states + [v], r.actions + [Block]);
    } else if (i + 1) % 100 == 0 {
      AppendStep(r, Unblock(1), MissedSeconds(i + 1), 1, 2, 3);
      r := Run(r.states + [MissedSeconds(i + 1)], r.actions + [Unblock(1)]);
    }
  }

  lemma SoundValid(s: State, idle: Tid)
    ensures Sound(s, idle) ==> s.Valid()
  {
  }

  /** If the ready list may be empty whenever a second is up, one ready thread is enough to drive recent_cpu past any bound:
      the refresh is skipped but the charging is not. */
  lemma CpuUnboundedWhenSecondsAreMissed(k: nat) returns (r: Run)
    ensures r.Valid(2, 3) && r.Loaded(1)
    ensures 0 in r.Last().threads && r.Last().threads[0].cpu >= k * F
  {
    r := MissedSecondsRun(2 * k);
  }
}
