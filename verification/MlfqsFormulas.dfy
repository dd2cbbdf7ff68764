/** What the priority formula, the decay of recent_cpu and a tick mean (threads/thread.c), said without the fixed-point
    operations that compute them. */
module MlfqsFormulas {
  import opened IntegerDivision
  import opened FixedPoint
  import opened LoadAverage
  import opened RecentCpu
  import opened StableOrder
  import opened Threads
  import opened Mlfqs
  import MlfqsRuns

  // ----- the priority formula

  /** A quarter of cpu, rounded to the nearest integer with halves away from zero, is at most m. */
  predicate QuarterAtMost(cpu: int, m: int) {
    if m >= 0 then cpu < (4 * m + 2) * F else cpu <= (4 * m + 2) * F
  }

  lemma QuarterRounded(cpu: int, m: int)
    ensures FpToIntRound(DivInt(cpu, 4)) <= m <==> QuarterAtMost(cpu, m)
  {
    var x := DivInt(cpu, 4);
    if cpu >= 0 {
      TruncNonNegative(cpu, 4);
      TruncNonNegative(x + F / 2, F);
    } else {
      TruncNegative(cpu, 4);
      if x < 0 {
        TruncNegative(x - F / 2, F);
      }
    }
  }

  /** The priority is at least k exactly when cpu is below a bound that falls by four units for each step of k and by
      eight for each step of nice; this fixes it for every nice and cpu. */
  lemma PriorityIs(nice: int, cpu: int, k: int)
    requires PRI_MIN < k <= PRI_MAX
    ensures Priority(nice, cpu) >= k <==> QuarterAtMost(cpu, PRI_MAX - 2 * nice - k)
  {
    hide FpToIntRound, QuarterAtMost;
    QuarterRounded(cpu, PRI_MAX - 2 * nice - k);
  }

  /** The two ends of the range, and how far a priority between them is from the real formula. */
  lemma PriorityNear(nice: int, cpu: int)
    ensures var p := Priority(nice, cpu);
            && (p == PRI_MAX <==> QuarterAtMost(cpu, -2 * nice))
            && (p == PRI_MIN <==> !QuarterAtMost(cpu, PRI_MAX - 1 - 2 * nice))
            && (PRI_MIN < p < PRI_MAX ==> Abs(cpu - 4 * F * (PRI_MAX - 2 * nice - p)) <= 2 * F)
  {
    hide Priority;
    var p := Priority(nice, cpu);
    PriorityIs(nice, cpu, PRI_MAX);
    PriorityIs(nice, cpu, 1);
    if PRI_MIN < p < PRI_MAX {
      PriorityIs(nice, cpu, p);
      PriorityIs(nice, cpu, p + 1);
    }
  }

  /** A nicer thread, or one that has used more of the processor, has no higher a priority. */
  lemma PriorityFalls(nice: int, cpu: int, nice': int, cpu': int)
    requires nice <= nice' && cpu <= cpu'
    ensures Priority(nice', cpu') <= Priority(nice, cpu)
  {
    hide Priority;
    var p' := Priority(nice', cpu');
    if p' > PRI_MIN {
      PriorityIs(nice', cpu', p');
      PriorityIs(nice, cpu, p');
    }
  }

  /** A thread that has used none of the processor has 63 less twice its nice. */
  lemma PriorityAtRest(nice: int)
    ensures 0 <= 2 * nice <= PRI_MAX ==> Priority(nice, 0) == PRI_MAX - 2 * nice
    ensures Priority(0, 0) == PRI_MAX && (nice < 0 ==> Priority(nice, 0) == PRI_MAX)
  {
    hide Priority;
    PriorityNear(nice, 0);
    PriorityNear(0, 0);
    if 0 < 2 * nice < PRI_MAX {
      PriorityIs(nice, 0, PRI_MAX - 2 * nice);
      PriorityIs(nice, 0, PRI_MAX - 2 * nice + 1);
    }
  }

  // ----- recent_cpu

  /** Apart from nice, a refresh multiplies recent_cpu by 2*load / (2*load + 1), toward zero, and falls short of the exact
      product by less than one unit plus 1/F of recent_cpu. */
  lemma NextCpuIs(load: int, nice: int, cpu: int)
    requires load >= 0
    ensures var m := NextCpu(load, nice, cpu) - nice * F;
            && (cpu >= 0 ==> m >= 0) && (cpu <= 0 ==> m <= 0)
            && 0 <= F * (2 * load * Abs(cpu) - Abs(m) * (2 * load + F)) < (2 * load + F) * (F + Abs(cpu))
  {
    hide Decay, MultFp, TruncDiv;
    DecayIs(load);
    DecayBelowOne(load);
    var D, m := Decay(load), NextCpu(load, nice, cpu) - nice * F;
    assert m == MultFp(D, cpu);
    TruncatedProduct(D, cpu);
    if cpu >= 0 {
      ProductShort(load, D, cpu, m);
    } else {
      ProductShort(load, D, -cpu, -m);
    }
  }

  lemma TruncatedProduct(D: int, cpu: int)
    requires D >= 0
    ensures cpu >= 0 ==> MultFp(D, cpu) == D * cpu / F
    ensures cpu < 0 ==> -MultFp(D, cpu) == D * -cpu / F
  {
    if cpu >= 0 {
      TruncNonNegative(D * cpu, F);
    } else {
      NegatedProduct(D, -cpu);
    }
  }

  lemma NegatedProduct(D: int, c: int)
    requires D >= 0 && c >= 0
    ensures MultFp(D, -c) == -(D * c / F) && D * c >= 0
  {
    assert D * -c == -(D * c);
    if D * c > 0 {
      TruncNegative(D * -c, F);
    } else {
      TruncNonNegative(0, F);
    }
  }

  lemma DecayIs(load: int)
    requires load >= 0
    ensures var y := 2 * load + F; Decay(load) * y <= 2 * load * F < (Decay(load) + 1) * y
  {
    TruncNonNegative(2 * load * F, 2 * load + F);
    DivBounds(2 * load * F, 2 * load + F);
  }

  lemma ProductShort(load: int, D: int, c: int, m: int)
    requires load >= 0 && D >= 0 && c >= 0 && m == D * c / F
    requires var y := 2 * load + F; D * y <= 2 * load * F < (D + 1) * y
    ensures m >= 0 && var y := 2 * load + F; 0 <= F * (2 * load * c - m * y) < y * (F + c)
  {
    var y := 2 * load + F;
    DivBounds(D * c, F);
    MulLeq(m * F, D * c, y);
    MulLeq(D * c, (m + 1) * F - 1, y);
    MulLeq(D * y, 2 * load * F, c);
    MulLeq(2 * load * F, (D + 1) * y, c);
    Regroup(load, D, c, m, y);
  }

  lemma Regroup(load: int, D: int, c: int, m: int, y: int)
    ensures m * F * y == F * (m * y) && D * c * y == D * y * c
    ensures ((m + 1) * F - 1) * y == F * (m * y) + F * y - y
    ensures (D + 1) * y * c == D * y * c + y * c && 2 * load * F * c == F * (2 * load * c)
    ensures F * (2 * load * c - m * y) == F * (2 * load * c) - F * (m * y) && y * (F + c) == F * y + y * c
  {
  }

  // ----- one tick

  /** What becomes of thread x: once a second its recent_cpu moves on, unless it is the idle thread, by the new load_avg; the
      running thread is charged one; and every fourth second the running thread and the queued threads but the
      initial one get the priority that their new recent_cpu gives. */
  predicate ThreadTicked(s: State, load: int, idle: Tid, initial: Tid, x: Tid, after: Thread)
    requires x in s.threads && load >= 0
  {
    var before := s.threads[x];
    && after.nice == before.nice
    && after.cpu == (if s.now % 100 == 0 && x != idle then NextCpu(load, before.nice, before.cpu) else before.cpu)
                    + (if x == s.cur then F else 0)
    && after.priority == if s.now % 400 == 0 && (x == s.cur || (x in s.ready && x != initial))
                         then Priority(after.nice, after.cpu) else before.priority
  }

  /** A tick with threads waiting: load_avg moves on once a second, then each thread by the new load_avg. The running thread
      is to yield exactly when its slice is used up and the thread that was first in the queue has no lower a priority. */
  lemma TickIs(s: State, idle: Tid, initial: Tid)
    requires s.Valid() && s.ready != []
    ensures var (t, yielding) := Tick(s, idle, initial);
            && (t.now, t.cur, t.slice) == (s.now, s.cur, s.slice + 1) && t.threads.Keys == s.threads.Keys && t.load >= 0
            && t.load == (if s.now % 100 == 0 then NextLoad(s.load, |s.ready|) else s.load)
            && (forall x :: x in s.threads ==> ThreadTicked(s, t.load, idle, initial, x, t.threads[x]))
            && (yielding <==> t.slice >= QUANTUM && t.threads[s.cur].priority <= t.threads[s.ready[0]].priority)
  {
    hide NextCpu, NextLoad, Priority, StableSort, PriorityLess, AddInt;
    NextLoadNonNegative(s.load, |s.ready|);
    OneCharge();
  }

  lemma OneCharge()
    ensures forall cpu :: AddInt(cpu, 1) == cpu + F
  {
  }

  /** The queue keeps its threads, and is in priority order after priorities change and before a yield. */
  lemma QueueAfterTick(s: State, idle: Tid, initial: Tid)
    requires s.Valid() && s.ready != []
    ensures var (t, yielding) := Tick(s, idle, initial);
            t.ready == if s.now % 400 == 0 || yielding then StableSort(PriorityLess(t.threads), s.ready) else s.ready
  {
    hide NextCpu, NextLoad, Priority, StableSort, PriorityLess, Charged;
    TickKeys(s, idle, initial);
    var threads := Tick(s, idle, initial).0.threads;
    PriorityLessStrictWeak(threads, Elements(s.ready));
    StableSortIdempotent(PriorityLess(threads), s.ready);
  }

  lemma TickKeys(s: State, idle: Tid, initial: Tid)
    requires s.Valid()
    ensures Tick(s, idle, initial).0.threads.Keys == s.threads.Keys
  {
    hide NextCpu, NextLoad, Priority, StableSort, PriorityLess;
  }

  // ----- a thread's own settings

  /** Setting nice takes effect at once, and a thread cannot choose its priority: whatever it asks for, it gets what its
      nice and recent_cpu give. */
  lemma SettingsTakeEffect(s: State, nice: int, priority: int, idle: Tid, initial: Tid)
    requires s.Valid()
    ensures var t := MlfqsRuns.Next(MlfqsRuns.SetNice(nice), s, idle, initial);
            t.threads[s.cur] == Thread(Priority(nice, s.threads[s.cur].cpu), nice, s.threads[s.cur].cpu)
    ensures MlfqsRuns.Next(MlfqsRuns.SetPriority(priority), s, idle, initial) ==
            MlfqsRuns.Next(MlfqsRuns.SetNice(s.threads[s.cur].nice), s, idle, initial)
  {
    hide Priority;
    var a := MlfqsRuns.Next(MlfqsRuns.SetPriority(priority), s, idle, initial).threads;
    var b := MlfqsRuns.Next(MlfqsRuns.SetNice(s.threads[s.cur].nice), s, idle, initial).threads;
    assert forall t :: t in a ==> t in b && a[t] == b[t];
    assert a == b;
  }

  // ----- a thread's time slice

  /** The ticks with threads waiting since the processor last changed hands. */
  ghost function SinceDispatch(r: MlfqsRuns.Run): nat
    decreases |r.actions|
  {
    if |r.actions| == 0 || |r.states| < 2 then 0
    else
      match r.actions[|r.actions| - 1]
      case Yield => 0
      case Block => 0
      case Exit => 0
      case Ticked => SinceDispatch(r.Earlier()) + if r.states[|r.states| - 2].ready == [] then 0 else 1
      case _ => SinceDispatch(r.Earlier())
  }

  lemma StepSlice(a: MlfqsRuns.Action, s: State, idle: Tid, initial: Tid)
    requires s.Valid()
    ensures MlfqsRuns.Next(a, s, idle, initial).slice ==
            if a.Yield? || a.Block? || a.Exit? then 0 else s.slice + if a.Ticked? && s.ready != [] then 1 else 0
  {
    hide Refreshed, Queue, Priority;
    if a.Ticked? && s.ready != [] {
      TickIs(s.(now := s.now + 1), idle, initial);
    }
  }

  /** In every run thread_ticks counts the ticks with threads waiting since the processor last changed hands, so no tick
      asks a thread to yield before its time slice is used up. */
  lemma {:induction false} SliceInEveryRun(r: MlfqsRuns.Run, idle: Tid, initial: Tid)
    requires r.Valid(idle, initial) && r.states[0].slice == 0
    ensures r.Last().slice == SinceDispatch(r)
    ensures Tick(r.Last().(now := r.Last().now + 1), idle, initial).1 ==> SinceDispatch(r) + 1 >= QUANTUM
    decreases |r.actions|
  {
    hide Tick, MlfqsRuns.Next;
    if |r.actions| > 0 {
      MlfqsRuns.EarlierValid(r, idle, initial);
      SliceInEveryRun(r.Earlier(), idle, initial);
      StepSlice(r.actions[|r.actions| - 1], r.Earlier().Last(), idle, initial);
    }
    if Tick(r.Last().(now := r.Last().now + 1), idle, initial).1 {
      AskedToYield(r.Last().(now := r.Last().now + 1), idle, initial);
    }
  }

  lemma AskedToYield(s: State, idle: Tid, initial: Tid)
    requires s.Valid() && Tick(s, idle, initial).1
    ensures s.slice + 1 >= QUANTUM
  {
    hide Refreshed, Queue, Priority;
  }
}
