/** The shortest-job-first policy: run-time estimates kept per thread name in all_all_list, and the
    choice made when a thread exits (threads/thread.c).  Under this policy exited threads are never
    freed, so a record stays readable after its thread is gone. */
module Sjf {
  import opened Options
  import opened FixedPoint
  import opened StableOrder
  import opened Lists
  import opened Threads

  datatype Thread = Thread(name: string, total: int, current: int)

  /** calc_new_total_exec's new estimate: half the old one and half the latest run, or the latest
      run alone when there was no estimate. */
  function NewEstimate(previous: int, recent: int): int {
    if previous == 0 then recent
    else
      var alpha := DivInt(IntToFp(1), 2);
      FpToIntRound(AddFp(MultInt(alpha, recent), MultInt(SubFp(IntToFp(1), alpha), previous)))
  }

  /** The average, halves rounded up. */
  lemma NewEstimateIs(previous: nat, recent: nat)
    ensures NewEstimate(previous, recent) == if previous == 0 then recent else (previous + recent + 1) / 2
  {
    TruncNonNegative(IntToFp(1), 2);
    var x := 8192 * recent + 8192 * previous;
    TruncNonNegative(x + F / 2, F);
  }

  /** Index of the first record with this name, or |records|. */
  function Lookup(threads: map<Tid, Thread>, records: seq<Tid>, name: string): (i: nat)
    requires forall r | r in records :: r in threads
    ensures i <= |records|
    ensures i < |records| ==> threads[records[i]].name == name
    ensures forall j :: 0 <= j < i ==> threads[records[j]].name != name
  {
    if records == [] then 0
    else if threads[records[0]].name == name then 0
    else 1 + Lookup(threads, records[1..], name)
  }

  /** The estimate on record for a name. */
  function Estimate(threads: map<Tid, Thread>, records: seq<Tid>, name: string): int
    requires forall r | r in records :: r in threads
  {
    var i := Lookup(threads, records, name);
    if i < |records| then threads[records[i]].total else 0
  }

  ghost predicate Recorded(threads: map<Tid, Thread>, records: seq<Tid>, name: string) {
    exists r | r in records && r in threads :: threads[r].name == name
  }

  /** At most one record per name. */
  ghost predicate RecordsUnique(threads: map<Tid, Thread>, records: seq<Tid>)
    ensures RecordsUnique(threads, records) ==> forall r | r in records :: r in threads
  {
    && (forall r | r in records :: r in threads)
    && (forall i, j :: 0 <= i < j < |records| ==> threads[records[i]].name != threads[records[j]].name)
  }

  /** ... and every live thread carries its record's estimate. */
  ghost predicate Consistent(threads: map<Tid, Thread>, all: seq<Tid>, records: seq<Tid>) {
    && RecordsUnique(threads, records)
    && (forall t | t in all :: t in threads)
    && (forall t | t in all :: Recorded(threads, records, threads[t].name))
    && (forall t | t in all :: threads[t].total == Estimate(threads, records, threads[t].name))
  }

  /** A record answers for its own name. */
  lemma RecordIsEstimate(threads: map<Tid, Thread>, records: seq<Tid>, r: Tid)
    requires RecordsUnique(threads, records) && r in records
    ensures Estimate(threads, records, threads[r].name) == threads[r].total
  {
    var i := Lookup(threads, records, threads[r].name);
    var j :| 0 <= j < |records| && records[j] == r;
    assert i == j;
  }

  /** Estimates depend only on the records. */
  lemma EstimateFrame(threads: map<Tid, Thread>, threads': map<Tid, Thread>, records: seq<Tid>, name: string)
    requires forall r | r in records :: r in threads && r in threads'
    requires forall r | r in records :: threads[r].name == threads'[r].name && threads[r].total == threads'[r].total
    ensures Estimate(threads, records, name) == Estimate(threads', records, name)
  {
    LookupFrame(threads, threads', records, name);
  }

  lemma {:induction false} LookupFrame(threads: map<Tid, Thread>, threads': map<Tid, Thread>, records: seq<Tid>, name: string)
    requires forall r | r in records :: r in threads && r in threads' && threads[r].name == threads'[r].name
    ensures Lookup(threads, records, name) == Lookup(threads', records, name)
  {
    if records != [] {
      LookupFrame(threads, threads', records[1..], name);
    }
  }

  /** thread_foreach (get_total_exec_each), when every live name has its record. */
  function WithEstimates(threads: map<Tid, Thread>, all: seq<Tid>, records: seq<Tid>): map<Tid, Thread>
    requires forall r | r in records :: r in threads
  {
    map t | t in threads :: if t in all then threads[t].(total := Estimate(threads, records, threads[t].name)) else threads[t]
  }

  lemma WithEstimatesAt(threads: map<Tid, Thread>, all: seq<Tid>, records: seq<Tid>)
    requires forall r | r in records :: r in threads
    ensures var after := WithEstimates(threads, all, records);
            && after.Keys == threads.Keys
            && (forall t | t in threads && t !in all :: after[t] == threads[t])
            && (forall t | t in threads && t in all :: after[t] == threads[t].(total := Estimate(threads, records, threads[t].name)))
  {
  }

  /** all_all_list after get_total_exec has looked up the fresh thread t. */
  ghost function RecordsWith(threads: map<Tid, Thread>, records: seq<Tid>, t: Tid, name: string): seq<Tid> {
    if Recorded(threads, records, name) then records else records + [t]
  }

  lemma InitUnique(threads: map<Tid, Thread>, records: seq<Tid>, t: Tid, th: Thread)
    requires RecordsUnique(threads, records) && t !in threads
    ensures RecordsUnique(threads[t := th], RecordsWith(threads, records, t, th.name))
  {
    if !Recorded(threads, records, th.name) {
      forall i | 0 <= i < |records| ensures threads[records[i]].name != th.name {
        assert records[i] in records;
      }
    }
  }

  /** No name's estimate changes, and the fresh thread's name is on record. */
  lemma InitEstimate(threads: map<Tid, Thread>, records: seq<Tid>, t: Tid, th: Thread, name: string)
    requires RecordsUnique(threads, records) && t !in threads && th.total == Estimate(threads, records, th.name)
    requires RecordsUnique(threads[t := th], RecordsWith(threads, records, t, th.name))
    requires Recorded(threads, records, name) || name == th.name
    ensures var records' := RecordsWith(threads, records, t, th.name);
            Recorded(threads[t := th], records', name) &&
            Estimate(threads[t := th], records', name) == Estimate(threads, records, name)
  {
    hide Estimate, Lookup, RecordsUnique;
    var threads', records' := threads[t := th], RecordsWith(threads, records, t, th.name);
    if Recorded(threads, records, name) {
      var r :| r in records && r in threads && threads[r].name == name;
      assert r in records' && threads'[r] == threads[r];
      RecordIsEstimate(threads, records, r);
      RecordIsEstimate(threads', records', r);
    } else {
      assert t in records';
      RecordIsEstimate(threads', records', t);
    }
  }

  /** init_thread's effect on a fresh thread t. */
  lemma InitConsistent(threads: map<Tid, Thread>, all: seq<Tid>, records: seq<Tid>, t: Tid, th: Thread)
    requires Consistent(threads, all, records) && t !in threads
    requires th.total == Estimate(threads, records, th.name)
    ensures Consistent(threads[t := th], all + [t], RecordsWith(threads, records, t, th.name))
  {
    hide Estimate, Recorded, RecordsWith, RecordsUnique;
    var threads' := threads[t := th];
    InitUnique(threads, records, t, th);
    forall u | u in all + [t]
      ensures u in threads' && Recorded(threads', RecordsWith(threads, records, t, th.name), threads'[u].name)
      ensures threads'[u].total == Estimate(threads', RecordsWith(threads, records, t, th.name), threads'[u].name)
    {
      InitEstimate(threads, records, t, th, threads'[u].name);
    }
  }

  /** Refreshing the estimates of all live threads makes them agree with the records again. */
  lemma WithEstimatesConsistent(threads: map<Tid, Thread>, all: seq<Tid>, records: seq<Tid>)
    requires RecordsUnique(threads, records)
    requires forall t | t in all :: t in threads && Recorded(threads, records, threads[t].name)
    ensures Consistent(WithEstimates(threads, all, records), all, records)
    ensures forall r | r in records :: WithEstimates(threads, all, records)[r].total == threads[r].total
  {
    var threads' := WithEstimates(threads, all, records);
    forall r | r in records ensures r in threads' && threads'[r].name == threads[r].name && threads'[r].total == threads[r].total {
      RecordIsEstimate(threads, records, r);
    }
    forall t | t in all
      ensures Recorded(threads', records, threads'[t].name)
      ensures threads'[t].total == Estimate(threads', records, threads'[t].name)
    {
      var r :| r in records && r in threads && threads[r].name == threads[t].name;
      EstimateFrame(threads, threads', records, threads[t].name);
    }
  }

  /** duration_cmp. */
  function DurationLess(threads: map<Tid, Thread>): (Tid, Tid) -> bool {
    (a, b) => a in threads && b in threads && threads[a].total < threads[b].total
  }

  lemma DurationLessStrictWeak(threads: map<Tid, Thread>, S: set<Tid>)
    requires S <= threads.Keys
    ensures StrictWeak(DurationLess(threads), S)
  {
  }

  /** The estimates an exit of `cur` leaves behind. */
  function AfterExit(threads: map<Tid, Thread>, all: seq<Tid>, records: seq<Tid>, cur: Tid): map<Tid, Thread>
    requires cur in threads && forall r | r in records :: r in threads
  {
    WithEstimates(threads[cur := threads[cur].(total := NewEstimate(threads[cur].total, threads[cur].current))], all, records)
  }

  lemma FewerConsistent(threads: map<Tid, Thread>, all: seq<Tid>, all': seq<Tid>, records: seq<Tid>)
    requires Consistent(threads, all, records) && forall t | t in all' :: t in all
    ensures Consistent(threads, all', records)
  {
  }

  /** The sorted queue: same threads, shortest estimate first, ties in queue order. */
  lemma SortedQueue(threads: map<Tid, Thread>, ready: seq<Tid>)
    requires Distinct(ready) && forall t | t in ready :: t in threads
    ensures var queue := StableSort(DurationLess(threads), ready);
            && Distinct(queue) && |queue| == |ready| && (forall t :: t in queue <==> t in ready)
            && (forall t | t in ready && t != queue[0] ::
                  threads[queue[0]].total < threads[t].total ||
                  (threads[queue[0]].total == threads[t].total && Rank(ready, queue[0]) < Rank(ready, t)))
  {
    hide StableSort, StrictWeak, Distinct;
    var less := DurationLess(threads);
    var queue := StableSort(less, ready);
    StableSortElements(less, ready);
    MultisetElements(ready, queue);
    MultisetDistinct(ready, queue);
    DurationLessStrictWeak(threads, Elements(ready));
    if ready != [] {
      StableSortHead(less, ready);
    }
    forall t | t in ready && t != queue[0]
      ensures threads[queue[0]].total < threads[t].total ||
              (threads[queue[0]].total == threads[t].total && Rank(ready, queue[0]) < Rank(ready, t))
    {
      assert Precedes(less, Ranks(ready), queue[0], t);
    }
  }

  /** Changing one total leaves names, and so the shape of the records, alone. */
  lemma EstimatedRecords(threads: map<Tid, Thread>, threads': map<Tid, Thread>, all: seq<Tid>, records: seq<Tid>, t: Tid)
    requires Consistent(threads, all, records) && t in threads && t in threads'
    requires threads' == threads[t := threads[t].(total := threads'[t].total)]
    ensures RecordsUnique(threads', records)
    ensures forall u | u in all :: u in threads' && Recorded(threads', records, threads'[u].name)
  {
    forall u | u in all ensures Recorded(threads', records, threads'[u].name) {
      var r :| r in records && r in threads && threads[r].name == threads[u].name;
      assert threads'[r].name == threads'[u].name;
    }
  }

  /** Who learns from an exit: if the exiting thread is the record of its name, that estimate becomes
      the new average; in every other case no estimate changes. */
  lemma ExitEstimates(threads: map<Tid, Thread>, all: seq<Tid>, records: seq<Tid>, cur: Tid, name: string)
    requires Consistent(threads, all, records) && cur in all
    ensures Estimate(AfterExit(threads, all, records, cur), records, name) ==
            if cur in records && name == threads[cur].name then NewEstimate(threads[cur].total, threads[cur].current)
            else Estimate(threads, records, name)
  {
    var mid := threads[cur := threads[cur].(total := NewEstimate(threads[cur].total, threads[cur].current))];
    var threads' := AfterExit(threads, all, records, cur);
    EstimatedRecords(threads, mid, all, records, cur);
    WithEstimatesConsistent(mid, all, records);
    EstimateFrame(mid, threads', records, name);
    LookupFrame(threads, mid, records, name);
    if cur in records && name == threads[cur].name {
      RecordIsEstimate(mid, records, cur);
    } else {
      var i := Lookup(threads, records, name);
      if i < |records| {
        assert records[i] in records;
      }
    }
  }

  /** A live thread's lookup midway through the loop finds the estimate it would have found at its start. */
  lemma ForeachStep(before: map<Tid, Thread>, now: map<Tid, Thread>, all: seq<Tid>, records: seq<Tid>, t: Tid)
    requires RecordsUnique(before, records) && t in before && Recorded(before, records, before[t].name)
    requires now.Keys == before.Keys
    requires forall u | u in now :: now[u] == before[u] || now[u] == WithEstimates(before, all, records)[u]
    ensures now[t].name == before[t].name
    ensures var i := Lookup(now, records, now[t].name);
            i < |records| && now[records[i]].total == Estimate(before, records, before[t].name)
  {
    forall r | r in records ensures now[r].name == before[r].name && now[r].total == before[r].total {
      RecordIsEstimate(before, records, r);
    }
    LookupFrame(before, now, records, before[t].name);
    RecordedLookup(before, records, before[t].name);
  }

  lemma SameEstimates(threads: map<Tid, Thread>, threads': map<Tid, Thread>, all: seq<Tid>, records: seq<Tid>)
    requires Consistent(threads, all, records) && threads'.Keys == threads.Keys
    requires forall t | t in threads :: threads'[t].name == threads[t].name && threads'[t].total == threads[t].total
    ensures Consistent(threads', all, records)
  {
    forall t | t in all
      ensures Recorded(threads', records, threads'[t].name)
      ensures threads'[t].total == Estimate(threads', records, threads'[t].name)
    {
      var r :| r in records && r in threads && threads[r].name == threads[t].name;
      EstimateFrame(threads, threads', records, threads[t].name);
    }
  }

  /** Looking up the name of a thread that is not yet a record. */
  lemma FreshLookup(threads: map<Tid, Thread>, threads': map<Tid, Thread>, records: seq<Tid>, t: Tid, name: string)
    requires RecordsUnique(threads, records) && t !in threads && threads' == threads[t := Thread(name, 0, 0)]
    ensures var i := Lookup(threads', records, name);
            && RecordsWith(threads, records, t, name) == (if i < |records| then records else records + [t])
            && Estimate(threads, records, name) == (if i < |records| then threads'[records[i]].total else 0)
  {
    LookupFrame(threads, threads', records, name);
    RecordedLookup(threads, records, name);
  }

  lemma ConsistentRecords(threads: map<Tid, Thread>, all: seq<Tid>, records: seq<Tid>)
    requires Consistent(threads, all, records)
    ensures RecordsUnique(threads, records)
    ensures forall r | r in records :: r in threads
    ensures forall t | t in all :: t in threads
  {
  }

  lemma RecordedLookup(threads: map<Tid, Thread>, records: seq<Tid>, name: string)
    requires forall r | r in records :: r in threads
    ensures Recorded(threads, records, name) <==> Lookup(threads, records, name) < |records|
  {
    var i := Lookup(threads, records, name);
    assert i < |records| ==> records[i] in records;
  }

  // ----- the machine

  /** What the policy reads and writes: every thread there has been, all_list, all_all_list, the ready list and the running
      thread. */
  datatype State = State(threads: map<Tid, Thread>, all: seq<Tid>, records: seq<Tid>, ready: seq<Tid>, cur: Tid)

  ghost predicate Inv(s: State, idle: Tid) {
    && Consistent(s.threads, s.all, s.records)
    && Distinct(s.all) && Distinct(s.ready) && s.cur in s.all && s.cur !in s.ready
    && idle in s.all && idle !in s.ready
    && (forall t | t in s.ready :: t in s.all)
  }

  /** init_thread: the new thread starts from its name's estimate. */
  ghost function Created(s: State, t: Tid, name: string): State
    requires forall r | r in s.records :: r in s.threads
  {
    s.(threads := s.threads[t := Thread(name, Estimate(s.threads, s.records, name), 0)],
       all := s.all + [t], records := RecordsWith(s.threads, s.records, t, name))
  }

  /** schedule: the head of the queue, or the idle thread. */
  function Dispatched(s: State, idle: Tid): State {
    if s.ready == [] then s.(cur := idle) else s.(cur := s.ready[0], ready := s.ready[1..])
  }

  function Charged(s: State): State
    requires s.cur in s.threads
  {
    s.(threads := s.threads[s.cur := s.threads[s.cur].(current := s.threads[s.cur].current + 1)])
  }

  /** thread_exit, up to schedule. */
  function Exiting(s: State): State
    requires s.cur in s.threads && forall r | r in s.records :: r in s.threads
  {
    var threads := AfterExit(s.threads, s.all, s.records, s.cur);
    State(threads, Without(s.all, s.cur), s.records, StableSort(DurationLess(threads), s.ready), s.cur)
  }

  datatype Action = Ticked | Create(t: Tid, name: string) | Unblock(t: Tid) | Block | Yield | Exit

  predicate Enabled(s: State, a: Action, idle: Tid) {
    match a
    case Create(t, _) => t !in s.threads
    case Unblock(t) => t in s.all && t !in s.ready && t != s.cur && t != idle
    case Exit => s.cur != idle
    case _ => true
  }

  ghost function Next(s: State, a: Action, idle: Tid): State
    requires Inv(s, idle)
  {
    ConsistentRecords(s.threads, s.all, s.records);
    match a
    case Ticked => Charged(s)
    case Create(t, name) => Created(s, t, name)
    case Unblock(t) => s.(ready := s.ready + [t])
    case Block => Dispatched(s, idle)
    case Yield => Dispatched(s.(ready := if s.cur == idle then s.ready else s.ready + [s.cur]), idle)
    case Exit => Dispatched(Exiting(s), idle)
  }

  lemma CreatedKeeps(s: State, t: Tid, name: string, idle: Tid)
    requires Inv(s, idle) && t !in s.threads
    ensures Inv(Created(s, t, name), idle)
  {
    hide Consistent, Estimate, RecordsWith;
    ConsistentRecords(s.threads, s.all, s.records);
    InitConsistent(s.threads, s.all, s.records, t, Thread(name, Estimate(s.threads, s.records, name), 0));
    assert t !in s.all;
  }

  lemma ChargedKeeps(s: State, idle: Tid)
    requires Inv(s, idle)
    ensures s.cur in s.threads && Inv(Charged(s), idle)
  {
    hide Consistent;
    ConsistentRecords(s.threads, s.all, s.records);
    SameEstimates(s.threads, Charged(s).threads, s.all, s.records);
  }

  lemma DispatchedKeeps(s: State, idle: Tid)
    requires Consistent(s.threads, s.all, s.records) && Distinct(s.all) && Distinct(s.ready)
    requires idle in s.all && idle !in s.ready && forall t | t in s.ready :: t in s.all
    ensures Inv(Dispatched(s, idle), idle)
  {
    hide Consistent;
    if s.ready != [] {
      assert s.ready[0] in s.ready && forall t | t in s.ready[1..] :: t in s.ready;
    }
  }

  lemma ExitingKeeps(s: State, idle: Tid)
    requires Inv(s, idle) && s.cur != idle
    ensures (forall r | r in s.records :: r in s.threads) && s.cur in s.threads
    ensures Inv(Dispatched(Exiting(s), idle), idle)
  {
    hide Consistent, StableSort, DurationLess, AfterExit, Distinct;
    ConsistentRecords(s.threads, s.all, s.records);
    ExitConsistent(s.threads, s.all, s.records, s.cur);
    var t := Exiting(s);
    SortedQueue(t.threads, s.ready);
    FewerConsistent(t.threads, s.all, t.all, s.records);
    DispatchedKeeps(t, idle);
  }

  lemma ExitConsistent(threads: map<Tid, Thread>, all: seq<Tid>, records: seq<Tid>, cur: Tid)
    requires Consistent(threads, all, records) && cur in all
    requires cur in threads && forall r | r in records :: r in threads
    ensures Consistent(AfterExit(threads, all, records, cur), all, records)
    ensures forall t | t in all :: t in AfterExit(threads, all, records, cur)
  {
    hide NewEstimate, Consistent, Estimate;
    var mid := threads[cur := threads[cur].(total := NewEstimate(threads[cur].total, threads[cur].current))];
    EstimatedRecords(threads, mid, all, records, cur);
    WithEstimatesConsistent(mid, all, records);
    WithEstimatesAt(mid, all, records);
  }

  lemma NextKeeps(s: State, a: Action, idle: Tid)
    requires Inv(s, idle) && Enabled(s, a, idle)
    ensures Inv(Next(s, a, idle), idle)
  {
    hide Consistent, Created, Charged, Exiting, Dispatched;
    ConsistentRecords(s.threads, s.all, s.records);
    match a
    case Ticked => ChargedKeeps(s, idle);
    case Create(t, name) => CreatedKeeps(s, t, name, idle);
    case Unblock(t) =>
    case Block => DispatchedKeeps(s, idle);
    case Yield => DispatchedKeeps(s.(ready := if s.cur == idle then s.ready else s.ready + [s.cur]), idle);
    case Exit => ExitingKeeps(s, idle);
  }

  // ----- runs

  /** As thread_init and thread_start leave it: the initial thread runs, and the idle thread has been created, has run and
      has blocked. */
  ghost function Boot(initial: Tid, idle: Tid): State {
    Created(Created(State(map[], [], [], [], initial), initial, "main"), idle, "idle")
  }

  lemma BootOk(initial: Tid, idle: Tid)
    requires initial != idle
    ensures Inv(Boot(initial, idle), idle)
  {
    var none := State(map[], [], [], [], initial);
    var one := Created(none, initial, "main");
    InitConsistent(none.threads, none.all, none.records, initial, one.threads[initial]);
    InitConsistent(one.threads, one.all, one.records, idle, Boot(initial, idle).threads[idle]);
    assert Boot(initial, idle).all == [initial, idle];
  }

  ghost function After(s: State, run: seq<Action>, idle: Tid): (r: Option<State>)
    requires Inv(s, idle)
    ensures r.Some? ==> Inv(r.value, idle)
    decreases |run|
  {
    if run == [] then Some(s)
    else if !Enabled(s, run[0], idle) then None
    else
      NextKeeps(s, run[0], idle);
      After(Next(s, run[0], idle), run[1..], idle)
  }

  /** In every reachable state all_all_list has at most one record per name, and every live thread's total_exec is that of
      its name's record. */
  lemma RecordsInEveryRun(initial: Tid, idle: Tid, run: seq<Action>)
    requires initial != idle
    ensures Inv(Boot(initial, idle), idle)
    ensures var s := After(Boot(initial, idle), run, idle);
            s.Some? ==>
              && (forall r | r in s.value.records :: r in s.value.threads)
              && (forall i, j :: 0 <= i < j < |s.value.records| ==>
                    s.value.threads[s.value.records[i]].name != s.value.threads[s.value.records[j]].name)
              && (forall t | t in s.value.all ::
                    t in s.value.threads && exists r | r in s.value.records ::
                      s.value.threads[r].name == s.value.threads[t].name && s.value.threads[r].total == s.value.threads[t].total)
  {
    hide Boot, After;
    BootOk(initial, idle);
    var s := After(Boot(initial, idle), run, idle);
    if s.Some? {
      forall t | t in s.value.all
        ensures t in s.value.threads && exists r | r in s.value.records ::
                  s.value.threads[r].name == s.value.threads[t].name && s.value.threads[r].total == s.value.threads[t].total
      {
        RecordCarries(s.value.threads, s.value.all, s.value.records, t);
      }
    }
  }

  lemma RecordCarries(threads: map<Tid, Thread>, all: seq<Tid>, records: seq<Tid>, t: Tid)
    requires Consistent(threads, all, records) && t in all
    ensures t in threads && exists r | r in records :: r in threads && threads[r].name == threads[t].name && threads[r].total == threads[t].total
  {
    hide Estimate;
    var r :| r in records && r in threads && threads[r].name == threads[t].name;
    RecordIsEstimate(threads, records, r);
  }

  /** In every reachable state an exit gives the processor to a queued thread with least total_exec, first queued among
      equals, or to the idle thread when none is queued. */
  lemma ExitPicksShortest(initial: Tid, idle: Tid, run: seq<Action>)
    requires initial != idle
    ensures Inv(Boot(initial, idle), idle)
    ensures var s := After(Boot(initial, idle), run, idle);
            s.Some? && Enabled(s.value, Exit, idle) ==>
              var s' := Next(s.value, Exit, idle);
              && (s.value.ready == [] ==> s'.cur == idle)
              && (s.value.ready != [] ==> s'.cur in s.value.ready)
              && (forall t | t in s.value.ready && t != s'.cur ::
                    && t in s'.threads && s'.cur in s'.threads
                    && (s'.threads[s'.cur].total < s'.threads[t].total ||
                        (s'.threads[s'.cur].total == s'.threads[t].total && Rank(s.value.ready, s'.cur) < Rank(s.value.ready, t))))
  {
    hide Boot, After, Consistent, StableSort, DurationLess, AfterExit, Distinct;
    BootOk(initial, idle);
    var s := After(Boot(initial, idle), run, idle);
    if s.Some? && Enabled(s.value, Exit, idle) {
      ConsistentRecords(s.value.threads, s.value.all, s.value.records);
      ExitConsistent(s.value.threads, s.value.all, s.value.records, s.value.cur);
      SortedQueue(Exiting(s.value).threads, s.value.ready);
    }
  }

  // ----- curr_exec is the ticks a thread has run

  ghost function TicksOf(s: State, run: seq<Action>, t: Tid, idle: Tid): nat
    requires Inv(s, idle)
    decreases |run|
  {
    if run == [] || !Enabled(s, run[0], idle) then 0
    else
      NextKeeps(s, run[0], idle);
      (if run[0].Ticked? && s.cur == t then 1 else 0) + TicksOf(Next(s, run[0], idle), run[1..], t, idle)
  }

  lemma StepTicks(s: State, a: Action, t: Tid, idle: Tid)
    requires Inv(s, idle) && Enabled(s, a, idle) && t in s.threads
    ensures var s' := Next(s, a, idle);
            && t in s'.threads && s'.threads[t].name == s.threads[t].name
            && s'.threads[t].current == s.threads[t].current + if a.Ticked? && s.cur == t then 1 else 0
  {
    hide Consistent, Estimate, RecordsWith, StableSort, DurationLess, NewEstimate;
    ConsistentRecords(s.threads, s.all, s.records);
  }

  /** In every run a thread's curr_exec goes up by the ticks that found it running, and its name stays. */
  lemma {:induction false} TicksCounted(s: State, run: seq<Action>, t: Tid, idle: Tid)
    requires Inv(s, idle) && t in s.threads && After(s, run, idle).Some?
    ensures var e := After(s, run, idle).value;
            && t in e.threads && e.threads[t].name == s.threads[t].name
            && e.threads[t].current == s.threads[t].current + TicksOf(s, run, t, idle)
    decreases |run|
  {
    hide Inv, Next, Enabled;
    if run != [] {
      NextKeeps(s, run[0], idle);
      StepTicks(s, run[0], t, idle);
      TicksCounted(Next(s, run[0], idle), run[1..], t, idle);
    }
  }

  /** A thread that is its name's record: when it exits, the name's estimate is averaged with the ticks the thread has run
      since it was created. */
  lemma ExitLearnsTicks(s: State, t: Tid, name: string, run: seq<Action>, e: State, idle: Tid)
    requires Inv(s, idle) && Enabled(s, Create(t, name), idle) && Inv(Next(s, Create(t, name), idle), idle)
    requires After(Next(s, Create(t, name), idle), run, idle) == Some(e) && e.cur == t && t in e.records
    ensures var ran := TicksOf(Next(s, Create(t, name), idle), run, t, idle);
            && (forall r | r in e.records :: r in e.threads) && t in e.threads && e.threads[t].name == name
            && Estimate(Exiting(e).threads, e.records, name) == NewEstimate(Estimate(e.threads, e.records, name), ran)
  {
    hide After, TicksOf, Estimate, NewEstimate, Consistent, AfterExit, StableSort, DurationLess, RecordsWith;
    var begun := Next(s, Create(t, name), idle);
    assert begun.threads[t].current == 0 && begun.threads[t].name == name;
    TicksCounted(begun, run, t, idle);
    ConsistentRecords(e.threads, e.all, e.records);
    ExitEstimates(e.threads, e.all, e.records, t, name);
    RecordIsEstimate(e.threads, e.records, t);
  }

  // ----- between exits the queue is first come, first served

  /** The thread an action queues, and the one it takes off the queue, as sequences. */
  function Arrives(s: State, a: Action, idle: Tid): seq<Tid> {
    match a
    case Unblock(t) => [t]
    case Yield => if s.cur == idle then [] else [s.cur]
    case _ => []
  }

  function Leaves(s: State, a: Action, idle: Tid): seq<Tid> {
    if !(a.Block? || a.Yield?) then []
    else
      var queue := s.ready + Arrives(s, a, idle);
      if queue == [] then [] else [queue[0]]
  }

  lemma StepQueue(s: State, a: Action, idle: Tid)
    requires Inv(s, idle) && Enabled(s, a, idle) && !a.Exit?
    ensures s.ready + Arrives(s, a, idle) == Leaves(s, a, idle) + Next(s, a, idle).ready
    ensures Next(s, a, idle).cur ==
            if !(a.Block? || a.Yield?) then s.cur else if Leaves(s, a, idle) == [] then idle else Leaves(s, a, idle)[0]
  {
    hide Inv, Consistent, Charged, Created;
    if a.Ticked? || a.Create? {
      OtherQueues(s, a, idle);
    }
  }

  lemma OtherQueues(s: State, a: Action, idle: Tid)
    requires Inv(s, idle) && (a.Ticked? || a.Create?)
    ensures Next(s, a, idle).ready == s.ready && Next(s, a, idle).cur == s.cur
  {
    hide Consistent, Estimate, RecordsWith;
  }
}
