/** Sleeping threads (devices/timer.c): timer_sleep, split where a timer interrupt can fall between
    its statements, and the interrupt handler's loop over wait_list.  The ordered insertion is one
    atomic step. */
module Timer {
  import opened Options
  import opened StableOrder
  import opened Threads

  /** Where a thread is in timer_sleep: elsewhere; wakeup_time set; or inserted in wait_list, and
      either on its way into sema_down or blocked in it. */
  datatype Place = Own | Timed | Asleep(blocked: bool)

  /** ticks, wait_list, every thread's wakeup_time, timer_sema value and place.  As history: the
      tick at which a sleeper was inserted, and its number among all insertions. */
  datatype State = State(now: int, list: seq<Tid>, wake: map<Tid, int>, sema: map<Tid, nat>, at: map<Tid, Place>,
                         inserted: map<Tid, int>, number: map<Tid, int>, insertions: int)

  /** wakeup_cmp. */
  function WakeLess(wake: map<Tid, int>): (Tid, Tid) -> bool {
    (a, b) => a in wake && b in wake && wake[a] < wake[b]
  }

  lemma WakeLessStrictWeak(wake: map<Tid, int>, S: set<Tid>)
    requires S <= wake.Keys
    ensures StrictWeak(WakeLess(wake), S)
  {
  }

  datatype Move = SetWake(ticks: int) | Insert | DownTurn

  predicate Enabled(s: State, t: Tid, m: Move) {
    t in s.at && t in s.wake && t in s.sema &&
    match m
    case SetWake(ticks) => s.at[t].Own?
    case Insert => s.at[t].Timed?
    case DownTurn => s.at[t].Asleep? && !s.at[t].blocked
  }

  function Next(s: State, t: Tid, m: Move): State
    requires Enabled(s, t, m)
  {
    match m
    case SetWake(ticks) => if ticks < 0 then s else s.(wake := s.wake[t := s.now + ticks], at := s.at[t := Timed])
    case Insert =>
      s.(list := InsertOrdered(WakeLess(s.wake), s.list, t), at := s.at[t := Asleep(false)],
         inserted := s.inserted[t := s.now], number := s.number[t := s.insertions], insertions := s.insertions + 1)
    case DownTurn =>
      if s.sema[t] == 0 then s.(at := s.at[t := Asleep(true)])
      else s.(sema := s.sema[t := s.sema[t] - 1], at := s.at[t := Own])
  }

  /** What the handler's loop takes off the front of the list, and what it leaves. */
  function Due(wake: map<Tid, int>, now: int, list: seq<Tid>): seq<Tid>
    requires forall t | t in list :: t in wake
  {
    if list == [] || now < wake[list[0]] then [] else [list[0]] + Due(wake, now, list[1..])
  }

  function Left(wake: map<Tid, int>, now: int, list: seq<Tid>): seq<Tid>
    requires forall t | t in list :: t in wake
  {
    if list == [] || now < wake[list[0]] then list else Left(wake, now, list[1..])
  }

  /** sema_up on timer_sema, by the handler. */
  function Upped(s: State, t: Tid): State
    requires t in s.sema && t in s.at
  {
    s.(sema := s.sema[t := s.sema[t] + 1], at := if s.at[t].Asleep? then s.at[t := Asleep(false)] else s.at)
  }

  function UppedAll(s: State, ts: seq<Tid>): State
    requires forall t | t in ts :: t in s.sema && t in s.at
    decreases |ts|
  {
    if ts == [] then s
    else
      assert ts[0] in ts;
      UppedAll(Upped(s, ts[0]), ts[1..])
  }

  ghost predicate Domains(s: State) {
    && s.at.Keys == s.sema.Keys == s.wake.Keys
    && (forall t | t in s.list :: t in s.at)
    && (forall t | t in s.at && s.at[t].Asleep? :: t in s.inserted && t in s.number)
  }

  /** timer_interrupt. */
  function Ticked(s: State): State
    requires Domains(s)
  {
    WithoutDue(s.(now := s.now + 1))
  }

  /** The handler's loop. */
  function WithoutDue(s: State): State
    requires Domains(s)
  {
    DueElements(s.wake, s.now, s.list);
    UppedAll(s.(list := Left(s.wake, s.now, s.list)), Due(s.wake, s.now, s.list))
  }

  /** Its test, when it stops and when it goes on. */
  lemma LoopStops(s: State)
    requires Domains(s) && (s.list == [] || s.now < s.wake[s.list[0]])
    ensures WithoutDue(s) == s
  {
  }

  lemma LoopTurn(s: State)
    requires Domains(s) && s.list != [] && s.wake[s.list[0]] <= s.now
    ensures s.list[0] in s.sema && s.list[0] in s.at
    ensures var s' := Upped(s, s.list[0]).(list := s.list[1..]); Domains(s') && WithoutDue(s) == WithoutDue(s')
  {
    var t := s.list[0];
    assert t in s.list;
    var due := Due(s.wake, s.now, s.list);
    assert due[0] == t && due[1..] == Due(s.wake, s.now, s.list[1..]);
    DueElements(s.wake, s.now, s.list[1..]);
  }

  lemma {:induction false} DueThenLeft(wake: map<Tid, int>, now: int, list: seq<Tid>)
    requires forall t | t in list :: t in wake
    ensures Due(wake, now, list) + Left(wake, now, list) == list
  {
    if list != [] && now >= wake[list[0]] {
      var d, l := Due(wake, now, list[1..]), Left(wake, now, list[1..]);
      DueThenLeft(wake, now, list[1..]);
      assert ([list[0]] + d) + l == [list[0]] + (d + l);
    }
  }

  lemma DueElements(wake: map<Tid, int>, now: int, list: seq<Tid>)
    requires forall t | t in list :: t in wake
    ensures Due(wake, now, list) + Left(wake, now, list) == list
    ensures forall t | t in Due(wake, now, list) :: t in list
  {
    hide Due, Left;
    DueThenLeft(wake, now, list);
  }

  // ----- invariants

  /** wait_list is in order of wakeup_time, ties in order of insertion. */
  ghost predicate Ordered(s: State) {
    Distinct(s.list) && Increasing(WakeLess(s.wake), s.number, s.list)
  }

  /** A sleeper is on the list exactly until the first tick after its insertion that reaches its
      wakeup time; from then on its semaphore is 1 and it is not blocked.  Nobody else is on the list
      or has a unit in its semaphore. */
  ghost predicate SleeperOk(s: State, t: Tid)
    requires Domains(s) && t in s.at
  {
    if s.at[t].Asleep? then
      && s.inserted[t] <= s.now && s.number[t] < s.insertions
      && (t in s.list <==> s.now == s.inserted[t] || s.now < s.wake[t])
      && (t in s.list ==> s.sema[t] == 0)
      && (t !in s.list ==> s.sema[t] == 1 && !s.at[t].blocked)
    else t !in s.list && s.sema[t] == 0
  }

  ghost predicate Inv(s: State) {
    Domains(s) && Ordered(s) && forall t | t in s.at :: SleeperOk(s, t)
  }

  // ----- timer_sleep's steps

  lemma NumberFrame(s: State, t: Tid)
    requires Increasing(WakeLess(s.wake), s.number, s.list) && t !in s.list
    ensures Increasing(WakeLess(s.wake), s.number[t := s.insertions], s.list)
  {
    var number := s.number[t := s.insertions];
    forall i, j | 0 <= i < j < |s.list| ensures Precedes(WakeLess(s.wake), number, s.list[i], s.list[j]) {
      assert Precedes(WakeLess(s.wake), s.number, s.list[i], s.list[j]);
      assert s.list[i] in s.list && s.list[j] in s.list;
    }
  }

  /** The insertion goes after every sleeper that is due no later. */
  lemma InsertOrdering(s: State, t: Tid)
    requires Ordered(s) && Domains(s) && t in s.wake && t !in s.list
    requires forall u | u in s.list :: u in s.number && s.number[u] < s.insertions
    ensures var list := InsertOrdered(WakeLess(s.wake), s.list, t);
            && Distinct(list) && (forall u :: u in list <==> u in s.list || u == t)
            && Increasing(WakeLess(s.wake), s.number[t := s.insertions], list)
  {
    hide Increasing, StrictWeak, InsertOrdered;
    var less := WakeLess(s.wake);
    var list := InsertOrdered(less, s.list, t);
    InsertOrderedElements(less, s.list, t);
    assert multiset(list) == multiset(s.list + [t]);
    MultisetElements(s.list + [t], list);
    MultisetDistinct(s.list + [t], list);
    NumberFrame(s, t);
    WakeLessStrictWeak(s.wake, Elements(s.list) + {t});
    IncreasingDomain(less, s.number, s.list);
    InsertOrderedIncreasing(less, s.number[t := s.insertions], s.list, t);
  }

  lemma IncreasingDomain(less: (Tid, Tid) -> bool, pos: map<Tid, int>, list: seq<Tid>)
    requires Increasing(less, pos, list)
    ensures forall t | t in list :: t in pos
  {
  }

  lemma InsertKeeps(s: State, t: Tid)
    requires Inv(s) && Enabled(s, t, Insert)
    ensures Inv(Next(s, t, Insert))
  {
    hide InsertOrdered, Increasing, Distinct;
    var s' := Next(s, t, Insert);
    assert SleeperOk(s, t);
    forall u | u in s.list ensures u in s.number && s.number[u] < s.insertions {
      assert SleeperOk(s, u);
    }
    InsertOrdering(s, t);
    forall u | u in s'.at ensures SleeperOk(s', u) {
      assert SleeperOk(s, u);
    }
  }

  /** Setting the wakeup time of a thread that is not listed does not disturb the list. */
  lemma WakeFrame(s: State, wake: map<Tid, int>)
    requires Ordered(s) && forall t | t in s.list :: t in s.wake && t in wake && wake[t] == s.wake[t]
    ensures Increasing(WakeLess(wake), s.number, s.list)
  {
    forall i, j | 0 <= i < j < |s.list| ensures Precedes(WakeLess(wake), s.number, s.list[i], s.list[j]) {
      assert Precedes(WakeLess(s.wake), s.number, s.list[i], s.list[j]);
      assert s.list[i] in s.list && s.list[j] in s.list;
    }
  }

  lemma SetWakeKeeps(s: State, t: Tid, ticks: int)
    requires Inv(s) && Enabled(s, t, SetWake(ticks))
    ensures Inv(Next(s, t, SetWake(ticks)))
  {
    hide Increasing, Distinct;
    var s' := Next(s, t, SetWake(ticks));
    assert SleeperOk(s, t);
    WakeFrame(s, s'.wake);
    forall u | u in s'.at ensures SleeperOk(s', u) {
      assert SleeperOk(s, u);
    }
  }

  lemma DownTurnKeeps(s: State, t: Tid)
    requires Inv(s) && Enabled(s, t, DownTurn)
    ensures Inv(Next(s, t, DownTurn))
  {
    hide Increasing, Distinct;
    var s' := Next(s, t, DownTurn);
    assert SleeperOk(s, t);
    forall u | u in s'.at ensures SleeperOk(s', u) {
      assert SleeperOk(s, u);
    }
  }

  // ----- the interrupt handler

  /** On an ordered list the loop stops exactly at the first sleeper that is not due. */
  lemma {:induction false} DueIffDue(wake: map<Tid, int>, number: map<Tid, int>, now: int, list: seq<Tid>)
    requires (forall t | t in list :: t in wake) && Distinct(list) && Increasing(WakeLess(wake), number, list)
    ensures forall t | t in list :: t in Due(wake, now, list) <==> wake[t] <= now
    ensures forall t | t in list :: t in Left(wake, now, list) <==> now < wake[t]
    ensures Distinct(Due(wake, now, list))
    ensures Distinct(Left(wake, now, list)) && Increasing(WakeLess(wake), number, Left(wake, now, list))
  {
    hide Increasing, Distinct;
    if list != [] {
      if now < wake[list[0]] {
        forall t | t in list ensures now < wake[t] {
          HeadPrecedes(WakeLess(wake), number, list, t);
        }
        DistinctHead(list);
      } else {
        DueElements(wake, now, list[1..]);
        IncreasingTail(WakeLess(wake), number, list);
        DistinctHead(list);
        DueIffDue(wake, number, now, list[1..]);
        DistinctCons(list[0], Due(wake, now, list[1..]));
      }
    } else {
      DistinctHead(list);
    }
  }

  lemma DistinctHead(list: seq<Tid>)
    requires Distinct(list)
    ensures list != [] ==> Distinct(list[1..]) && list[0] !in list[1..]
    ensures Distinct<Tid>([])
  {
  }

  lemma DistinctCons(t: Tid, list: seq<Tid>)
    requires Distinct(list) && t !in list
    ensures Distinct([t] + list)
  {
  }

  lemma {:induction false} UppedAllIs(s: State, ts: seq<Tid>)
    requires Distinct(ts) && s.at.Keys == s.sema.Keys && forall t | t in ts :: t in s.sema && t in s.at && s.at[t].Asleep?
    ensures var s' := UppedAll(s, ts);
            && s' == s.(sema := s'.sema, at := s'.at) && s'.at.Keys == s.at.Keys == s'.sema.Keys
            && (forall t | t in s.sema :: s'.sema[t] == s.sema[t] + if t in ts then 1 else 0)
            && (forall t | t in s.at :: s'.at[t] == if t in ts then Asleep(false) else s.at[t])
    decreases |ts|
  {
    if ts != [] {
      assert ts[0] in ts;
      UppedAllIs(Upped(s, ts[0]), ts[1..]);
      assert ts[0] !in ts[1..];
      assert forall t :: t in ts <==> t == ts[0] || t in ts[1..];
    }
  }

  ghost predicate IsDue(s: State, t: Tid)
    requires t in s.wake
  {
    t in s.list && s.wake[t] <= s.now + 1
  }

  /** s' is s one tick later: exactly the listed sleepers whose time has come have been upped, once
      each, and have left the list. */
  ghost predicate TickEffect(s: State, s': State)
    requires Domains(s)
  {
    && s' == s.(now := s.now + 1, list := s'.list, sema := s'.sema, at := s'.at)
    && s'.at.Keys == s'.sema.Keys == s.at.Keys
    && (forall t | t in s.at :: s'.sema[t] == if IsDue(s, t) then s.sema[t] + 1 else s.sema[t])
    && (forall t | t in s.at :: s'.at[t] == if IsDue(s, t) then Asleep(false) else s.at[t])
    && (forall t | t in s'.list :: t in s.list)
    && (forall t | t in s.list :: t in s'.list <==> !IsDue(s, t))
    && Distinct(s'.list) && Increasing(WakeLess(s.wake), s.number, s'.list)
  }

  lemma TickIs(s: State)
    requires Inv(s)
    ensures TickEffect(s, Ticked(s))
  {
    hide Due, Left, UppedAll, Increasing, Distinct;
    var now := s.now + 1;
    var due := Due(s.wake, now, s.list);
    var left := Left(s.wake, now, s.list);
    DueElements(s.wake, now, s.list);
    DueIffDue(s.wake, s.number, now, s.list);
    forall t | t in due ensures s.at[t].Asleep? {
      assert SleeperOk(s, t);
    }
    UppedAllIs(s.(now := now, list := left), due);
    assert Ticked(s) == UppedAll(s.(now := now, list := left), due);
    assert forall t :: t in s.list <==> t in due || t in left;
    assert forall t | t in s.at :: IsDue(s, t) <==> t in due;
  }

  lemma TickKeeps(s: State)
    requires Inv(s)
    ensures Inv(Ticked(s))
  {
    hide Increasing, Distinct, Ticked;
    var s' := Ticked(s);
    TickIs(s);
    forall t | t in s'.at ensures SleeperOk(s', t) {
      assert SleeperOk(s, t);
    }
  }

  /** After the handler nothing that is left is due. */
  lemma NothingDueAfterTick(s: State)
    requires Inv(s)
    ensures var s' := Ticked(s); forall t | t in s'.list :: t in s'.wake && s'.now < s'.wake[t]
  {
    hide Ticked;
    TickIs(s);
  }

  // ----- runs

  datatype Step = Tick | Thread(t: Tid, m: Move)

  /** After timer_init: threads exist, nobody sleeps. */
  function Start(threads: set<Tid>, now: int): (s: State)
    ensures Inv(s)
  {
    State(now, [], map t | t in threads :: 0, map t | t in threads :: 0, map t | t in threads :: Own, map[], map[], 0)
  }

  lemma NextKeeps(s: State, t: Tid, m: Move)
    requires Inv(s) && Enabled(s, t, m)
    ensures Inv(Next(s, t, m))
  {
    match m
    case SetWake(ticks) => SetWakeKeeps(s, t, ticks);
    case Insert => InsertKeeps(s, t);
    case DownTurn => DownTurnKeeps(s, t);
  }

  function After(s: State, run: seq<Step>): (s': Option<State>)
    requires Inv(s)
    ensures s'.Some? ==> Inv(s'.value)
  {
    if run == [] then Some(s)
    else
      var before := After(s, run[..|run| - 1]);
      match run[|run| - 1]
      case Tick =>
        if before.None? then None
        else
          TickKeeps(before.value);
          Some(Ticked(before.value))
      case Thread(t, m) =>
        if before.None? || !Enabled(before.value, t, m) then None
        else
          NextKeeps(before.value, t, m);
          Some(Next(before.value, t, m))
  }

  /** In every state of every run, with ticks falling anywhere, also between the insertion and the
      sema_down: wait_list is ordered by wakeup time with ties first come first served; a sleeper
      is on it exactly until the first tick after its insertion that reaches its wakeup time; and a
      sleeper that has left it can get up at once, and not before that time. */
  lemma SleepersInEveryRun(threads: set<Tid>, now: int, run: seq<Step>)
    requires After(Start(threads, now), run).Some?
    ensures var s := After(Start(threads, now), run).value;
            && (forall i, j :: 0 <= i < j < |s.list| ==>
                 s.wake[s.list[i]] < s.wake[s.list[j]] ||
                 (s.wake[s.list[i]] == s.wake[s.list[j]] && s.number[s.list[i]] < s.number[s.list[j]]))
            && (forall t | t in s.at && s.at[t].Asleep? :: t in s.list <==> s.now == s.inserted[t] || s.now < s.wake[t])
            && (forall t | t in s.at && s.at[t].Asleep? ::
                  if t in s.list then s.sema[t] == 0
                  else Enabled(s, t, DownTurn) && Next(s, t, DownTurn).at[t] == Own && s.wake[t] <= s.now)
  {
    var s := After(Start(threads, now), run).value;
    forall i, j | 0 <= i < j < |s.list|
      ensures s.wake[s.list[i]] < s.wake[s.list[j]] ||
              (s.wake[s.list[i]] == s.wake[s.list[j]] && s.number[s.list[i]] < s.number[s.list[j]])
    {
      assert Precedes(WakeLess(s.wake), s.number, s.list[i], s.list[j]);
      assert s.list[i] in s.list && s.list[j] in s.list;
    }
    forall t | t in s.at && s.at[t].Asleep?
      ensures t in s.list <==> s.now == s.inserted[t] || s.now < s.wake[t]
      ensures if t in s.list then s.sema[t] == 0
              else Enabled(s, t, DownTurn) && Next(s, t, DownTurn).at[t] == Own && s.wake[t] <= s.now
    {
      assert SleeperOk(s, t);
    }
  }

  /** The same code on its own variables. */
  class Device {
    var ticks: int
    var waitList: seq<Tid>
    var wakeupTime: map<Tid, int>
    var timerSema: map<Tid, nat>
    ghost var at: map<Tid, Place>
    ghost var inserted: map<Tid, int>
    ghost var number: map<Tid, int>
    ghost var insertions: int

    ghost function Now(): State
      reads this
    {
      State(ticks, waitList, wakeupTime, timerSema, at, inserted, number, insertions)
    }

    /** timer_sleep up to the insertion. */
    method SetWakeup(t: Tid, sleep: int)
      requires Inv(Now()) && Enabled(Now(), t, SetWake(sleep))
      modifies this`wakeupTime, this`at
      ensures Inv(Now()) && Now() == Next(old(Now()), t, SetWake(sleep))
      ensures if sleep < 0 then Now() == old(Now()) else wakeupTime == old(wakeupTime)[t := ticks + sleep] && at[t] == Timed
    {
      hide Inv;
      NextKeeps(Now(), t, SetWake(sleep));
      if sleep < 0 {
        return;
      }
      wakeupTime := wakeupTime[t := ticks + sleep];
      at := at[t := Timed];
    }

    /** list_insert_ordered (&wait_list, ...). */
    method InsertSleeper(t: Tid)
      requires Inv(Now()) && Enabled(Now(), t, Insert)
      modifies this`waitList, this`at, this`inserted, this`number, this`insertions
      ensures Inv(Now()) && Now() == Next(old(Now()), t, Insert)
    {
      hide Inv;
      NextKeeps(Now(), t, Insert);
      waitList := InsertOrdered(WakeLess(wakeupTime), waitList, t);
      at, inserted := at[t := Asleep(false)], inserted[t := ticks];
      number, insertions := number[t := insertions], insertions + 1;
    }

    /** timer_interrupt: the loop pops due sleepers off the front. */
    method TimerInterrupt()
      requires Inv(Now())
      modifies this`ticks, this`waitList, this`timerSema, this`at
      ensures Inv(Now()) && Now() == Ticked(old(Now()))
    {
      hide Inv, WithoutDue, Domains;
      TickKeeps(Now());
      InvDomains(Now());
      DomainsFrame(Now());
      ticks := ticks + 1;
      while waitList != []
        invariant Domains(Now()) && WithoutDue(Now()) == Ticked(old(Now()))
        decreases |waitList|
      {
        var t := waitList[0];
        ListedHaveTimes(Now(), t);
        if ticks < wakeupTime[t] {
          break;
        }
        LoopTurn(Now());
        timerSema := timerSema[t := timerSema[t] + 1];
        at := if at[t].Asleep? then at[t := Asleep(false)] else at;
        waitList := waitList[1..];
      }
      LoopStops(Now());
    }
  }

  lemma ListedHaveTimes(s: State, t: Tid)
    requires Domains(s) && t in s.list
    ensures t in s.wake && t in s.sema && t in s.at
  {
  }

  lemma DomainsFrame(s: State)
    requires Domains(s)
    ensures Domains(s.(now := s.now + 1))
  {
  }

  lemma InvDomains(s: State)
    requires Inv(s)
    ensures Domains(s)
  {
  }
}
