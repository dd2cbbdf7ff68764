/** What timer_sleep promises its caller (devices/timer.c), over every run of ticks and of other threads. */
module TimerSleep {
  import opened Options
  import opened Threads
  import opened Timer

  /** t is in timer_sleep after each step of the run. */
  ghost predicate Throughout(s: State, t: Tid, run: seq<Step>)
    requires Inv(s)
  {
    && After(s, run).Some? && t in After(s, run).value.at && !After(s, run).value.at[t].Own?
    && (run != [] ==> Throughout(s, t, run[..|run| - 1]))
  }

  /** From s, t calls timer_sleep (k); the run happens, t is still in the call, and the state is e. */
  ghost predicate Sleeps(s: State, t: Tid, k: nat, run: seq<Step>, e: State)
    requires Inv(s)
  {
    Enabled(s, t, SetWake(k)) &&
    (NextKeeps(s, t, SetWake(k));
     var begun := Next(s, t, SetWake(k));
     Throughout(begun, t, run) && After(begun, run) == Some(e))
  }

  function Ticks(run: seq<Step>): nat {
    if run == [] then 0 else Ticks(run[..|run| - 1]) + if run[|run| - 1].Tick? then 1 else 0
  }

  /** t is to be woken at tick due, and was inserted, if it has been, no earlier than `since`. */
  ghost predicate DueAt(s: State, t: Tid, due: int, since: int) {
    && t in s.wake && s.wake[t] == due && since <= s.now && t in s.at
    && (s.at[t].Asleep? ==> t in s.inserted && since <= s.inserted[t])
  }

  lemma StepDue(s: State, t: Tid, u: Tid, m: Move, due: int, since: int)
    requires Inv(s) && Enabled(s, u, m) && DueAt(s, t, due, since) && !s.at[t].Own?
    ensures DueAt(Next(s, u, m), t, due, since) && Next(s, u, m).now == s.now
  {
  }

  lemma TickDue(s: State, t: Tid, due: int, since: int)
    requires Inv(s) && DueAt(s, t, due, since) && !s.at[t].Own?
    ensures DueAt(Ticked(s), t, due, since) && Ticked(s).now == s.now + 1
  {
    hide Ticked;
    TickIs(s);
    assert SleeperOk(s, t);
  }

  lemma {:induction false} DueThroughout(s: State, t: Tid, run: seq<Step>, due: int)
    requires Inv(s) && Throughout(s, t, run) && DueAt(s, t, due, s.now)
    ensures var e := After(s, run).value; DueAt(e, t, due, s.now) && e.now == s.now + Ticks(run)
    decreases |run|
  {
    hide Inv, Next, Enabled, Ticked, DueAt;
    if run != [] {
      var k := |run| - 1;
      DueThroughout(s, t, run[..k], due);
      var before := After(s, run[..k]).value;
      match run[k]
      case Tick => TickDue(before, t, due, s.now);
      case Thread(u, m) => StepDue(before, t, u, m, due, s.now);
    }
  }

  /** A call of timer_sleep (k) at tick n, while it lasts: the wakeup time is n + k, and once inserted the thread is on
      wait_list exactly until the first later tick that reaches n + k. */
  lemma SleepsAsAsked(s: State, t: Tid, k: nat, run: seq<Step>, e: State)
    requires Inv(s) && Sleeps(s, t, k, run, e)
    ensures Inv(e) && t in e.wake && t in e.at && e.wake[t] == s.now + k && e.now == s.now + Ticks(run)
    ensures e.at[t].Asleep? ==>
              && t in e.inserted && s.now <= e.inserted[t] <= e.now
              && (t in e.list <==> e.now == e.inserted[t] || e.now < s.now + k)
  {
    hide Next, Ticked, After;
    NextKeeps(s, t, SetWake(k));
    var begun := Next(s, t, SetWake(k));
    assert Sleeps(s, t, k, run, e);
    SleepBegins(s, t, k);
    DueThroughout(begun, t, run, s.now + k);
    assert SleeperOk(e, t);
  }

  lemma SleepBegins(s: State, t: Tid, k: nat)
    requires Inv(s) && Enabled(s, t, SetWake(k))
    ensures var begun := Next(s, t, SetWake(k)); DueAt(begun, t, s.now + k, s.now) && begun.now == s.now
  {
  }

  /** So it returns at tick n + k or later, after at least k ticks, and not before the first tick after its insertion. */
  lemma SleepsLongEnough(s: State, t: Tid, k: nat, run: seq<Step>, e: State)
    requires Inv(s) && Sleeps(s, t, k, run, e)
    requires Enabled(e, t, DownTurn) && Next(e, t, DownTurn).at[t].Own?
    ensures Ticks(run) >= k && t in e.inserted && e.inserted[t] < e.now
  {
    SleepsAsAsked(s, t, k, run, e);
    assert SleeperOk(e, t);
  }

  /** And no longer: while it is listed, the next tick wakes it exactly when that tick reaches n + k; it then returns when
      it next runs. */
  lemma SleepsNoLonger(s: State, t: Tid, k: nat, run: seq<Step>, e: State)
    requires Inv(s) && Sleeps(s, t, k, run, e) && t in e.at && e.at[t].Asleep? && t in e.list
    ensures var e' := Ticked(e);
            && (t !in e'.list <==> Ticks(run) + 1 >= k)
            && (t !in e'.list ==> Enabled(e', t, DownTurn) && Next(e', t, DownTurn).at[t].Own?)
  {
    hide Ticked, After, Throughout;
    SleepsAsAsked(s, t, k, run, e);
    TickIs(e);
    TickKeeps(e);
    assert SleeperOk(e, t) && SleeperOk(Ticked(e), t);
  }
}
