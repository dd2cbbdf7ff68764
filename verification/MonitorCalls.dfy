/** What lock_acquire, lock_try_acquire and cond_broadcast do for their callers (threads/synch.c), whatever the other
    threads do meanwhile. */
module MonitorCalls {
  import opened Options
  import opened Threads
  import opened Monitor

  // ----- cond_broadcast

  /** In cond_broadcast on c. */
  predicate InBroadcast(p: Place, c: Cond) {
    p == Broadcasting(c) || (p.Signalling? && p.all && p.c == c)
  }

  /** The moves left to a broadcast. */
  function MovesLeft(s: State, t: Tid, c: Cond): nat
    requires t in s.at && c in s.conds
  {
    1 + 2 * |s.conds[c]| + if s.at[t].Signalling? then 1 else 0
  }

  /** A broadcast goes on until no thread is queued on c. */
  lemma BroadcastStep(s: State, t: Tid, m: Move, c: Cond)
    requires Enabled(s, t, m) && c in s.conds && InBroadcast(s.at[t], c)
    ensures var s' := Next(s, t, m);
            && t in s'.at && c in s'.conds
            && (InBroadcast(s'.at[t], c) || (s'.at[t] == Holding && s'.conds[c] == []))
            && (InBroadcast(s'.at[t], c) ==> MovesLeft(s', t, c) == MovesLeft(s, t, c) - 1)
            && (!InBroadcast(s'.at[t], c) ==> MovesLeft(s, t, c) == 1)
            && forall w :: w != t && w in s.at ==> w in s'.at && s'.at[w] == s.at[w]
  {
  }

  /** In cond_wait on c, asleep, past the sleep, or blocked on the lock. */
  predicate PastQueue(s: State, w: Tid, c: Cond) {
    w in s.at && (s.at[w] == Sleeping(c) || s.at[w] == Awake(c) || s.at[w] == Acquiring(ForWait(c)))
  }

  /** While one thread is inside the lock, another's move changes no queue and cannot end a cond_wait. */
  lemma OtherMove(s: State, t: Tid, u: Tid, m: Move)
    requires Inv(s) && t in s.at && InsideAt(s.at[t]) && u != t && Enabled(s, u, m)
    ensures var s' := Next(s, u, m);
            && s'.conds == s.conds && t in s'.at && s'.at[t] == s.at[t]
            && forall w, c :: PastQueue(s, w, c) ==> PastQueue(s', w, c)
  {
    OnlyInside(s, t);
  }

  /** t is in cond_broadcast on c after each step of the run. */
  ghost predicate During(s: State, t: Tid, c: Cond, run: seq<(Tid, Move)>)
    requires Inv(s)
  {
    && After(s, run).Some? && t in After(s, run).value.at && InBroadcast(After(s, run).value.at[t], c)
    && (run != [] ==> During(s, t, c, run[..|run| - 1]))
  }

  function MovesOf(run: seq<(Tid, Move)>, t: Tid): nat {
    if run == [] then 0 else MovesOf(run[..|run| - 1], t) + if run[|run| - 1].0 == t then 1 else 0
  }

  /** The threads that were queued are still in cond_wait, and so many moves are left. */
  ghost predicate Progress(e: State, t: Tid, c: Cond, was: seq<Tid>, left: int) {
    && c in e.conds && t in e.at && MovesLeft(e, t, c) == left
    && forall w :: w in was ==> w != t && PastQueue(e, w, c)
  }

  lemma {:induction false} DuringBroadcast(s: State, t: Tid, c: Cond, run: seq<(Tid, Move)>, was: seq<Tid>, left: int)
    requires Inv(s) && During(s, t, c, run) && Progress(s, t, c, was, left)
    ensures Progress(After(s, run).value, t, c, was, left - MovesOf(run, t))
    decreases |run|
  {
    hide Inv, Next, Enabled, PastQueue, MovesLeft;
    if run != [] {
      var k := |run| - 1;
      DuringBroadcast(s, t, c, run[..k], was, left);
      var (before, (u, m)) := (After(s, run[..k]).value, run[k]);
      if u == t {
        BroadcastStep(before, t, m, c);
        WaitersKept(before, t, m, c, was);
      } else {
        OtherMove(before, t, u, m);
        SameLeft(before, Next(before, u, m), t, c);
      }
    }
  }

  lemma SameLeft(s: State, s': State, t: Tid, c: Cond)
    requires t in s.at && t in s'.at && s'.at[t] == s.at[t] && c in s.conds && s'.conds == s.conds
    ensures MovesLeft(s', t, c) == MovesLeft(s, t, c)
  {
  }

  lemma WaitersKept(s: State, t: Tid, m: Move, c: Cond, was: seq<Tid>)
    requires Enabled(s, t, m) && c in s.conds && InBroadcast(s.at[t], c)
    requires forall w :: w in was ==> w != t && PastQueue(s, w, c)
    ensures forall w :: w in was ==> PastQueue(Next(s, t, m), w, c)
  {
    BroadcastStep(s, t, m, c);
  }

  /** The thread has been woken: its next turn ends its sleep, if it has not had it already. */
  ghost predicate Woken(s: State, w: Tid, c: Cond) {
    && PastQueue(s, w, c)
    && (s.at[w].Sleeping? ==> Enabled(s, w, SleepTurn) && Next(s, w, SleepTurn).at[w] == Awake(c))
  }

  /** From s, t begins a broadcast on c, the run happens, and t's move m ends the broadcast in e. */
  ghost predicate Broadcasts(s: State, t: Tid, c: Cond, run: seq<(Tid, Move)>, m: Move, e: State)
    requires Inv(s)
  {
    Enabled(s, t, Broadcast(c)) &&
    (NextKeeps(s, t, Broadcast(c));
     var begun := Next(s, t, Broadcast(c));
     During(begun, t, c, run) &&
     var last := After(begun, run).value;
     Enabled(last, t, m) && e == Next(last, t, m) && t in e.at && !InBroadcast(e.at[t], c))
  }

  /** When a broadcast returns, whatever other threads did meanwhile, no thread is queued on c and every thread that was
      queued when it began has been woken. It takes two moves for each of them, and one to find the queue empty. */
  lemma BroadcastWakesAll(s: State, t: Tid, c: Cond, run: seq<(Tid, Move)>, m: Move, e: State)
    requires Inv(s) && Broadcasts(s, t, c, run, m, e)
    ensures t in e.at && e.at[t] == Holding && c in s.conds && c in e.conds && e.conds[c] == []
    ensures forall w :: w in s.conds[c] ==> Woken(e, w, c)
    ensures MovesOf(run, t) == 2 * |s.conds[c]|
  {
    hide Inv, After, During, InBroadcast;
    var begun, was := Next(s, t, Broadcast(c)), s.conds[c];
    NextKeeps(s, t, Broadcast(c));
    QueuedAsleep(s, t, c);
    assert Progress(begun, t, c, was, 1 + 2 * |was|);
    hide Next, Enabled, PastQueue;
    DuringBroadcast(begun, t, c, run, was, 1 + 2 * |was|);
    DuringEnd(begun, t, c, run);
    var last := After(begun, run).value;
    BroadcastStep(last, t, m, c);
    WaitersKept(last, t, m, c, was);
    NextKeeps(last, t, m);
    forall w | w in was ensures Woken(e, w, c) {
      WokenAtEnd(e, t, w, c);
    }
  }

  lemma DuringEnd(s: State, t: Tid, c: Cond, run: seq<(Tid, Move)>)
    requires Inv(s) && During(s, t, c, run)
    ensures After(s, run).Some? && t in After(s, run).value.at && InBroadcast(After(s, run).value.at[t], c)
  {
  }

  /** To the holder of the lock every queued thread is past its release of the lock. */
  lemma QueuedAsleep(s: State, t: Tid, c: Cond)
    requires Inv(s) && t in s.at && s.at[t].Holding? && c in s.conds
    ensures forall w :: w in s.conds[c] ==> w != t && w in s.at && s.at[w] == Sleeping(c)
  {
    OnlyInside(s, t);
  }

  lemma WokenAtEnd(e: State, t: Tid, w: Tid, c: Cond)
    requires Inv(e) && t in e.at && e.at[t] == Holding && c in e.conds && e.conds[c] == [] && PastQueue(e, w, c)
    ensures Woken(e, w, c)
  {
    if e.at[w].Sleeping? {
      NobodySignalled(e, t, w);
      SignalNotLost(e, w);
    }
  }

  // ----- the lock

  predicate TakesTurn(m: Move) {
    m.Acquire? || m.TryAcquire? || m.Recheck? || m.Reacquire?
  }

  /** A turn takes the lock exactly when it is free. When it is not, lock_try_acquire changes nothing and the others
      block last in line. */
  lemma TurnTakesLock(s: State, t: Tid, m: Move)
    requires Inv(s) && Enabled(s, t, m) && TakesTurn(m)
    ensures var s' := Next(s, t, m);
            && (s'.at[t].Acquired? <==> Inside(s) == {})
            && (Inside(s) == {} ==> Inside(s') == {t} && s'.lock.waiters == s.lock.waiters)
            && (Inside(s) != {} && m.TryAcquire? ==> s' == s)
            && (Inside(s) != {} && !m.TryAcquire? ==> !Enabled(s', t, Recheck) && s'.lock.waiters == s.lock.waiters + [t])
  {
    NextKeeps(s, t, m);
    var s' := Next(s, t, m);
    if Inside(s) == {} {
      OnlyInside(s', t);
      assert t in Inside(s');
    } else {
      var u :| u in Inside(s);
      OnlyInside(s, u);
    }
  }

  /** The threads that blocked on the lock, and those woken on it, in order. A thread that finds the lock taken again
      when it runs joins anew. */
  ghost function Blocked(s: State, run: seq<(Tid, Move)>): seq<Tid>
    requires Inv(s) && After(s, run).Some?
  {
    if run == [] then []
    else
      var k := |run| - 1;
      var (t, m) := run[k];
      var joins := TakesTurn(m) && !m.TryAcquire? && Inside(After(s, run[..k]).value) != {};
      Blocked(s, run[..k]) + if joins then [t] else []
  }

  ghost function Released(s: State, run: seq<(Tid, Move)>): seq<Tid>
    requires Inv(s) && After(s, run).Some?
  {
    if run == [] then []
    else
      var k := |run| - 1;
      var before := After(s, run[..k]).value;
      Released(s, run[..k]) + if run[k].1.UpLock? && before.lock.waiters != [] then [before.lock.waiters[0]] else []
  }

  lemma LockQueueStep(s: State, t: Tid, m: Move)
    requires Inv(s) && Enabled(s, t, m)
    ensures Next(s, t, m).lock.waiters ==
            (if m.UpLock? && s.lock.waiters != [] then s.lock.waiters[1..] else s.lock.waiters) +
            if TakesTurn(m) && !m.TryAcquire? && Inside(s) != {} then [t] else []
  {
    hide Inv, Inside;
    if TakesTurn(m) {
      TurnTakesLock(s, t, m);
    }
  }

  /** The lock's waiters are woken in the order in which they blocked: those that blocked are those woken, followed by
      those still waiting. */
  lemma {:induction false} LockInOrder(threads: set<Tid>, conds: set<Cond>, run: seq<(Tid, Move)>)
    requires After(Start(threads, conds), run).Some?
    ensures var s0 := Start(threads, conds);
            Blocked(s0, run) == Released(s0, run) + After(s0, run).value.lock.waiters
  {
    hide Inv, Next, Enabled, Inside, TakesTurn;
    if run != [] {
      var k := |run| - 1;
      LockInOrder(threads, conds, run[..k]);
      LockQueueStep(After(Start(threads, conds), run[..k]).value, run[k].0, run[k].1);
    }
  }
}
