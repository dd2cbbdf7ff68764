/** lock_* and cond_* as the kernel runs them, one method for each stretch of code that no other
    thread can interleave with, each proved to be a move of the Monitor machine.  The assertions are
    those of the C functions. */
module KernelLocks {
  import opened Options
  import opened Monitor
  import opened Threads

  class Synch {
    var holder: Option<Tid>
    var lock: Sema
    var conds: map<Cond, seq<Tid>>
    var own: map<Tid, Sema>
    ghost var at: map<Tid, Place>

    ghost function Now(): State
      reads this
    {
      State(holder, lock, conds, own, at)
    }

    /** sema_down (&lock->semaphore), entered from lock_acquire or resumed after blocking in it. */
    method LockDownTurn(t: Tid, ghost m: Move) returns (taken: bool)
      requires Inv(Now()) && Enabled(Now(), t, m) && (m.Acquire? || m.Recheck? || m.Reacquire?)
      modifies this`lock, this`at
      ensures Inv(Now()) && Now() == Next(old(Now()), t, m) && taken == (old(lock).value > 0)
    {
      hide Inv;
      NextKeeps(Now(), t, m);
      HolderKnown(Now(), t);
      assert holder != Some(t);
      ghost var after := Next(Now(), t, m).at;
      if lock.value == 0 {
        lock := lock.(waiters := lock.waiters + [t]);
        taken := false;
      } else {
        lock := lock.(value := lock.value - 1);
        taken := true;
      }
      at := after;
    }

    /** lock_try_acquire up to its test of success. */
    method LockTryDown(t: Tid) returns (success: bool)
      requires Inv(Now()) && Enabled(Now(), t, TryAcquire)
      modifies this`lock, this`at
      ensures Inv(Now()) && Now() == Next(old(Now()), t, TryAcquire) && success == (old(lock).value > 0)
    {
      hide Inv;
      NextKeeps(Now(), t, TryAcquire);
      HolderKnown(Now(), t);
      assert holder != Some(t);
      ghost var after := Next(Now(), t, TryAcquire).at;
      success := lock.value > 0;
      if success {
        lock := lock.(value := lock.value - 1);
      }
      at := after;
    }

    /** lock->holder = thread_current (). */
    method SetHolder(t: Tid)
      requires Inv(Now()) && Enabled(Now(), t, Move.SetHolder)
      modifies this`holder, this`at
      ensures Inv(Now()) && Now() == Next(old(Now()), t, Move.SetHolder)
    {
      hide Inv;
      NextKeeps(Now(), t, Move.SetHolder);
      holder := Some(t);
      at := at[t := Holding];
    }

    /** lock_release, first statement: from the thread's own code or from cond_wait. */
    method ClearHolder(t: Tid)
      requires Inv(Now()) && Enabled(Now(), t, Move.ClearHolder)
      modifies this`holder, this`at
      ensures Inv(Now()) && Now() == Next(old(Now()), t, Move.ClearHolder)
    {
      hide Inv;
      NextKeeps(Now(), t, Move.ClearHolder);
      HolderKnown(Now(), t);
      assert holder == Some(t);
      at := Next(Now(), t, Move.ClearHolder).at;
      holder := None;
    }

    /** lock_release, second statement: sema_up (&lock->semaphore). */
    method UpLock(t: Tid)
      requires Inv(Now()) && Enabled(Now(), t, Move.UpLock)
      modifies this`lock, this`at
      ensures Inv(Now()) && Now() == Next(old(Now()), t, Move.UpLock)
    {
      hide Inv;
      NextKeeps(Now(), t, Move.UpLock);
      ghost var after := Next(Now(), t, Move.UpLock).at;
      if lock.waiters != [] {
        lock := lock.(waiters := lock.waiters[1..]);
      }
      lock := lock.(value := lock.value + 1);
      at := after;
    }

    /** cond_wait up to its lock_release: a fresh semaphore, queued at the back. */
    method CondEnqueue(t: Tid, c: Cond)
      requires Inv(Now()) && Enabled(Now(), t, Wait(c))
      modifies this`conds, this`own, this`at
      ensures Inv(Now()) && Now() == Next(old(Now()), t, Wait(c))
    {
      hide Inv;
      NextKeeps(Now(), t, Wait(c));
      HolderKnown(Now(), t);
      assert holder == Some(t);
      own := own[t := Sema(0, [])];
      conds := conds[c := conds[c] + [t]];
      at := at[t := Enqueued(c)];
    }

    /** One turn of cond_wait's sema_down on the waiter's own semaphore. */
    method CondSleepTurn(t: Tid) returns (woken: bool)
      requires Inv(Now()) && Enabled(Now(), t, SleepTurn)
      modifies this`own, this`at
      ensures Inv(Now()) && Now() == Next(old(Now()), t, SleepTurn) && woken == (old(own)[t].value > 0)
    {
      hide Inv;
      NextKeeps(Now(), t, SleepTurn);
      ghost var after := Next(Now(), t, SleepTurn).at;
      if own[t].value == 0 {
        own := own[t := own[t].(waiters := own[t].waiters + [t])];
        woken := false;
      } else {
        own := own[t := own[t].(value := own[t].value - 1)];
        woken := true;
      }
      at := after;
    }

    /** cond_signal, and the body of cond_broadcast's loop, up to the call of sema_up. */
    method CondPop(t: Tid, c: Cond, ghost m: Move) returns (w: Option<Tid>)
      requires Inv(Now()) && Enabled(Now(), t, m) && (m == Signal(c) || (m.Continue? && at[t] == Broadcasting(c)))
      modifies this`conds, this`at
      ensures Inv(Now()) && Now() == Next(old(Now()), t, m)
      ensures w == if old(conds)[c] == [] then None else Some(old(conds)[c][0])
    {
      hide Inv;
      NextKeeps(Now(), t, m);
      HolderKnown(Now(), t);
      assert holder == Some(t);
      ghost var after := Next(Now(), t, m).at;
      if conds[c] == [] {
        w := None;
      } else {
        w := Some(conds[c][0]);
        conds := conds[c := conds[c][1..]];
      }
      at := after;
    }

    /** sema_up on the semaphore of the waiter taken off the queue, which is still asleep in cond_wait. */
    method CondUp(t: Tid, w: Tid)
      requires Inv(Now()) && Enabled(Now(), t, UpWaiter) && at[t].w == w
      modifies this`own, this`at
      ensures Inv(Now()) && Now() == Next(old(Now()), t, UpWaiter)
      ensures old(at)[w].Sleeping?
    {
      hide Inv;
      NextKeeps(Now(), t, UpWaiter);
      TargetAsleep(Now(), t);
      ghost var after := Next(Now(), t, UpWaiter).at;
      ghost var m := own[w];
      if own[w].waiters != [] {
        own := own[w := own[w].(waiters := own[w].waiters[1..])];
      }
      own := own[w := own[w].(value := own[w].value + 1)];
      assert own == old(own)[w := Upped(m)];
      at := after;
    }
  }
}
