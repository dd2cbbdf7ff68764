/** The shortest-job-first policy as the kernel runs it (threads/thread.c), on its lists and thread structures. */
module KernelSjf {
  import opened FixedPoint
  import opened StableOrder
  import opened Lists
  import opened Sjf
  import opened Threads

  class Scheduler {
    const idle: Tid
    const initial: Tid
    var threads: map<Tid, Thread>
    var all: seq<Tid>
    var records: seq<Tid>
    var ready: seq<Tid>
    var cur: Tid

    ghost function Now(): State
      reads this
    {
      State(threads, all, records, ready, cur)
    }

    ghost predicate Valid()
      reads this
    {
      Inv(Now(), idle)
    }

    /** thread_init and thread_start. */
    constructor (initial: Tid, idle: Tid)
      requires initial != idle
      ensures Valid() && this.idle == idle && this.initial == initial && Now() == Boot(initial, idle)
    {
      this.initial, this.idle := initial, idle;
      threads, all, records, ready := map[], [], [], [];
      cur := initial;
      new;
      BootOk(initial, idle);
      InitThread(initial, "main");
      InitThread(idle, "idle");
    }

    /** The estimate for t's name; a name seen for the first time gets t itself as its record. */
    method GetTotalExec(t: Tid) returns (total: int)
      requires t in threads && forall r | r in records :: r in threads
      modifies this`records
      ensures var i := Lookup(threads, old(records), threads[t].name);
              if i < |old(records)| then records == old(records) && total == threads[records[i]].total
              else records == old(records) + [t] && total == 0
    {
      var i := 0;
      while i < |records|
        invariant i <= |records|
        invariant forall j :: 0 <= j < i ==> threads[records[j]].name != threads[t].name
      {
        if threads[records[i]].name == threads[t].name {
          return threads[records[i]].total;
        }
        i := i + 1;
      }
      records := records + [t];
      total := 0;
    }

    /** The part of init_thread that concerns estimates. */
    method InitThread(t: Tid, name: string)
      requires RecordsUnique(threads, records) && t !in threads
      modifies this`threads, this`records, this`all
      ensures RecordsUnique(old(threads), old(records)) && Now() == Created(old(Now()), t, name)
      ensures RecordsUnique(threads, records)
    {
      hide Estimate, Recorded, RecordsWith, RecordsUnique, Lookup;
      ghost var threads0, records0 := threads, records;
      threads := threads[t := Thread(name, 0, 0)];
      FreshLookup(threads0, threads, records, t, name);
      var total := GetTotalExec(t);
      threads := threads[t := threads[t].(total := total)];
      assert threads == threads0[t := threads[t]];
      InitUnique(threads0, records0, t, threads[t]);
      all := all + [t];
    }

    /** thread_create's part: a new thread, blocked at first. */
    method ThreadCreate(t: Tid, name: string)
      requires Valid() && t !in threads
      modifies this`threads, this`records, this`all
      ensures Valid() && Now() == Next(old(Now()), Create(t, name), idle)
    {
      hide Estimate, Recorded, RecordsWith, RecordsUnique, Created, Distinct;
      CreatedKeeps(Now(), t, name, idle);
      InitThread(t, name);
    }

    /** The current tick is charged to the running thread. */
    method ThreadTick()
      requires Valid()
      modifies this`threads
      ensures Valid() && Now() == Next(old(Now()), Ticked, idle)
    {
      hide Consistent, Distinct;
      ChargedKeeps(Now(), idle);
      threads := threads[cur := threads[cur].(current := threads[cur].current + 1)];
    }

    method ThreadUnblock(t: Tid)
      requires Valid() && Enabled(Now(), Unblock(t), idle)
      modifies this`ready
      ensures Valid() && Now() == Next(old(Now()), Unblock(t), idle)
    {
      hide Consistent;
      NextKeeps(Now(), Unblock(t), idle);
      ready := ready + [t];
    }

    /** schedule's choice. */
    method Schedule()
      modifies this`ready, this`cur
      ensures Now() == Dispatched(old(Now()), idle)
    {
      if ready == [] {
        cur := idle;
      } else {
        cur, ready := ready[0], ready[1..];
      }
    }

    method ThreadBlock()
      requires Valid()
      modifies this`ready, this`cur
      ensures Valid() && Now() == Next(old(Now()), Block, idle)
    {
      hide Consistent, Distinct, Dispatched;
      NextKeeps(Now(), Block, idle);
      Schedule();
    }

    method ThreadYield()
      requires Valid()
      modifies this`ready, this`cur
      ensures Valid() && Now() == Next(old(Now()), Yield, idle)
    {
      hide Consistent, Distinct, Dispatched;
      NextKeeps(Now(), Yield, idle);
      if cur != idle {
        ready := ready + [cur];
      }
      Schedule();
    }

    method ForeachGetTotalExec()
      requires Distinct(all) && RecordsUnique(threads, records)
      requires forall t | t in all :: t in threads && Recorded(threads, records, threads[t].name)
      modifies this`threads, this`records
      ensures records == old(records) && threads == WithEstimates(old(threads), all, records)
    {
      hide Estimate, WithEstimates, Lookup, Recorded, RecordsUnique;
      ghost var before := threads;
      ghost var after := WithEstimates(before, all, records);
      WithEstimatesAt(before, all, records);
      var i := 0;
      while i < |all|
        invariant i <= |all| && records == old(records) && threads.Keys == before.Keys
        invariant forall j :: 0 <= j < i ==> threads[all[j]] == after[all[j]]
        invariant forall t | t in threads && t !in all[..i] :: threads[t] == before[t]
        invariant forall t | t in threads :: threads[t] == before[t] || threads[t] == after[t]
      {
        ForeachStep(before, threads, all, records, all[i]);
        var total := GetTotalExec(all[i]);
        threads := threads[all[i] := threads[all[i]].(total := total)];
        assert all[..i + 1] == all[..i] + [all[i]];
        i := i + 1;
      }
      assert all[..i] == all;
    }

    method CalcNewTotalExec(previous: int, recent: int)
      requires cur in threads
      modifies this`threads
      ensures threads == old(threads)[cur := old(threads)[cur].(total := NewEstimate(previous, recent))]
    {
      var res;
      if previous == 0 {
        res := recent;
      } else {
        var oneFp := IntToFp(1);
        var alpha := DivInt(oneFp, 2);
        var alphaAlt := SubFp(oneFp, alpha);
        var recentVal := MultInt(alpha, recent);
        var oldVal := MultInt(alphaAlt, previous);
        res := FpToIntRound(AddFp(recentVal, oldVal));
      }
      threads := threads[cur := threads[cur].(total := res)];
    }

    /** thread_exit: the new estimate goes on record, everyone's estimate is refreshed, the queue is sorted by it, and the
        first thread of the queue takes over. */
    method ThreadExit()
      requires Valid() && cur != idle
      modifies this`threads, this`records, this`all, this`ready, this`cur
      ensures Valid() && Now() == Next(old(Now()), Exit, idle)
    {
      hide Estimate, WithEstimates, Lookup, Recorded, RecordsUnique, Consistent, StableSort, DurationLess, NewEstimate, Distinct,
           Dispatched;
      ghost var s := Now();
      NextKeeps(s, Exit, idle);
      ConsistentRecords(threads, all, records);
      CalcNewTotalExec(threads[cur].total, threads[cur].current);
      EstimatedRecords(s.threads, threads, all, records, cur);
      ForeachGetTotalExec();
      ready := StableSort(DurationLess(threads), ready);
      all := Without(all, cur);
      assert Now() == Exiting(s);
      Schedule();
    }
  }
}
