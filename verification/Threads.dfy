/** What the models of the scheduler and of synchronization share (threads/thread.c, threads/synch.h). */
module Threads {
  type Tid = nat

  const QUANTUM: nat := 7             // ticks in a time slice

  datatype Sema = Sema(value: nat, waiters: seq<Tid>)
}
