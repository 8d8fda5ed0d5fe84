/**
 The runtime's records (kraken.h:57-98): the saved register context, the
 thread control block and the runtime that owns the fixed table of them.
 */
module Threads {
  import opened Wrappers
  import Bootstrap

  /** enum kraken_status; STOPPED is 0, so a zeroed slot is STOPPED. */
  datatype Status = Stopped | Running | Ready

  /** struct kraken_context of the x86-64 branch: rsp and the callee-saved registers. */
  datatype Context = Context(rsp: nat, r15: nat, r14: nat, r13: nat, r12: nat, rbx: nat, rbp: nat)

  /** The context of a zeroed slot. */
  const ZeroContext := Context(0, 0, 0, 0, 0, 0, 0)

  /** struct kraken_thread; `stack` is None for a NULL stack pointer. */
  datatype Thread = Thread(context: Context, status: Status, stack: Option<Bootstrap.Block>, id: nat)

  /** struct kraken_runtime; `current` is the index current_thread points at. */
  datatype Runtime = Runtime(threads: seq<Thread>, current: nat)

  /** A table with at least one slot and a current pointer inside it. */
  predicate Valid(rt: Runtime)
  {
    1 <= |rt.threads| && rt.current < |rt.threads|
  }

  /** The status column of the table. */
  function Statuses(threads: seq<Thread>): (st: seq<Status>)
    ensures |st| == |threads|
    ensures forall i :: 0 <= i < |threads| ==> st[i] == threads[i].status
  {
    seq(|threads|, i requires 0 <= i < |threads| => threads[i].status)
  }
}
