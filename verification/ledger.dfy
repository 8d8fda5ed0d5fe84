/**
 Ownership of stack blocks across the runtime's life: every block malloc
 hands out should end up either held by exactly one slot or freed, so that
 kraken_run's release loop gives back everything. kraken_start_thread as
 written breaks this on slot reuse; the releasing variant keeps it.
 */
module Ledger {
  import opened Wrappers
  import opened Threads
  import opened Bootstrap
  import Kraken

  /** The base address of a slot's stack, if it has one. */
  function HeldBy(t: Thread): multiset<nat>
  {
    if t.stack.Some? then multiset{t.stack.value.base} else multiset{}
  }

  /** Base addresses of the stacks held by slots k and above. */
  function HeldFrom(threads: seq<Thread>, k: nat): multiset<nat>
    decreases |threads| - k
  {
    if k >= |threads| then multiset{} else HeldBy(threads[k]) + HeldFrom(threads, k + 1)
  }

  /** Base addresses of all stacks the table holds. */
  function Held(threads: seq<Thread>): multiset<nat>
  {
    HeldFrom(threads, 0)
  }

  /** Base addresses of a sequence of blocks. */
  function Bases(blocks: seq<Block>): multiset<nat>
  {
    if blocks == [] then multiset{} else multiset{blocks[0].base} + Bases(blocks[1..])
  }

  /** malloc/free bookkeeping: base addresses handed out and given back. */
  datatype Heap = Heap(issued: multiset<nat>, freed: multiset<nat>)

  /** Every block handed out is held by a slot or freed, and counted once. */
  predicate Balanced(rt: Runtime, h: Heap)
  {
    h.issued == Held(rt.threads) + h.freed
  }

  /** Records a malloc that returned `alloc` (nothing for NULL). */
  function Allocate(h: Heap, alloc: Option<Block>): Heap
  {
    if alloc.Some? then h.(issued := h.issued + multiset{alloc.value.base}) else h
  }

  /** Records a free() of each block in turn. */
  function FreeAll(h: Heap, blocks: seq<Block>): Heap
  {
    h.(freed := h.freed + Bases(blocks))
  }

  /** Replacing one slot swaps its held block for the new slot's. */
  lemma {:induction false} HeldReplace(threads: seq<Thread>, i: nat, t: Thread, k: nat)
    requires k <= i < |threads|
    ensures HeldFrom(threads[i := t], k) + HeldBy(threads[i]) == HeldFrom(threads, k) + HeldBy(t)
    decreases |threads| - k
  {
    if k < i {
      HeldReplace(threads, i, t, k + 1);
      HeldStep(threads[i := t], threads, k, HeldBy(threads[i]), HeldBy(t));
    } else {
      HeldReplaceHere(threads, i, t);
    }
  }

  /** One step of the induction in HeldReplace: slot k itself is unchanged. */
  lemma HeldStep(u: seq<Thread>, threads: seq<Thread>, k: nat, out: multiset<nat>, in': multiset<nat>)
    requires k < |u| == |threads| && u[k] == threads[k]
    requires HeldFrom(u, k + 1) + out == HeldFrom(threads, k + 1) + in'
    ensures HeldFrom(u, k) + out == HeldFrom(threads, k) + in'
  {
    var h := HeldBy(threads[k]);
    calc {
      HeldFrom(u, k) + out;
      h + HeldFrom(u, k + 1) + out;
      h + (HeldFrom(u, k + 1) + out);
      h + (HeldFrom(threads, k + 1) + in');
      h + HeldFrom(threads, k + 1) + in';
      HeldFrom(threads, k) + in';
    }
  }

  /** The base case of HeldReplace: the replaced slot is the first one counted. */
  lemma HeldReplaceHere(threads: seq<Thread>, i: nat, t: Thread)
    requires i < |threads|
    ensures HeldFrom(threads[i := t], i) + HeldBy(threads[i]) == HeldFrom(threads, i) + HeldBy(t)
  {
    var u := threads[i := t];
    HeldSame(u, threads, i + 1);
    assert HeldFrom(u, i) == HeldBy(t) + HeldFrom(u, i + 1);
    assert HeldFrom(threads, i) == HeldBy(threads[i]) + HeldFrom(threads, i + 1);
  }

  /** Tables with the same stack column hold the same blocks. */
  lemma {:induction false} HeldSame(a: seq<Thread>, b: seq<Thread>, k: nat)
    requires |a| == |b|
    requires forall i :: k <= i < |a| ==> a[i].stack == b[i].stack
    ensures HeldFrom(a, k) == HeldFrom(b, k)
    decreases |a| - k
  {
    if k < |a| {
      HeldSame(a, b, k + 1);
    }
  }

  /** The release loop frees exactly the held blocks, each as often as it is held. */
  lemma {:induction false} ReleaseFreesHeld(threads: seq<Thread>, k: nat)
    requires k <= |threads|
    ensures Bases(Kraken.StacksAt(threads, Kraken.FreeOrder(threads, k))) == HeldFrom(threads, k)
    decreases |threads| - k
  {
    if k < |threads| {
      ReleaseFreesHeld(threads, k + 1);
      var rest := Kraken.FreeOrder(threads, k + 1);
      assert HeldFrom(threads, k) == HeldBy(threads[k]) + HeldFrom(threads, k + 1);
      if threads[k].stack.Some? {
        var slots := [k] + rest;
        assert Kraken.FreeOrder(threads, k) == slots;
        assert slots[1..] == rest;
        var blocks := Kraken.StacksAt(threads, slots);
        assert blocks == [threads[k].stack.value] + Kraken.StacksAt(threads, rest);
        assert Bases(blocks) == multiset{threads[k].stack.value.base} + Bases(Kraken.StacksAt(threads, rest));
      } else {
        assert Kraken.FreeOrder(threads, k) == rest;
      }
    }
  }

  /** kraken_initialize_runtime: the boot block is the only one handed out, and slot 0 holds it. */
  lemma InitializeBalanced(capacity: nat, boot: Option<Block>)
    requires 1 <= capacity <= Kraken.MaxCapacity
    ensures Balanced(Kraken.Initialize(capacity, boot), Allocate(Heap(multiset{}, multiset{}), boot))
  {
    EmptyTail(Kraken.Initialize(capacity, boot).threads, 1);
  }

  /** Slots from k on with NULL stacks hold nothing. */
  lemma {:induction false} EmptyTail(threads: seq<Thread>, k: nat)
    requires forall i :: k <= i < |threads| ==> threads[i].stack.None?
    ensures HeldFrom(threads, k) == multiset{}
    decreases |threads| - k
  {
    if k < |threads| {
      EmptyTail(threads, k + 1);
    }
  }

  /** kraken_yield moves no block between slots. */
  lemma YieldBalanced(rt: Runtime, live: Context, h: Heap)
    requires Valid(rt) && Balanced(rt, h) && Kraken.Yield(rt, live).Switched?
    ensures Balanced(Kraken.Yield(rt, live).next, h)
  {
    HeldSame(Kraken.Yield(rt, live).next.threads, rt.threads, 0);
  }

  /** kraken_guard moves no block between slots. */
  lemma GuardBalanced(rt: Runtime, live: Context, h: Heap)
    requires Valid(rt) && Balanced(rt, h)
    ensures match Kraken.Guard(rt, live)
            case GuardReturned(after) => Balanced(after, h)
            case GuardSwitched(next, _) => Balanced(next, h)
  {
    match Kraken.Guard(rt, live)
    case GuardReturned(after) =>
      if rt.current != 0 {
        HeldSame(after.threads, rt.threads, 0);
      }
    case GuardSwitched(next, _) =>
      var stopped := Kraken.StopCurrent(rt);
      HeldSame(stopped.threads, rt.threads, 0);
      YieldBalanced(stopped, live, h);
  }

  /** The block malloc returned, if any, as a multiset of base addresses. */
  function Issued(alloc: Option<Block>): multiset<nat>
  {
    if alloc.Some? then multiset{alloc.value.base} else multiset{}
  }

  /** kraken_start_thread swaps the chosen slot's old block for the one malloc returned. */
  lemma StartThreadSwapsBlock(rt: Runtime, entry: nat, guardAddr: nat, alloc: Option<Block>)
    requires Valid(rt) && (alloc.Some? ==> ValidBlock(Kraken.Target, alloc.value))
    requires Kraken.FirstStopped(rt.threads, 0).Some?
    ensures var i := Kraken.FirstStopped(rt.threads, 0).value;
            Held(Kraken.StartThread(rt, entry, guardAddr, alloc).rt.threads) + HeldBy(rt.threads[i])
              == Held(rt.threads) + Issued(alloc)
  {
    var i := Kraken.FirstStopped(rt.threads, 0).value;
    var after := Kraken.StartThread(rt, entry, guardAddr, alloc).rt;
    assert after.threads == rt.threads[i := after.threads[i]];
    HeldReplace(rt.threads, i, after.threads[i], 0);
    assert HeldBy(after.threads[i]) == Issued(alloc);
  }

  /**
   kraken_start_thread as written: when the first STOPPED slot still holds
   the stack of an earlier thread, that block is overwritten without a
   free(). Afterwards it is issued but neither held by a slot nor freed.
   */
  lemma StartThreadLeaksReusedStack(rt: Runtime, entry: nat, guardAddr: nat, alloc: Option<Block>, h: Heap)
    requires Valid(rt) && (alloc.Some? ==> ValidBlock(Kraken.Target, alloc.value))
    requires Balanced(rt, h)
    requires Kraken.FirstStopped(rt.threads, 0).Some?
    requires rt.threads[Kraken.FirstStopped(rt.threads, 0).value].stack.Some?
    ensures var after := Kraken.StartThread(rt, entry, guardAddr, alloc).rt;
            var h' := Allocate(h, alloc);
            var lost := rt.threads[Kraken.FirstStopped(rt.threads, 0).value].stack.value.base;
            && Held(after.threads) + h'.freed + multiset{lost} == h'.issued
            && !Balanced(after, h')
  {
    StartThreadSwapsBlock(rt, entry, guardAddr, alloc);
    var after := Kraken.StartThread(rt, entry, guardAddr, alloc).rt;
    var h' := Allocate(h, alloc);
    var lost := rt.threads[Kraken.FirstStopped(rt.threads, 0).value].stack.value.base;
    calc {
      Held(after.threads) + h'.freed + multiset{lost};
      Held(after.threads) + multiset{lost} + h.freed;
      Held(rt.threads) + Issued(alloc) + h.freed;
      h.issued + Issued(alloc);
      h'.issued;
    }
    assert |Held(after.threads) + h'.freed + multiset{lost}| == |Held(after.threads) + h'.freed| + 1;
  }

  /** Result of the releasing start: the runtime and return code, and the updated bookkeeping. */
  datatype Restarted = Restarted(started: Kraken.Started, heap: Heap)

  /**
   kraken_start_thread with the reused slot's old stack freed before the new
   one is allocated. The runtime and return code are those of the source;
   only the missing free() is added.
   */
  function StartThreadReleasing(rt: Runtime, h: Heap, entry: nat, guardAddr: nat, alloc: Option<Block>): (r: Restarted)
    requires Valid(rt) && (alloc.Some? ==> ValidBlock(Kraken.Target, alloc.value))
    ensures r.started == Kraken.StartThread(rt, entry, guardAddr, alloc)
    ensures Balanced(rt, h) ==> Balanced(r.started.rt, r.heap)
  {
    var started := Kraken.StartThread(rt, entry, guardAddr, alloc);
    match Kraken.FirstStopped(rt.threads, 0)
    case None => Restarted(started, h)
    case Some(i) =>
      StartThreadSwapsBlock(rt, entry, guardAddr, alloc);
      SwapBalance(Held(rt.threads), Held(started.rt.threads), HeldBy(rt.threads[i]), Issued(alloc), h);
      Restarted(started, h.(issued := h.issued + Issued(alloc), freed := h.freed + HeldBy(rt.threads[i])))
  }

  /** Bookkeeping arithmetic: freeing the block given up and issuing the block taken keeps the balance. */
  lemma SwapBalance(held: multiset<nat>, held': multiset<nat>, out: multiset<nat>, in': multiset<nat>, h: Heap)
    requires held' + out == held + in'
    ensures h.issued == held + h.freed ==> h.issued + in' == held' + (h.freed + out)
  {
    if h.issued == held + h.freed {
      calc {
        held' + (h.freed + out);
        held' + out + h.freed;
        held + in' + h.freed;
        h.issued + in';
      }
    }
  }

  /**
   kraken_run that exits frees exactly the blocks still owed: with balanced
   bookkeeping, everything ever issued has been freed, each once.
   */
  lemma RunExitFreesEverything(rt: Runtime, code: int, live: Context, h: Heap)
    requires Valid(rt) && Balanced(rt, h)
    ensures var o := Kraken.Run(rt, code, live);
              o.Exited? ==> FreeAll(h, o.freed).freed == h.issued
  {
    ReleaseFreesHeld(rt.threads, 0);
  }
}
