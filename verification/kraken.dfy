/**
 The lifecycle operations of kraken.h over an immutable runtime value:
 kraken_initialize_runtime, kraken_yield, kraken_start_thread, kraken_guard
 and kraken_run, with the invariants they keep.
 */
module Kraken {
  import opened Wrappers
  import opened Threads
  import opened Bootstrap
  import Scheduler

  /** The architecture branch this runtime is built for. */
  const Target: Arch := X86_64

  /**
   Largest table the uint16_t slot counters of kraken_initialize_runtime and
   kraken_run can walk: at 65536 slots `thread_idx < KRAKEN_MAX_THREADS`
   would never become false.
   */
  const MaxCapacity: nat := 65535

  /** Every slot's id is its index. */
  predicate IdsAreIndices(threads: seq<Thread>)
  {
    forall i :: 0 <= i < |threads| ==> threads[i].id == i
  }

  /** At most one slot is RUNNING, and if one is, it is the current one. */
  predicate AtMostOneRunning(rt: Runtime)
  {
    forall i :: 0 <= i < |rt.threads| && rt.threads[i].status == Running ==> i == rt.current
  }

  /**
   What holds whenever runtime code inspects the table, including the moment
   kraken_guard or kraken_run has just stopped the current thread: ids are
   indices, no slot but the current one runs, the current slot is not READY,
   the boot slot 0 is never STOPPED and is READY whenever another slot has
   control, and every live
   application slot owns a stack.
   */
  predicate Coherent(rt: Runtime)
  {
    && Valid(rt)
    && |rt.threads| <= MaxCapacity
    && IdsAreIndices(rt.threads)
    && AtMostOneRunning(rt)
    && rt.threads[rt.current].status != Ready
    && rt.threads[0].status != Stopped
    && (rt.current != 0 ==> rt.threads[0].status == Ready)
    && forall i :: 0 < i < |rt.threads| && rt.threads[i].status != Stopped ==> rt.threads[i].stack.Some?
  }

  /** The invariant while a thread has control: Coherent, and the current slot is the RUNNING one. */
  predicate Inv(rt: Runtime)
  {
    Coherent(rt) && rt.threads[rt.current].status == Running
  }

  /**
   kraken_initialize_runtime: a zeroed table (every slot STOPPED, NULL stack,
   zero context), slot 0 current and RUNNING with the block malloc returned
   (or NULL: the source does not check), then every id set to its index.
   */
  function Initialize(capacity: nat, boot: Option<Block>): (rt: Runtime)
    requires 1 <= capacity <= MaxCapacity
    ensures |rt.threads| == capacity && rt.current == 0
    ensures rt.threads[0].status == Running && rt.threads[0].stack == boot
    ensures forall i :: 0 < i < capacity ==> rt.threads[i].status == Stopped && rt.threads[i].stack.None?
    ensures forall i :: 0 <= i < capacity ==> rt.threads[i].context == ZeroContext
    ensures IdsAreIndices(rt.threads)
    ensures Inv(rt)
  {
    var zeroed := seq(capacity, _ => Thread(ZeroContext, Stopped, None, 0));
    var booted := zeroed[0 := zeroed[0].(status := Running, stack := boot)];
    Runtime(seq(capacity, i requires 0 <= i < capacity => booted[i].(id := i)), 0)
  }

  /** Result of kraken_yield: false (nothing changed) or a switch to a new current slot. */
  datatype YieldOutcome = NoSwitch | Switched(next: Runtime, restored: Context)

  /**
   kraken_yield. The scan picks the next slot; the outgoing slot becomes
   READY unless it is STOPPED; the chosen slot becomes RUNNING and current.
   kraken_switch is the opaque last step: it saves the live registers `live`
   into the outgoing context and resumes from the chosen slot's context,
   returned as `restored`.
   */
  function Yield(rt: Runtime, live: Context): (o: YieldOutcome)
    requires Valid(rt)
    ensures o.NoSwitch? <==>
              rt.threads[rt.current].status != Ready
              && Scheduler.NoOtherReady(Statuses(rt.threads), rt.current)
    ensures o.Switched? ==>
              var c := rt.current;
              var j := o.next.current;
              && |o.next.threads| == |rt.threads| && j < |rt.threads|
              && rt.threads[j].status == Ready
              && (j == c || Scheduler.IsFirstReadyAfter(Statuses(rt.threads), c, j))
              && o.next.threads[j].status == Running
              && o.next.threads[c].context == live
              && (j != c ==> o.next.threads[j] == rt.threads[j].(status := Running))
              && (j == c ==> o.next.threads[c] == rt.threads[c].(status := Running, context := live))
              && (j != c ==> o.next.threads[c].status == (if rt.threads[c].status == Stopped then Stopped else Ready))
              && o.restored == (if j == c then live else rt.threads[j].context)
              && (forall i :: 0 <= i < |rt.threads| && i != c && i != j ==> o.next.threads[i] == rt.threads[i])
              && (forall i :: 0 <= i < |rt.threads| ==>
                    o.next.threads[i].stack == rt.threads[i].stack && o.next.threads[i].id == rt.threads[i].id)
    ensures rt.threads[rt.current].status == Ready ==> o.Switched? && o.next.current == rt.current
    ensures rt.threads[rt.current].status != Ready ==>
              forall j: nat :: (o.Switched? && o.next.current == j) <==>
                Scheduler.IsFirstReadyAfter(Statuses(rt.threads), rt.current, j)
    ensures o.Switched? && AtMostOneRunning(rt) ==> AtMostOneRunning(o.next)
    ensures Coherent(rt) ==> (o.Switched? ==> Inv(o.next)) && (rt.current != 0 ==> o.Switched?)
  {
    match Scheduler.Scan(Statuses(rt.threads), rt.current)
    case None => NoSwitch
    case Some(j) =>
      var c := rt.current;
      var outgoing := rt.threads[c];
      var saved := outgoing.(status := if outgoing.status != Stopped then Ready else outgoing.status, context := live);
      var parked := rt.threads[c := saved];
      var resumed := parked[j := parked[j].(status := Running)];
      Switched(Runtime(resumed, j), resumed[j].context)
  }

  /** First-fit search of kraken_start_thread: the lowest STOPPED slot at or after k. */
  function FirstStopped(threads: seq<Thread>, k: nat): (r: Option<nat>)
    requires k <= |threads|
    ensures r.Some? ==>
              && k <= r.value < |threads| && threads[r.value].status == Stopped
              && forall i :: k <= i < r.value ==> threads[i].status != Stopped
    ensures r.None? ==> forall i :: k <= i < |threads| ==> threads[i].status != Stopped
    decreases |threads| - k
  {
    if k == |threads| then None
    else if threads[k].status == Stopped then Some(k)
    else FirstStopped(threads, k + 1)
  }

  /**
   A slot prepared by the x86-64 branch of kraken_start_thread on the block at
   `blank` as malloc returned it: the guard address in the word at
   StackSize - 8, the entry address in the word at StackSize - 16, every word
   below them as malloc left it, rsp addressing the entry word (the other
   registers of `before` kept), so that two `ret`s yield entry, then guard.
   */
  predicate Bootstrapped(t: Thread, before: Context, blank: Block, entry: nat, guardAddr: nat)
  {
    && t.stack.Some? && ValidBlock(Target, blank)
    && var blk := t.stack.value;
       var base := blank.base;
       && blk.base == base && ValidBlock(Target, blk)
       && (forall o: nat :: WordOffset(Target, o) && o < StackSize - 16 ==>
             Load(Target, blk, o) == Load(Target, blank, o))
       && Load(Target, blk, StackSize - 8) == guardAddr
       && Load(Target, blk, StackSize - 16) == entry
       && t.context == before.(rsp := base + StackSize - 16)
       && Pop(Target, blk, t.context.rsp) == Some((entry, t.context.rsp + 8))
       && Pop(Target, blk, t.context.rsp + 8) == Some((guardAddr, base + StackSize))
  }

  /** Result of kraken_start_thread: the new runtime and the returned int. */
  datatype Started = Started(rt: Runtime, code: int)

  /**
   kraken_start_thread. `alloc` is what malloc returned for the new stack
   (None for NULL). The stack field is overwritten before the NULL check, so
   a failed allocation also clears it, and a reused slot's old block is
   dropped without being freed.
   */
  function StartThread(rt: Runtime, entry: nat, guardAddr: nat, alloc: Option<Block>): (s: Started)
    requires Valid(rt)
    requires alloc.Some? ==> ValidBlock(Target, alloc.value)
    ensures s.code == 0 || s.code == -1
    ensures Valid(s.rt) && s.rt.current == rt.current && |s.rt.threads| == |rt.threads|
    ensures FirstStopped(rt.threads, 0).None? ==> s == Started(rt, -1)
    ensures FirstStopped(rt.threads, 0).Some? ==>
              var i := FirstStopped(rt.threads, 0).value;
              && (forall k :: 0 <= k < |rt.threads| && k != i ==> s.rt.threads[k] == rt.threads[k])
              && (alloc.None? ==> s.code == -1 && s.rt.threads[i] == rt.threads[i].(stack := None))
              && (alloc.Some? ==>
                    && s.code == 0
                    && s.rt.threads[i].status == Ready
                    && s.rt.threads[i].id == rt.threads[i].id
                    && Bootstrapped(s.rt.threads[i], rt.threads[i].context, alloc.value, entry, guardAddr))
    ensures s.code == -1 ==> Statuses(s.rt.threads) == Statuses(rt.threads)
    ensures Inv(rt) ==> Inv(s.rt)
  {
    match FirstStopped(rt.threads, 0)
    case None => Started(rt, -1)
    case Some(i) =>
      var t := rt.threads[i].(stack := alloc);
      if alloc.None? then Started(rt.(threads := rt.threads[i := t]), -1)
      else
        var f := Trampoline(Target, alloc.value, entry, guardAddr);
        var ready := t.(stack := Some(f.stack), context := t.context.(rsp := f.sp), status := Ready);
        Started(rt.(threads := rt.threads[i := ready]), 0)
  }

  /** Marks the current slot STOPPED, as kraken_run and kraken_guard do first (kraken.h:203, kraken.h:293). */
  function StopCurrent(rt: Runtime): (r: Runtime)
    requires Valid(rt)
    ensures Valid(r) && r.current == rt.current && |r.threads| == |rt.threads|
    ensures r.threads[r.current] == rt.threads[rt.current].(status := Stopped)
    ensures forall i :: 0 <= i < |rt.threads| && i != rt.current ==> r.threads[i] == rt.threads[i]
    ensures Coherent(rt) && rt.current != 0 ==> Coherent(r)
  {
    rt.(threads := rt.threads[rt.current := rt.threads[rt.current].(status := Stopped)])
  }

  /**
   A non-boot current thread that stopped itself and yielded: it keeps the
   saved registers and stays STOPPED, the first READY slot after it resumes
   with its own saved context, and nothing else changes.
   */
  predicate Handoff(rt: Runtime, live: Context, next: Runtime, restored: Context)
    requires Valid(rt)
  {
    var c := rt.current;
    var j := next.current;
    && |next.threads| == |rt.threads| && j < |rt.threads|
    && Scheduler.IsFirstReadyAfter(Statuses(rt.threads), c, j)
    && next.threads[c] == rt.threads[c].(status := Stopped, context := live)
    && next.threads[j] == rt.threads[j].(status := Running)
    && restored == rt.threads[j].context
    && forall i :: 0 <= i < |rt.threads| && i != c && i != j ==> next.threads[i] == rt.threads[i]
  }

  /** A yield right after the current thread stops itself is a `Handoff`. */
  lemma StoppedYieldHandsOff(rt: Runtime, live: Context)
    requires Valid(rt)
    ensures var o := Yield(StopCurrent(rt), live);
              o.Switched? ==> Handoff(rt, live, o.next, o.restored)
  {
    var stopped := StopCurrent(rt);
    assert Statuses(stopped.threads) == Statuses(rt.threads)[rt.current := Stopped];
  }

  /** Result of kraken_guard: it returns, or its yield hands control to another slot. */
  datatype GuardOutcome = GuardReturned(after: Runtime) | GuardSwitched(next: Runtime, restored: Context)

  /**
   kraken_guard, reached when an entry function returns: a non-boot current
   thread is stopped and yields; on slot 0 it does nothing at all.
   */
  function Guard(rt: Runtime, live: Context): (g: GuardOutcome)
    requires Valid(rt)
    ensures rt.current == 0 ==> g == GuardReturned(rt)
    ensures rt.current != 0 ==>
              (g.GuardReturned? <==> Scheduler.NoOtherReady(Statuses(rt.threads), rt.current))
    ensures rt.current != 0 && g.GuardReturned? ==> g.after == StopCurrent(rt)
    ensures rt.current != 0 && g.GuardSwitched? ==>
              && |g.next.threads| == |rt.threads|
              && Yield(StopCurrent(rt), live) == Switched(g.next, g.restored)
              && Handoff(rt, live, g.next, g.restored)
    ensures Coherent(rt) && rt.current != 0 ==> g.GuardSwitched? && Inv(g.next)
  {
    if rt.current == 0 then GuardReturned(rt)
    else
      var stopped := StopCurrent(rt);
      StoppedYieldHandsOff(rt, live);
      match Yield(stopped, live)
      case NoSwitch => GuardReturned(stopped)
      case Switched(next, restored) => GuardSwitched(next, restored)
  }

  /** The slots whose stacks kraken_run's release loop frees from index k on, in order. */
  function FreeOrder(threads: seq<Thread>, k: nat): (slots: seq<nat>)
    requires k <= |threads|
    ensures forall a :: 0 <= a < |slots| ==> k <= slots[a] < |threads| && threads[slots[a]].stack.Some?
    ensures forall a, b :: 0 <= a < b < |slots| ==> slots[a] < slots[b]
    ensures forall i :: k <= i < |threads| && threads[i].stack.Some? ==> i in slots
    decreases |threads| - k
  {
    if k == |threads| then []
    else if threads[k].stack.Some? then [k] + FreeOrder(threads, k + 1)
    else FreeOrder(threads, k + 1)
  }

  /** The blocks held by the given slots, in the same order. */
  function StacksAt(threads: seq<Thread>, slots: seq<nat>): (blocks: seq<Block>)
    requires forall a :: 0 <= a < |slots| ==> slots[a] < |threads| && threads[slots[a]].stack.Some?
    ensures |blocks| == |slots|
    ensures forall a :: 0 <= a < |slots| ==> blocks[a] == threads[slots[a]].stack.value
  {
    if slots == [] then [] else [threads[slots[0]].stack.value] + StacksAt(threads, slots[1..])
  }

  /** The sequence of blocks passed to free() by kraken_run before exit(). */
  function Released(threads: seq<Thread>): (r: seq<Block>)
    ensures |r| == |FreeOrder(threads, 0)|
    ensures forall a :: 0 <= a < |r| ==> r[a] == threads[FreeOrder(threads, 0)[a]].stack.value
  {
    StacksAt(threads, FreeOrder(threads, 0))
  }

  /** kraken_run ends by handing control to another slot or by exiting the process. */
  datatype RunOutcome = RunSwitched(next: Runtime, restored: Context) | Exited(code: int, freed: seq<Block>)

  /**
   One turn of kraken_run's drain loop (kraken.h:207), taken each time
   control comes back to it: switch away again, or, once the yield reports
   false, free every non-NULL stack and exit with `code`.
   */
  function DrainStep(rt: Runtime, code: int, live: Context): (o: RunOutcome)
    requires Valid(rt)
    ensures o.Exited? <==>
              rt.threads[rt.current].status != Ready
              && Scheduler.NoOtherReady(Statuses(rt.threads), rt.current)
    ensures o.Exited? ==> o.code == code && o.freed == Released(rt.threads)
    ensures o.RunSwitched? ==> Yield(rt, live) == Switched(o.next, o.restored)
    ensures Coherent(rt) && o.RunSwitched? ==> Inv(o.next)
  {
    match Yield(rt, live)
    case NoSwitch => Exited(code, Released(rt.threads))
    case Switched(next, restored) => RunSwitched(next, restored)
  }

  /**
   kraken_run: a non-boot caller is stopped and yields first; then the drain
   loop runs. It never returns to its caller.
   */
  function Run(rt: Runtime, code: int, live: Context): (o: RunOutcome)
    requires Valid(rt)
    ensures o.Exited? <==>
              && Scheduler.NoOtherReady(Statuses(rt.threads), rt.current)
              && (rt.current == 0 ==> rt.threads[0].status != Ready)
    ensures o.Exited? ==> o.code == code && o.freed == Released(rt.threads)
    ensures rt.current == 0 ==> o == DrainStep(rt, code, live)
    ensures rt.current != 0 && o.RunSwitched? ==>
              && Yield(StopCurrent(rt), live) == Switched(o.next, o.restored)
              && Handoff(rt, live, o.next, o.restored)
    ensures Coherent(rt) ==> (o.RunSwitched? ==> Inv(o.next)) && (rt.current != 0 ==> o.RunSwitched?)
  {
    if rt.current != 0 then
      var stopped := StopCurrent(rt);
      ReleasedKeepsStacks(rt.threads, stopped.threads);
      StoppedYieldHandsOff(rt, live);
      match Yield(stopped, live)
      case Switched(next, restored) => RunSwitched(next, restored)
      case NoSwitch => DrainStep(stopped, code, live)
    else DrainStep(rt, code, live)
  }

  /** The release loop looks only at the stack column. */
  lemma {:induction false} FreeOrderKeepsStacks(a: seq<Thread>, b: seq<Thread>, k: nat)
    requires |a| == |b| && k <= |a|
    requires forall i :: 0 <= i < |a| ==> a[i].stack == b[i].stack
    ensures FreeOrder(a, k) == FreeOrder(b, k)
    decreases |a| - k
  {
    if k < |a| {
      FreeOrderKeepsStacks(a, b, k + 1);
    }
  }

  /** Tables with the same stacks release the same blocks. */
  lemma ReleasedKeepsStacks(a: seq<Thread>, b: seq<Thread>)
    requires |a| == |b|
    requires forall i :: 0 <= i < |a| ==> a[i].stack == b[i].stack
    ensures Released(a) == Released(b)
  {
    FreeOrderKeepsStacks(a, b, 0);
  }
}
