/**
 Concrete runs of the runtime: the start-up sequence of kraken_test.c, an
 immediate kraken_run with no threads, and a slot reuse that leaks a stack.
 */
module Scenarios {
  import opened Wrappers
  import opened Threads
  import opened Bootstrap
  import Scheduler
  import Kraken
  import Ledger

  /**
   kraken_test.c: a table of four, three threads started after
   initialisation. Each start succeeds and fills the next slot; a fourth
   start finds no STOPPED slot and returns -1, whatever malloc would return.
   */
  lemma ThreeStartsFillTable(boot: Option<Block>, b1: Block, b2: Block, b3: Block,
                             t1: nat, t2: nat, t3: nat, guardAddr: nat, more: Option<Block>)
    requires ValidBlock(Kraken.Target, b1) && ValidBlock(Kraken.Target, b2) && ValidBlock(Kraken.Target, b3)
    requires more.Some? ==> ValidBlock(Kraken.Target, more.value)
    ensures var rt0 := Kraken.Initialize(4, boot);
            var s1 := Kraken.StartThread(rt0, t1, guardAddr, Some(b1));
            var s2 := Kraken.StartThread(s1.rt, t2, guardAddr, Some(b2));
            var s3 := Kraken.StartThread(s2.rt, t3, guardAddr, Some(b3));
            var s4 := Kraken.StartThread(s3.rt, t1, guardAddr, more);
            && s1.code == 0 && s2.code == 0 && s3.code == 0
            && Statuses(s3.rt.threads) == [Running, Ready, Ready, Ready]
            && s3.rt.current == 0
            && s4 == Kraken.Started(s3.rt, -1)
  {
    var rt0 := Kraken.Initialize(4, boot);
    var s1 := Kraken.StartThread(rt0, t1, guardAddr, Some(b1));
    var s2 := Kraken.StartThread(s1.rt, t2, guardAddr, Some(b2));
    var s3 := Kraken.StartThread(s2.rt, t3, guardAddr, Some(b3));
    ThreeStartsSucceed(boot, b1, b2, b3, t1, t2, t3, guardAddr);
    FullTableRefuses(s3.rt, t1, guardAddr, more);
  }

  /** The three starts of kraken_test.c on a fresh table of four each fill the next slot. */
  lemma ThreeStartsSucceed(boot: Option<Block>, b1: Block, b2: Block, b3: Block,
                           t1: nat, t2: nat, t3: nat, guardAddr: nat)
    requires ValidBlock(Kraken.Target, b1) && ValidBlock(Kraken.Target, b2) && ValidBlock(Kraken.Target, b3)
    ensures var rt0 := Kraken.Initialize(4, boot);
            var s1 := Kraken.StartThread(rt0, t1, guardAddr, Some(b1));
            var s2 := Kraken.StartThread(s1.rt, t2, guardAddr, Some(b2));
            var s3 := Kraken.StartThread(s2.rt, t3, guardAddr, Some(b3));
            && s1.code == 0 && s2.code == 0 && s3.code == 0
            && Valid(s3.rt) && s3.rt.current == 0
            && Statuses(s3.rt.threads) == [Running, Ready, Ready, Ready]
  {
    var rt0 := Kraken.Initialize(4, boot);
    assert Statuses(rt0.threads) == [Running, Stopped, Stopped, Stopped];
    var s1 := Kraken.StartThread(rt0, t1, guardAddr, Some(b1));
    StartFillsFirstStopped(rt0, t1, guardAddr, b1, 1);
    var s2 := Kraken.StartThread(s1.rt, t2, guardAddr, Some(b2));
    StartFillsFirstStopped(s1.rt, t2, guardAddr, b2, 2);
    var s3 := Kraken.StartThread(s2.rt, t3, guardAddr, Some(b3));
    StartFillsFirstStopped(s2.rt, t3, guardAddr, b3, 3);
  }

  /** With no STOPPED slot left, a start returns -1 and changes nothing. */
  lemma FullTableRefuses(rt: Runtime, entry: nat, guardAddr: nat, alloc: Option<Block>)
    requires alloc.Some? ==> ValidBlock(Kraken.Target, alloc.value)
    requires Valid(rt) && forall k :: 0 <= k < |rt.threads| ==> rt.threads[k].status != Stopped
    ensures Kraken.StartThread(rt, entry, guardAddr, alloc) == Kraken.Started(rt, -1)
  {
    assert Kraken.FirstStopped(rt.threads, 0).None?;
  }

  /** A successful start when slot i is the first STOPPED one marks exactly that slot READY. */
  lemma StartFillsFirstStopped(rt: Runtime, entry: nat, guardAddr: nat, b: Block, i: nat)
    requires Valid(rt) && ValidBlock(Kraken.Target, b) && i < |rt.threads|
    requires Statuses(rt.threads)[i] == Stopped
    requires forall k :: 0 <= k < i ==> rt.threads[k].status != Stopped
    ensures var s := Kraken.StartThread(rt, entry, guardAddr, Some(b));
            && s.code == 0 && Valid(s.rt) && s.rt.current == rt.current
            && Statuses(s.rt.threads) == Statuses(rt.threads)[i := Ready]
  {
    assert Kraken.FirstStopped(rt.threads, 0) == Some(i);
  }

  /**
   A table of two with no thread started: kraken_run(7) from the boot thread
   never switches, frees only the boot stack and exits with 7.
   */
  lemma RunWithNoThreadsExits(boot: Block, live: Context)
    ensures Kraken.Run(Kraken.Initialize(2, Some(boot)), 7, live) == Kraken.Exited(7, [boot])
  {
    var rt := Kraken.Initialize(2, Some(boot));
    assert Scheduler.NoOtherReady(Statuses(rt.threads), 0);
    assert Kraken.FreeOrder(rt.threads, 0) == [0] + Kraken.FreeOrder(rt.threads, 1);
    assert Kraken.FreeOrder(rt.threads, 1) == [];
    assert Kraken.Released(rt.threads) == [boot];
  }

  /**
   Slot reuse as the source does it. The boot thread starts a thread on b1,
   yields to it, the thread's entry function returns into the guard, which
   hands control back; starting another thread then reuses slot 1 with b2,
   and b1 is issued but neither held nor freed.
   */
  lemma SlotReuseLeaksStack(b0: Block, b1: Block, b2: Block, entry: nat, guardAddr: nat, live: Context)
    requires ValidBlock(Kraken.Target, b1) && ValidBlock(Kraken.Target, b2)
    ensures var rt0 := Kraken.Initialize(2, Some(b0));
            var h0 := Ledger.Allocate(Ledger.Heap(multiset{}, multiset{}), Some(b0));
            var s1 := Kraken.StartThread(rt0, entry, guardAddr, Some(b1));
            var h1 := Ledger.Allocate(h0, Some(b1));
            var y := Kraken.Yield(s1.rt, live);
            && y.Switched? && y.next.current == 1
            && var g := Kraken.Guard(y.next, live);
               && g.GuardSwitched? && g.next.current == 0
               && var s2 := Kraken.StartThread(g.next, entry, guardAddr, Some(b2));
                  var h2 := Ledger.Allocate(h1, Some(b2));
                  && s2.code == 0
                  && Ledger.Held(s2.rt.threads) + h2.freed + multiset{b1.base} == h2.issued
                  && !Ledger.Balanced(s2.rt, h2)
  {
    var rt0 := Kraken.Initialize(2, Some(b0));
    var h0 := Ledger.Allocate(Ledger.Heap(multiset{}, multiset{}), Some(b0));
    Ledger.InitializeBalanced(2, Some(b0));
    assert Kraken.FirstStopped(rt0.threads, 0) == Some(1);
    var s1 := Kraken.StartThread(rt0, entry, guardAddr, Some(b1));
    var h1 := Ledger.Allocate(h0, Some(b1));
    assert Ledger.Balanced(s1.rt, h1) by {
      Ledger.StartThreadSwapsBlock(rt0, entry, guardAddr, Some(b1));
      assert Ledger.HeldBy(rt0.threads[1]) == multiset{};
    }
    assert Scheduler.IsFirstReadyAfter(Statuses(s1.rt.threads), 0, 1);
    var y := Kraken.Yield(s1.rt, live);
    Ledger.YieldBalanced(s1.rt, live, h1);
    assert Scheduler.IsFirstReadyAfter(Statuses(y.next.threads), 1, 0);
    var g := Kraken.Guard(y.next, live);
    Ledger.GuardBalanced(y.next, live, h1);
    assert Kraken.FirstStopped(g.next.threads, 0) == Some(1);
    assert g.next.threads[1].stack.value.base == b1.base;
    Ledger.StartThreadLeaksReusedStack(g.next, entry, guardAddr, Some(b2), h1);
  }
}
