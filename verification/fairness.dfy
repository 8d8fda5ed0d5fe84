/**
 Round-robin order of kraken_yield: with every other slot READY, successive
 yields hand control to the slots in index order after the current one,
 wrapping to slot 0.
 */
module Fairness {
  import opened Threads
  import Scheduler
  import Kraken

  /** Every slot other than the current one is READY. */
  predicate OthersReady(rt: Runtime)
  {
    forall i :: 0 <= i < |rt.threads| && i != rt.current ==> rt.threads[i].status == Ready
  }

  /** The slot after c in a table of n, slot 0 after the last. */
  function Successor(c: nat, n: nat): nat
  {
    if c + 1 < n then c + 1 else 0
  }

  /** With every other slot READY, one yield moves control to the next slot and keeps them all READY. */
  lemma AllReadyRotates(rt: Runtime, live: Context)
    requires Kraken.Inv(rt) && OthersReady(rt) && |rt.threads| >= 2
    ensures Kraken.Yield(rt, live).Switched?
    ensures var next := Kraken.Yield(rt, live).next;
              && next.current == Successor(rt.current, |rt.threads|)
              && Kraken.Inv(next) && OthersReady(next)
  {
    var st := Statuses(rt.threads);
    assert Scheduler.IsFirstReadyAfter(st, rt.current, Successor(rt.current, |rt.threads|));
  }

  /**
   The slots m successive yields hand control to, starting from a runtime in
   which every slot but the current one is READY (each resumed thread yields
   straight back, saving `live`).
   */
  function Visits(rt: Runtime, live: Context, m: nat): (v: seq<nat>)
    requires Kraken.Inv(rt) && OthersReady(rt) && |rt.threads| >= 2 && m <= |rt.threads|
    ensures |v| == m
    ensures forall k :: 0 <= k < m ==>
              v[k] == (if rt.current + k + 1 < |rt.threads| then rt.current + k + 1
                       else rt.current + k + 1 - |rt.threads|)
    decreases m
  {
    if m == 0 then []
    else
      AllReadyRotates(rt, live);
      var next := Kraken.Yield(rt, live).next;
      [next.current] + Visits(next, live, m - 1)
  }

  /**
   As many yields as there are slots visit every slot exactly once, the last
   of them being the slot that started.
   */
  lemma RoundRobinVisitsEverySlotOnce(rt: Runtime, live: Context)
    requires Kraken.Inv(rt) && OthersReady(rt) && |rt.threads| >= 2
    ensures var v := Visits(rt, live, |rt.threads|);
              && (forall a, b :: 0 <= a < b < |v| ==> v[a] != v[b])
              && (forall s :: 0 <= s < |rt.threads| ==> s in v)
              && v[|v| - 1] == rt.current
  {
    var n := |rt.threads|;
    var c := rt.current;
    var v := Visits(rt, live, n);
    forall s | 0 <= s < n
      ensures s in v
    {
      var k := if s > c then s - c - 1 else s + n - c - 1;
      assert v[k] == s;
    }
  }
}
