/**
 The round-robin scan of kraken_yield (kraken.h:308-326), over the status
 column of the thread table. Only the KRAKEN_SCHEDULER_ROUND_ROBIN build has a
 scheduler at all, so this is the only one modelled.
 */
module Scheduler {
  import opened Wrappers
  import opened Threads

  /**
   How many steps a forward scan that starts at slot c, wrapping from the
   last slot to slot 0, takes to reach slot k of a table of n slots.
   */
  function Pos(c: nat, k: nat, n: nat): nat
    requires c < n && k < n
  {
    if k >= c then k - c else k + n - c
  }

  /** No slot other than c is READY. */
  predicate NoOtherReady(st: seq<Status>, c: nat)
  {
    forall k :: 0 <= k < |st| && k != c ==> st[k] != Ready
  }

  /** j is the first READY slot met by a cyclic scan strictly after c. */
  predicate IsFirstReadyAfter(st: seq<Status>, c: nat, j: nat)
    requires c < |st|
  {
    && j < |st| && j != c && st[j] == Ready
    && forall k :: 0 <= k < |st| && k != c && Pos(c, k, |st|) < Pos(c, j, |st|) ==> st[k] != Ready
  }

  /**
   The loop of kraken_yield from scan position p: stop at a READY slot, else
   step to the next slot (slot 0 after the last) and give up on coming back
   to c.
   */
  function Walk(st: seq<Status>, c: nat, p: nat): (r: Option<nat>)
    requires c < |st| && p < |st|
    ensures r.Some? ==>
              && r.value < |st| && st[r.value] == Ready
              && Pos(c, p, |st|) <= Pos(c, r.value, |st|)
              && forall k :: 0 <= k < |st| && Pos(c, p, |st|) <= Pos(c, k, |st|) < Pos(c, r.value, |st|) ==>
                   st[k] != Ready
    ensures r.None? ==> forall k :: 0 <= k < |st| && Pos(c, p, |st|) <= Pos(c, k, |st|) ==> st[k] != Ready
    decreases |st| - Pos(c, p, |st|)
  {
    if st[p] == Ready then Some(p)
    else
      var next := if p == |st| - 1 then 0 else p + 1;
      if next == c then None else Walk(st, c, next)
  }

  /**
   The scheduler's choice for a runtime whose current slot is c: c itself
   when it is READY (the loop body never runs), otherwise the first READY slot
   after c in cyclic order, or None when the scan comes back to c.
   */
  function Scan(st: seq<Status>, c: nat): (r: Option<nat>)
    requires c < |st|
    ensures r.Some? ==> r.value < |st| && st[r.value] == Ready
    ensures st[c] == Ready ==> r == Some(c)
    ensures st[c] != Ready ==> (r.None? <==> NoOtherReady(st, c))
    ensures st[c] != Ready ==> forall j: nat :: r == Some(j) <==> IsFirstReadyAfter(st, c, j)
  {
    var r := Walk(st, c, c);
    FirstReadyUnique(st, c);
    r
  }

  /** At most one slot is the first READY one after c. */
  lemma FirstReadyUnique(st: seq<Status>, c: nat)
    requires c < |st|
    ensures forall j1: nat, j2: nat :: IsFirstReadyAfter(st, c, j1) && IsFirstReadyAfter(st, c, j2) ==> j1 == j2
  {
  }

  /**
   The scan as kraken.h:311-321 writes it. The loop tests the pointer before
   incrementing it (`next = other_thread++`), so after the last slot it reads
   the status of threads[KRAKEN_MAX_THREADS], one past the table, and only
   then wraps to slot 0. `pastEnd` is whatever that out-of-range read yields;
   the result |st| names that phantom slot.
   */
  function ScanAsWritten(st: seq<Status>, c: nat, pastEnd: Status): (r: Option<nat>)
    requires c < |st|
    ensures r == Some(|st|) <==>
              pastEnd == Ready && st[c] != Ready && forall k :: c < k < |st| ==> st[k] != Ready
    ensures r != Some(|st|) ==> r == Scan(st, c)
  {
    PhantomChoice(st, c, pastEnd);
    NonPhantomAgrees(st, c, pastEnd);
    Scan(st + [pastEnd], c)
  }

  /** Apart from choosing the phantom slot, the scan as written agrees with `Scan`. */
  lemma NonPhantomAgrees(st: seq<Status>, c: nat, pastEnd: Status)
    requires c < |st|
    ensures Scan(st + [pastEnd], c) != Some(|st|) ==> Scan(st + [pastEnd], c) == Scan(st, c)
  {
  }

  /** The phantom slot is chosen exactly when it is READY and no real slot after c is. */
  lemma PhantomChoice(st: seq<Status>, c: nat, pastEnd: Status)
    requires c < |st|
    ensures Scan(st + [pastEnd], c) == Some(|st|) <==>
              pastEnd == Ready && st[c] != Ready && forall k :: c < k < |st| ==> st[k] != Ready
  {
    var e := st + [pastEnd];
    var n := |st|;
    assert forall k :: 0 <= k < n ==> e[k] == st[k];
    assert e[n] == pastEnd;
    if pastEnd == Ready && st[c] != Ready && forall k :: c < k < n ==> st[k] != Ready {
      assert IsFirstReadyAfter(e, c, n);
    }
  }

  /** When the out-of-range read is not READY, the extra position changes nothing. */
  lemma PastEndHarmless(st: seq<Status>, c: nat, pastEnd: Status)
    requires c < |st| && pastEnd != Ready
    ensures Scan(st + [pastEnd], c) == Scan(st, c)
  {
    var e := st + [pastEnd];
    var n := |st|;
    assert forall k :: 0 <= k < n ==> e[k] == st[k];
    if st[c] != Ready {
      match Scan(e, c)
      case None =>
        assert NoOtherReady(st, c);
      case Some(j) =>
        assert j < n;
        assert forall k :: 0 <= k < n && k != c && Pos(c, k, n) < Pos(c, j, n) ==> Pos(c, k, n + 1) < Pos(c, j, n + 1);
        assert IsFirstReadyAfter(st, c, j);
    }
  }

  /**
   Four slots, slot 2 running and slot 0 READY: when the word read past the
   table happens to hold READY, the scan as written picks the phantom slot 4
   instead of slot 0.
   */
  lemma PhantomSlotChosen()
    ensures ScanAsWritten([Ready, Stopped, Running, Stopped], 2, Ready) == Some(4)
    ensures Scan([Ready, Stopped, Running, Stopped], 2) == Some(0)
  {
    assert IsFirstReadyAfter([Ready, Stopped, Running, Stopped], 2, 0);
  }
}
