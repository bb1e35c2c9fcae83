/**
 The upward-rounding bisection used by both fill solvers, as a function of the predicate it
 probes, and the facts that decide when its answer is the greatest acceptable candidate.
 */
module Search {

  /** What the loops `while (low < high)` compute when a probe at v answers p(v). */
  ghost function Bisect(p: nat -> bool, low: nat, high: nat): nat
    requires low <= high
    decreases high - low
  {
    if low == high then low
    else
      var mid := (low + high + 1) / 2;
      if p(mid) then Bisect(p, mid, high) else Bisect(p, low, mid - 1)
  }

  lemma BisectStep(p: nat -> bool, low: nat, high: nat)
    requires low < high
    ensures var mid := (low + high + 1) / 2;
            Bisect(p, low, high) == if p(mid) then Bisect(p, mid, high) else Bisect(p, low, mid - 1)
  {
  }

  lemma BisectDone(p: nat -> bool, n: nat)
    ensures Bisect(p, n, n) == n
  {
  }

  ghost predicate IsGreatest(p: nat -> bool, top: nat, r: nat) {
    r <= top && p(r) && forall v: nat :: r < v <= top ==> !p(v)
  }

  ghost predicate DownwardClosed(p: nat -> bool, top: nat) {
    forall u: nat, v: nat :: u < v <= top && p(v) ==> p(u)
  }

  ghost predicate IsInterval(p: nat -> bool, top: nat) {
    forall u: nat, v: nat, w: nat :: u <= v <= w <= top && p(u) && p(w) ==> p(v)
  }

  /** Whatever p is, the answer is acceptable or the starting point, and the next candidate is not. */
  lemma {:induction false} BisectStops(p: nat -> bool, low: nat, high: nat)
    requires low <= high
    ensures low <= Bisect(p, low, high) <= high
    ensures Bisect(p, low, high) == low || p(Bisect(p, low, high))
    ensures Bisect(p, low, high) < high ==> !p(Bisect(p, low, high) + 1)
    decreases high - low
  {
    if low < high {
      var mid := (low + high + 1) / 2;
      if p(mid) {
        BisectStops(p, mid, high);
      } else {
        BisectStops(p, low, mid - 1);
      }
    }
  }

  /** When the acceptable candidates form an interval, an acceptable answer is the greatest one. */
  lemma BisectGreatestInInterval(p: nat -> bool, top: nat)
    requires IsInterval(p, top) && p(Bisect(p, 0, top))
    ensures IsGreatest(p, top, Bisect(p, 0, top))
  {
    BisectStops(p, 0, top);
    var r := Bisect(p, 0, top);
    forall v: nat | r < v <= top
      ensures !p(v)
    {
      assert r <= r + 1 <= v;
    }
  }

  lemma BisectGreatest(p: nat -> bool, top: nat)
    requires p(0) && DownwardClosed(p, top)
    ensures IsGreatest(p, top, Bisect(p, 0, top))
  {
    BisectStops(p, 0, top);
    var r := Bisect(p, 0, top);
    forall v: nat | r < v <= top
      ensures !p(v)
    {
      assert !p(r + 1);
    }
  }

  /** A candidate two or more above the start is reached only through its predecessor. */
  lemma {:induction false} ReachesTopThroughPredecessor(p: nat -> bool, low: nat, high: nat)
    requires low + 1 < high && !p(high - 1)
    ensures Bisect(p, low, high) < high
    decreases high - low
  {
    var mid := (low + high + 1) / 2;
    assert low < mid <= high - 1;
    if p(mid) {
      if mid + 1 < high {
        ReachesTopThroughPredecessor(p, mid, high);
      }
    } else {
      BisectStops(p, low, mid - 1);
    }
  }

  /** The least acceptable candidate above u, given that there is one. */
  lemma {:induction false} NextAcceptable(p: nat -> bool, u: nat, v: nat) returns (w: nat)
    requires u < v && p(v)
    ensures u < w <= v && p(w)
    ensures forall k :: u < k < w ==> !p(k)
    decreases v - u
  {
    if p(u + 1) {
      w := u + 1;
    } else {
      w := NextAcceptable(p, u + 1, v);
    }
  }

  /**
   From an acceptable start, the bisection answers every request up to `top` with the greatest
   acceptable value exactly when acceptability is downward closed there.
   */
  lemma BisectGreatestForEveryRequestIff(p: nat -> bool, top: nat)
    requires p(0)
    ensures (forall q: nat :: q <= top ==> IsGreatest(p, q, Bisect(p, 0, q))) <==> DownwardClosed(p, top)
  {
    if DownwardClosed(p, top) {
      forall q: nat | q <= top
        ensures IsGreatest(p, q, Bisect(p, 0, q))
      {
        BisectGreatest(p, q);
      }
    } else {
      var u: nat, v: nat :| u < v <= top && p(v) && !p(u);
      var w := NextAcceptable(p, u, v);
      assert !p(w - 1);
      assert 1 < w;
      ReachesTopThroughPredecessor(p, 0, w);
      assert !IsGreatest(p, w, Bisect(p, 0, w));
    }
  }

  ghost predicate AnyUpTo(p: nat -> bool, q: nat) {
    exists v: nat :: v <= q && p(v)
  }

  /** Every request that has an acceptable value is answered with the greatest one. */
  ghost predicate FindsWhatExists(p: nat -> bool, top: nat) {
    forall q: nat :: q <= top && AnyUpTo(p, q) ==> IsGreatest(p, q, Bisect(p, 0, q))
  }

  /** From 0 or 1 on, an interval is found: the last refused candidates lie above it. */
  lemma FindsIntervalNearStart(p: nat -> bool, q: nat)
    requires IsInterval(p, q) && AnyUpTo(p, q) && (p(0) || (1 <= q && p(1)))
    ensures IsGreatest(p, q, Bisect(p, 0, q))
  {
    BisectStops(p, 0, q);
    assert p(Bisect(p, 0, q));
    BisectGreatestInInterval(p, q);
  }

  /** On an interval the search finds what exists exactly when it starts acceptable, or one unit is, or nothing is. */
  lemma FindsWhatExistsIff(p: nat -> bool, top: nat)
    requires IsInterval(p, top) && 1 <= top
    ensures FindsWhatExists(p, top) <==> p(0) || p(1) || !AnyUpTo(p, top)
  {
    if p(0) || p(1) {
      forall q: nat | q <= top && AnyUpTo(p, q)
        ensures IsGreatest(p, q, Bisect(p, 0, q))
      {
        FindsIntervalNearStart(p, q);
      }
    } else if AnyUpTo(p, top) {
      var v: nat :| v <= top && p(v);
      var w := NextAcceptable(p, 0, v);
      ReachesTopThroughPredecessor(p, 0, w);
      assert AnyUpTo(p, w) && !IsGreatest(p, w, Bisect(p, 0, w));
    }
  }
}
