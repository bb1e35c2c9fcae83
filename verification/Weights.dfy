/**
 Basis-point arithmetic: `bpsOfDown`, `bpsOfUp` and the two `weightBps` searches
 (packages/shared/src/financial.ts:223-253), with their closed forms.
 */
module Weights {
  import opened Uint256
  import opened Wrappers

  function BpsOfDown(total: nat, bps: nat): nat {
    total / BASIS_POINTS * bps + total % BASIS_POINTS * bps / BASIS_POINTS
  }

  function BpsOfUp(total: nat, bps: nat): nat {
    total / BASIS_POINTS * bps + CeilDiv(total % BASIS_POINTS * bps, BASIS_POINTS)
  }

  /** The closed form of the ceiling search, clamped to the search's own range. */
  function WeightUp(value: nat, nav: nat): nat {
    if nav == 0 then (if value == 0 then 0 else BASIS_POINTS)
    else Min(CeilDiv(BASIS_POINTS * value, nav), BASIS_POINTS)
  }

  /** The closed form of the flooring search. */
  function WeightDown(value: nat, nav: nat): nat {
    if nav == 0 then BASIS_POINTS else Min(BASIS_POINTS * value / nav, BASIS_POINTS)
  }

  /** Splitting off the quotient by 10,000 avoids a wide product and loses nothing. */
  lemma BpsSplit(total: nat, bps: nat)
    ensures total * bps == (total / BASIS_POINTS * bps) * BASIS_POINTS + total % BASIS_POINTS * bps
  {
    var q, m := total / BASIS_POINTS, total % BASIS_POINTS;
    assert total == q * BASIS_POINTS + m;
    assert (q * BASIS_POINTS + m) * bps == (q * BASIS_POINTS) * bps + m * bps;
    assert (q * BASIS_POINTS) * bps == (q * bps) * BASIS_POINTS;
  }

  lemma BpsOfDownReaches(total: nat, bps: nat, value: nat)
    ensures value <= BpsOfDown(total, bps) <==> BASIS_POINTS * value <= total * bps
  {
    BpsSplit(total, bps);
    var whole := total / BASIS_POINTS * bps;
    FloorDivGe(total % BASIS_POINTS * bps, BASIS_POINTS, value - whole);
  }

  lemma BpsOfUpWithin(total: nat, bps: nat, value: nat)
    ensures BpsOfUp(total, bps) <= value <==> total * bps <= BASIS_POINTS * value
  {
    BpsSplit(total, bps);
    var whole := total / BASIS_POINTS * bps;
    CeilDivLe(total % BASIS_POINTS * bps, BASIS_POINTS, value - whole);
  }

  lemma WeightUpLe(value: nat, nav: nat, bps: nat)
    requires bps < BASIS_POINTS
    ensures WeightUp(value, nav) <= bps <==> BASIS_POINTS * value <= nav * bps
  {
    if nav > 0 {
      CeilDivLe(BASIS_POINTS * value, nav, bps);
    }
  }

  lemma WeightDownGe(value: nat, nav: nat, bps: nat)
    requires bps <= BASIS_POINTS
    ensures bps <= WeightDown(value, nav) <==> nav * bps <= BASIS_POINTS * value
  {
    if nav > 0 {
      FloorDivGe(BASIS_POINTS * value, nav, bps);
    }
  }

  method WeightBps(value: nat, nav: nat, roundUp: bool) returns (w: nat)
    ensures roundUp ==> w == WeightUp(value, nav)
    ensures !roundUp ==> w == WeightDown(value, nav)
  {
    var low: nat, high: nat := 0, BASIS_POINTS;
    if roundUp {
      while low < high
        invariant low <= WeightUp(value, nav) <= high <= BASIS_POINTS
      {
        var mid: nat := low + (high - low) / 2;
        BpsOfDownReaches(nav, mid, value);
        WeightUpLe(value, nav, mid);
        if BpsOfDown(nav, mid) >= value {
          high := mid;
        } else {
          low := mid + 1;
        }
      }
      return low;
    }
    while low < high
      invariant low <= WeightDown(value, nav) <= high <= BASIS_POINTS
    {
      var mid: nat := low + (high - low + 1) / 2;
      BpsOfUpWithin(nav, mid, value);
      WeightDownGe(value, nav, mid);
      if BpsOfUp(nav, mid) <= value {
        low := mid;
      } else {
        high := mid - 1;
      }
    }
    return low;
  }

  /** For a share of the portfolio the searches return the exact ceiling and floor of 10000 * value / nav. */
  lemma WeightsAreExact(value: nat, nav: nat)
    requires value <= nav && 0 < nav
    ensures WeightUp(value, nav) == CeilDiv(BASIS_POINTS * value, nav)
    ensures WeightDown(value, nav) == BASIS_POINTS * value / nav
  {
    CeilDivLe(BASIS_POINTS * value, nav, BASIS_POINTS);
    MulMono(value, nav, BASIS_POINTS);
    FloorDivMono(BASIS_POINTS * value, BASIS_POINTS * nav, nav);
    assert BASIS_POINTS * nav / nav == BASIS_POINTS by {
      FloorDivGe(BASIS_POINTS * nav, nav, BASIS_POINTS);
      FloorDivGe(BASIS_POINTS * nav, nav, BASIS_POINTS + 1);
      assert (BASIS_POINTS + 1) * nav == BASIS_POINTS * nav + nav;
    }
  }
}
