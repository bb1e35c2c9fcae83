/**
 Splitting a fill does not change its fee beyond rounding
 (packages/shared/src/financial.ts:880-888: the interval average is charged so that the fee is
 additive for sequential execution).

 `Potential` is the exact, unrounded fee of an epoch up to a consumption level, cleared of
 denominators; it never mentions utilization, premiums or ceilings.
 */
module FeeTelescope {
  import opened Uint256
  import opened Wrappers
  import opened Fees
  import opened FeeGrowth

  /** 30000 * baseline^2 times the exact fee charged from the start of the epoch up to c. */
  ghost function Potential(fee: FeeConfig, baseline: nat, c: nat): nat
    requires ValidFee(fee)
  {
    3 * (baseline * baseline) * (fee.baseFeeBps * c) + fee.slopeBps * Cube(c)
  }

  ghost function Cube(c: nat): nat {
    c * c * c
  }

  ghost function Cubes(c0: nat, c1: nat): nat {
    c1 * c1 + c0 * c1 + c0 * c0
  }

  // ----- One fill against the potential

  lemma DifferenceOfCubes(c0: nat, v: nat)
    ensures Cube(c0 + v) == Cube(c0) + v * Cubes(c0, c0 + v)
  {
    var c1 := c0 + v;
    assert c1 * c1 * c1 - c0 * c0 * c0 == (c1 - c0) * (c1 * c1 + c0 * c1 + c0 * c0) by {
      assert (c1 - c0) * (c1 * c1 + c0 * c1 + c0 * c0)
          == (c1 - c0) * (c1 * c1) + (c1 - c0) * (c0 * c1) + (c1 - c0) * (c0 * c0);
      assert (c1 - c0) * (c1 * c1) == c1 * c1 * c1 - c0 * (c1 * c1);
      assert (c1 - c0) * (c0 * c1) == c1 * (c0 * c1) - c0 * (c0 * c1);
      assert (c1 - c0) * (c0 * c0) == c1 * (c0 * c0) - c0 * c0 * c0;
      assert c1 * (c0 * c1) == c0 * (c1 * c1) && c0 * (c0 * c1) == c1 * (c0 * c0);
    }
  }

  /** Lowering both factors of a product by less than b changes it by at most 2 * b * limit. */
  lemma ProductRounding(a: nat, x: nat, a': nat, x': nat, b: nat, limit: nat, product: nat, rounded: nat, error: nat)
    requires x <= a <= x + b && x' <= a' <= x' + b && a <= limit && a' <= limit
    requires product == a * a' && rounded == x * x' && error == b * limit
    ensures rounded <= product <= rounded + 2 * error
  {
    MulMono(x, a, x');
    MulMono(x', a', a);
    assert a * a' == x * x' + (a - x) * x' + a * (a' - x');
    MulMono(a - x, b, x');
    MulMono(x', limit, b);
    MulMono(a' - x', b, a);
    MulMono(a, limit, b);
  }

  lemma SquareScale(x: nat, y: nat, k: nat)
    ensures (x * k) * (y * k) == (x * y) * (k * k)
  {
    assert (x * k) * (y * k) == ((x * k) * y) * k;
    assert (x * k) * y == (x * y) * k;
    assert ((x * y) * k) * k == (x * y) * (k * k);
  }

  /** Flooring the two utilizations loses at most 6 * 10^18 * baseline^2 of the quadratic sum. */
  lemma QuadraticRounding(c0: nat, c1: nat, baseline: nat)
    requires c0 <= c1 <= baseline && 0 < baseline
    ensures var s, b2 := FIXED_POINT_SCALE, baseline * baseline;
            var q := QuadraticSum(Utilization(c0, baseline), Utilization(c1, baseline));
            q * b2 <= Cubes(c0, c1) * (s * s) <= q * b2 + 6 * (s * b2)
  {
    hide Utilization, Cubes, QuadraticSum;
    var s: nat, b2 := FIXED_POINT_SCALE, baseline * baseline;
    var u0, u1 := Utilization(c0, baseline), Utilization(c1, baseline);
    UtilizationBounds(c0, baseline);
    UtilizationBounds(c1, baseline);
    MulMono(c0, baseline, s);
    MulMono(c1, baseline, s);
    ThreeProducts(c0 * s, c1 * s, u0 * baseline, u1 * baseline, baseline, baseline * s, baseline * (baseline * s));
    SumOfSquares(u0, u1, baseline);
    SumOfSquares(c0, c1, s);
    RegroupLimit(baseline, s);
  }

  lemma RegroupLimit(baseline: nat, s: nat)
    ensures 6 * (baseline * (baseline * s)) == 6 * (s * (baseline * baseline))
  {
    assert baseline * (baseline * s) == s * (baseline * baseline);
  }

  lemma ThreeProducts(a0: nat, a1: nat, x0: nat, x1: nat, b: nat, limit: nat, error: nat)
    requires x0 <= a0 <= x0 + b && x1 <= a1 <= x1 + b && a0 <= limit && a1 <= limit && error == b * limit
    ensures var exact, rounded := a1 * a1 + a0 * a1 + a0 * a0, x1 * x1 + x0 * x1 + x0 * x0;
            rounded <= exact <= rounded + 6 * error
  {
    ProductRounding(a1, x1, a1, x1, b, limit, a1 * a1, x1 * x1, error);
    ProductRounding(a0, x0, a1, x1, b, limit, a0 * a1, x0 * x1, error);
    ProductRounding(a0, x0, a0, x0, b, limit, a0 * a0, x0 * x0, error);
  }

  lemma SumOfSquares(x: nat, y: nat, k: nat)
    ensures (y * k) * (y * k) + (x * k) * (y * k) + (x * k) * (x * k) == QuadraticSum(x, y) * (k * k)
    ensures Cubes(x, y) == QuadraticSum(x, y)
  {
    SquareScale(y, y, k);
    SquareScale(x, y, k);
    SquareScale(x, x, k);
    assert (y * y + x * y + x * x) * (k * k) == (y * y) * (k * k) + (x * y) * (k * k) + (x * x) * (k * k);
  }

  /** The rounded premium against the exact one, with the denominators cleared. */
  lemma PremiumRounding(slope: nat, c0: nat, c1: nat, baseline: nat)
    requires c0 <= c1 <= baseline && 0 < baseline
    ensures var b2 := baseline * baseline;
            var p := 3 * (Premium(slope, Utilization(c0, baseline), Utilization(c1, baseline)) * b2);
            var exact := FIXED_POINT_SCALE * (slope * Cubes(c0, c1));
            exact - 6 * (slope * b2) <= p <= exact + 3 * b2
  {
    hide Utilization, Cubes, QuadraticSum;
    var s, b2 := FIXED_POINT_SCALE, baseline * baseline;
    var q := QuadraticSum(Utilization(c0, baseline), Utilization(c1, baseline));
    var premium := Premium(slope, Utilization(c0, baseline), Utilization(c1, baseline));
    QuadraticRounding(c0, c1, baseline);
    CeilDivBounds(slope * q, 3 * s);
    ClearDenominator(premium, slope, q, b2, Cubes(c0, c1), s);
  }

  lemma ClearDenominator(premium: nat, slope: nat, q: nat, b2: nat, cubes: nat, s: nat)
    requires 0 < s
    requires slope * q <= premium * (3 * s) <= slope * q + 3 * s
    requires q * b2 <= cubes * (s * s) <= q * b2 + 6 * (s * b2)
    ensures s * (slope * cubes) - 6 * (slope * b2) <= 3 * (premium * b2) <= s * (slope * cubes) + 3 * b2
  {
    var whole, rounded, exact := slope * (q * b2), 3 * (premium * b2), s * (slope * cubes);
    assert whole <= rounded * s <= whole + (3 * b2) * s by {
      ScalePremium(premium, slope, q, b2, s);
    }
    assert whole <= exact * s <= whole + (6 * (slope * b2)) * s by {
      ScaleQuadratic(slope, q, b2, cubes, s);
    }
    assert (exact - 6 * (slope * b2)) * s == exact * s - (6 * (slope * b2)) * s;
    MulCancelLe(exact - 6 * (slope * b2), rounded, s);
    assert (exact + 3 * b2) * s == exact * s + (3 * b2) * s;
    MulCancelLe(rounded, exact + 3 * b2, s);
  }

  lemma ScalePremium(premium: nat, slope: nat, q: nat, b2: nat, s: nat)
    requires slope * q <= premium * (3 * s) <= slope * q + 3 * s
    ensures slope * (q * b2) <= (3 * (premium * b2)) * s <= slope * (q * b2) + (3 * b2) * s
  {
    MulMono(slope * q, premium * (3 * s), b2);
    MulMono(premium * (3 * s), slope * q + 3 * s, b2);
    assert (slope * q) * b2 == slope * (q * b2);
    assert (premium * (3 * s)) * b2 == (3 * (premium * b2)) * s;
    assert (slope * q + 3 * s) * b2 == (slope * q) * b2 + (3 * b2) * s;
  }

  lemma ScaleQuadratic(slope: nat, q: nat, b2: nat, cubes: nat, s: nat)
    requires q * b2 <= cubes * (s * s) <= q * b2 + 6 * (s * b2)
    ensures slope * (q * b2) <= (s * (slope * cubes)) * s <= slope * (q * b2) + (6 * (slope * b2)) * s
  {
    MulMono(q * b2, cubes * (s * s), slope);
    MulMono(cubes * (s * s), q * b2 + 6 * (s * b2), slope);
    assert slope * (cubes * (s * s)) == (s * (slope * cubes)) * s;
    assert slope * (q * b2 + 6 * (s * b2)) == slope * (q * b2) + (6 * (slope * b2)) * s;
  }

  /** The exact share of the potential a fill consumes, split into its base and premium parts. */
  lemma PotentialOfFill(fee: FeeConfig, baseline: nat, c: nat, v: nat)
    requires ValidFee(fee)
    ensures Potential(fee, baseline, c + v) - Potential(fee, baseline, c)
         == v * (3 * (baseline * baseline) * fee.baseFeeBps + fee.slopeBps * Cubes(c, c + v))
    ensures Potential(fee, baseline, c) <= Potential(fee, baseline, c + v)
  {
    hide Cube, Cubes;
    DifferenceOfCubes(c, v);
    PotentialAlgebra(3 * (baseline * baseline), fee.baseFeeBps, fee.slopeBps, c, v, Cube(c), Cube(c + v),
      Cubes(c, c + v));
  }

  lemma PotentialAlgebra(k: nat, base: nat, slope: nat, c: nat, v: nat, cube: nat, cube': nat, cubes: nat)
    requires cube' == cube + v * cubes
    ensures k * (base * (c + v)) + slope * cube' - (k * (base * c) + slope * cube) == v * (k * base + slope * cubes)
    ensures k * (base * c) + slope * cube <= k * (base * (c + v)) + slope * cube'
  {
    LinearStep(k, base, c, v);
    Distribute2(slope, cube, v * cubes);
    Exchange(slope, v, cubes);
    Distribute2(v, k * base, slope * cubes);
  }

  lemma LinearStep(k: nat, base: nat, c: nat, v: nat)
    ensures k * (base * (c + v)) == k * (base * c) + v * (k * base)
  {
    assert base * (c + v) == base * c + base * v;
    assert k * (base * c + base * v) == k * (base * c) + k * (base * v);
    assert k * (base * v) == v * (k * base);
  }

  lemma Exchange(a: int, b: int, c: int)
    ensures a * (b * c) == b * (a * c)
  {
  }

  lemma Distribute2(k: int, a: int, b: int)
    ensures k * (a + b) == k * a + k * b
  {
  }

  /** The unit in which fee amounts and the potential are compared. */
  ghost function Unit(baseline: nat): nat {
    3 * (baseline * baseline) * RATE_SCALE
  }

  /** 1 when the premium is rounded up at all. */
  ghost function Rounds(fee: FeeConfig): nat {
    if fee.slopeBps == 0 then 0 else 1
  }

  /** What flooring the utilizations may take from the charge of v units. */
  ghost function SlackDown(fee: FeeConfig, baseline: nat, v: nat): int {
    3 * (baseline * baseline) * (2 * fee.slopeBps * v)
  }

  /** What rounding the premium up may add to it. */
  ghost function SlackUp(fee: FeeConfig, baseline: nat, v: nat): int {
    3 * (baseline * baseline) * (Rounds(fee) * v)
  }

  /** The fee of one fill before its final ceiling, in comparison units. */
  ghost function Charge(fee: FeeConfig, baseline: nat, c: nat, v: nat): int
    requires ValidFee(fee) && c + v <= baseline
  {
    3 * (baseline * baseline) * (v * FillRate(fee, c, baseline, v))
  }

  lemma RateAgainstPotential(fee: FeeConfig, baseline: nat, c: nat, v: nat)
    requires ValidFee(fee) && c + v <= baseline && 0 < baseline
    ensures var step := Potential(fee, baseline, c + v) - Potential(fee, baseline, c);
            FIXED_POINT_SCALE * step - SlackDown(fee, baseline, v) <= Charge(fee, baseline, c, v)
              <= FIXED_POINT_SCALE * step + SlackUp(fee, baseline, v)
  {
    hide Utilization, Premium, Potential, Cubes;
    var s, b2: nat, base: nat, slope: nat := FIXED_POINT_SCALE, baseline * baseline, fee.baseFeeBps, fee.slopeBps;
    var premium := Premium(slope, Utilization(c, baseline), Utilization(c + v, baseline));
    PremiumRounding(slope, c, c + v, baseline);
    if slope == 0 {
      NoPremium(Utilization(c, baseline), Utilization(c + v, baseline), b2, Cubes(c, c + v), s);
    }
    PotentialOfFill(fee, baseline, c, v);
    ChargedBounds(v, b2, base, slope, premium, Cubes(c, c + v), s, Rounds(fee));
  }

  lemma NoPremium(u0: nat, u1: nat, b2: nat, cubes: nat, s: nat)
    ensures Premium(0, u0, u1) == 0 && 3 * (0 * b2) == 0 && s * (0 * cubes) == 0
  {
    hide QuadraticSum;
    assert 0 * QuadraticSum(u0, u1) == 0;
  }

  lemma ChargedBounds(v: nat, b2: nat, base: nat, slope: nat, premium: nat, cubes: nat, s: nat, rounds: nat)
    requires s * (slope * cubes) - 6 * (slope * b2) <= 3 * (premium * b2) <= s * (slope * cubes) + 3 * (b2 * rounds)
    ensures var step := v * (3 * b2 * base + slope * cubes);
            var charged := 3 * b2 * (v * (base * s + premium));
            s * step - 3 * b2 * (2 * slope * v) <= charged <= s * step + 3 * b2 * (rounds * v)
  {
    var exact, rounded := s * (slope * cubes), 3 * (premium * b2);
    var scaledBase := (3 * b2 * base) * s;
    ExactForm(s, v, 3 * b2 * base, slope * cubes);
    ChargedForm(b2, v, base, s, premium);
    SlackForms(b2, slope, rounds, v);
    WithinSlack(v, scaledBase + exact, scaledBase + rounded, 6 * (slope * b2), 3 * (b2 * rounds));
  }

  lemma ExactForm(s: nat, v: nat, a: nat, b: nat)
    ensures s * (v * (a + b)) == v * (a * s + s * b)
  {
    Exchange(s, v, a + b);
    Distribute2(s, a, b);
  }

  lemma ChargedForm(b2: nat, v: nat, base: nat, s: nat, premium: nat)
    ensures 3 * b2 * (v * (base * s + premium)) == v * ((3 * b2 * base) * s + 3 * (premium * b2))
  {
    Exchange(3 * b2, v, base * s + premium);
    Distribute2(3 * b2, base * s, premium);
    assert 3 * b2 * (base * s) == (3 * b2 * base) * s;
  }

  lemma SlackForms(b2: nat, slope: nat, rounds: nat, v: nat)
    ensures 3 * b2 * (2 * slope * v) == v * (6 * (slope * b2))
    ensures 3 * b2 * (rounds * v) == v * (3 * (b2 * rounds))
  {
    assert 3 * b2 * (2 * slope * v) == (3 * b2 * (2 * slope)) * v;
    assert 3 * b2 * (2 * slope) == 6 * (slope * b2);
    assert 3 * b2 * (rounds * v) == (3 * b2 * rounds) * v;
    assert 3 * b2 * rounds == 3 * (b2 * rounds);
  }

  lemma WithinSlack(v: nat, exact: int, rounded: int, down: int, up: int)
    requires exact - down <= rounded <= exact + up
    ensures v * exact - v * down <= v * rounded <= v * exact + v * up
  {
    MulMono(exact - down, rounded, v);
    MulMono(rounded, exact + up, v);
    Distribute2(v, exact, up);
    Distribute2(v, exact, -down);
  }

  /** Rounded up once, a fill's fee lies within one unit and the rate slack of its exact share. */
  lemma FeeAgainstPotential(fee: FeeConfig, baseline: nat, c: nat, v: nat)
    requires ValidFee(fee) && c + v <= baseline && 0 < baseline
    ensures var step := FIXED_POINT_SCALE * (Potential(fee, baseline, c + v) - Potential(fee, baseline, c));
            step - SlackDown(fee, baseline, v) <= Unit(baseline) * TotalFee(fee, c, baseline, v)
              <= step + SlackUp(fee, baseline, v) + Unit(baseline)
  {
    hide TotalFee, Charge, Potential, SlackDown, SlackUp, Unit;
    RateAgainstPotential(fee, baseline, c, v);
    CeilingOfCharge(fee, baseline, c, v);
  }

  lemma CeilingOfCharge(fee: FeeConfig, baseline: nat, c: nat, v: nat)
    requires ValidFee(fee) && c + v <= baseline
    ensures Charge(fee, baseline, c, v) <= Unit(baseline) * TotalFee(fee, c, baseline, v)
      <= Charge(fee, baseline, c, v) + Unit(baseline)
  {
    hide FillRate, CeilDiv;
    ScaledCeiling(v * FillRate(fee, c, baseline, v), 3 * (baseline * baseline));
  }

  lemma ScaledCeiling(n: nat, k: nat)
    ensures k * n <= k * RATE_SCALE * CeilDiv(n, RATE_SCALE) <= k * n + k * RATE_SCALE
  {
    hide CeilDiv;
    var t := CeilDiv(n, RATE_SCALE);
    CeilDivBounds(n, RATE_SCALE);
    MulMono(n, t * RATE_SCALE, k);
    MulMono(t * RATE_SCALE, n + RATE_SCALE, k);
    Distribute2(k, n, RATE_SCALE);
    assert k * (t * RATE_SCALE) == k * RATE_SCALE * t;
  }

  // ----- Any split of a fill

  ghost function Total(fills: seq<nat>): nat {
    if fills == [] then 0 else fills[0] + Total(fills[1..])
  }

  /** The fees the source charges for consecutive fills of one epoch. */
  ghost function ChargedFees(fee: FeeConfig, consumed: nat, baseline: nat, fills: seq<nat>): Checked<nat>
    decreases fills
  {
    if fills == [] then Ok(0)
    else
      var first :- FeeFor(fills[0], fee, consumed, consumed + fills[0], baseline);
      var rest :- ChargedFees(fee, consumed + fills[0], baseline, fills[1..]);
      Ok(first.totalFeeAmount + rest)
  }

  ghost function SumOfFees(fee: FeeConfig, consumed: nat, baseline: nat, fills: seq<nat>): nat
    requires ValidFee(fee) && consumed + Total(fills) <= baseline
    decreases fills
  {
    if fills == [] then 0
    else TotalFee(fee, consumed, baseline, fills[0]) + SumOfFees(fee, consumed + fills[0], baseline, fills[1..])
  }

  lemma {:induction false} ChargedFeesOk(fee: FeeConfig, consumed: nat, baseline: nat, fills: seq<nat>)
    requires ValidFee(fee) && InEpoch(consumed, baseline, Total(fills))
    ensures ChargedFees(fee, consumed, baseline, fills) == Ok(SumOfFees(fee, consumed, baseline, fills))
    decreases fills
  {
    hide FeeFor, TotalFee;
    if fills != [] {
      FeeForInEpoch(fee, consumed, baseline, fills[0]);
      ChargedFeesOk(fee, consumed + fills[0], baseline, fills[1..]);
    }
  }

  lemma SlackAdds(fee: FeeConfig, baseline: nat, v: nat, w: nat)
    requires ValidFee(fee)
    ensures SlackDown(fee, baseline, v + w) == SlackDown(fee, baseline, v) + SlackDown(fee, baseline, w)
    ensures SlackUp(fee, baseline, v + w) == SlackUp(fee, baseline, v) + SlackUp(fee, baseline, w)
  {
    var k, m, r := 3 * (baseline * baseline), 2 * fee.slopeBps, Rounds(fee);
    Distribute2(m, v, w);
    Distribute2(k, m * v, m * w);
    Distribute2(r, v, w);
    Distribute2(k, r * v, r * w);
  }

  /** The exact parts of consecutive fills telescope; only the roundings add up. */
  lemma {:induction false} SplitAgainstPotential(fee: FeeConfig, baseline: nat, c: nat, fills: seq<nat>)
    requires ValidFee(fee) && c + Total(fills) <= baseline && 0 < baseline
    ensures var v := Total(fills);
            var step := FIXED_POINT_SCALE * (Potential(fee, baseline, c + v) - Potential(fee, baseline, c));
            step - SlackDown(fee, baseline, v) <= Unit(baseline) * SumOfFees(fee, c, baseline, fills)
              <= step + SlackUp(fee, baseline, v) + Unit(baseline) * |fills|
    decreases fills
  {
    hide Potential, SlackDown, SlackUp, Unit, TotalFee;
    if fills == [] {
      SlackAdds(fee, baseline, 0, 0);
    } else {
      var v, rest := fills[0], fills[1..];
      FeeAgainstPotential(fee, baseline, c, v);
      SplitAgainstPotential(fee, baseline, c + v, rest);
      SlackAdds(fee, baseline, v, Total(rest));
      var p0: int, p1: int, p2: int :=
        Potential(fee, baseline, c), Potential(fee, baseline, c + v), Potential(fee, baseline, c + Total(fills));
      AddCharges(Unit(baseline), TotalFee(fee, c, baseline, v), SumOfFees(fee, c + v, baseline, rest), |rest|,
        FIXED_POINT_SCALE * (p1 - p0), FIXED_POINT_SCALE * (p2 - p1),
        SlackDown(fee, baseline, v), SlackDown(fee, baseline, Total(rest)), SlackUp(fee, baseline, v),
        SlackUp(fee, baseline, Total(rest)));
    }
  }

  lemma AddCharges(unit: nat, first: int, rest: int, n: nat, step1: int, step2: int, down1: int, down2: int,
    up1: int, up2: int)
    requires step1 - down1 <= unit * first <= step1 + up1 + unit
    requires step2 - down2 <= unit * rest <= step2 + up2 + unit * n
    ensures step1 + step2 - (down1 + down2) <= unit * (first + rest) <= step1 + step2 + (up1 + up2) + unit * (n + 1)
  {
    Distribute2(unit, first, rest);
    Distribute2(unit, n, 1);
  }

  /** All the roundings of the rate over v units are worth less than one fee unit. */
  predicate FineFill(fee: FeeConfig, v: nat) {
    fee.slopeBps == 0 || (2 * fee.slopeBps + 1) * v < RATE_SCALE
  }

  lemma SlackIsFine(fee: FeeConfig, baseline: nat, v: nat)
    requires ValidFee(fee) && FineFill(fee, v) && 0 < baseline
    ensures SlackDown(fee, baseline, v) + SlackUp(fee, baseline, v) < Unit(baseline)
  {
    var k: nat, m: nat, r := 3 * (baseline * baseline), 2 * fee.slopeBps, Rounds(fee);
    MulStrict(0, baseline, baseline);
    Distribute2(k, m * v, r * v);
    if fee.slopeBps == 0 {
      assert m * v == 0 && r * v == 0;
      MulStrict(0, RATE_SCALE, k);
    } else {
      assert (m + 1) * v == m * v + r * v;
      MulStrict(m * v + r * v, RATE_SCALE, k);
    }
  }

  /** For n fills the sum differs from the one-shot fee by at most one unit down and n units up. */
  lemma SplitFeesAreAdditive(fee: FeeConfig, consumed: nat, baseline: nat, fills: seq<nat>)
    requires ValidFee(fee) && InEpoch(consumed, baseline, Total(fills)) && FineFill(fee, Total(fills))
    ensures var split := ChargedFees(fee, consumed, baseline, fills);
            var whole := FeeFor(Total(fills), fee, consumed, consumed + Total(fills), baseline);
            split.Ok? && whole.Ok? && -1 <= split.value - whole.value.totalFeeAmount <= |fills|
  {
    hide FeeFor, TotalFee, Potential, SlackDown, SlackUp, Unit, ChargedFees, FineFill;
    var v := Total(fills);
    ChargedFeesOk(fee, consumed, baseline, fills);
    FeeForInEpoch(fee, consumed, baseline, v);
    if baseline == 0 {
      AllZero(fee, consumed, fills);
    } else {
      var split, whole := SumOfFees(fee, consumed, baseline, fills), TotalFee(fee, consumed, baseline, v);
      SplitAgainstPotential(fee, baseline, consumed, fills);
      FeeAgainstPotential(fee, baseline, consumed, v);
      SlackIsFine(fee, baseline, v);
      var step := FIXED_POINT_SCALE * (Potential(fee, baseline, consumed + v) - Potential(fee, baseline, consumed));
      WholeUnits(Unit(baseline), split, whole, |fills|, step, SlackDown(fee, baseline, v), SlackUp(fee, baseline, v));
    }
  }

  /** Two multiples of the unit near the same step differ by whole units. */
  lemma WholeUnits(unit: nat, split: int, whole: int, n: nat, step: int, down: int, up: int)
    requires down + up < unit
    requires step - down <= unit * split <= step + up + unit * n
    requires step - down <= unit * whole <= step + up + unit
    ensures -1 <= split - whole <= n
  {
    Distribute2(unit, split, -whole);
    Distribute2(unit, n, 1);
    MulCancelLt(-2, split - whole, unit);
    MulCancelLt(split - whole, n + 1, unit);
  }

  lemma {:induction false} AllZero(fee: FeeConfig, consumed: nat, fills: seq<nat>)
    requires ValidFee(fee) && consumed + Total(fills) <= 0
    ensures SumOfFees(fee, consumed, 0, fills) == 0 == TotalFee(fee, consumed, 0, Total(fills))
    decreases fills
  {
    hide TotalFee;
    ZeroFillIsFree(fee, consumed, 0);
    if fills != [] {
      AllZero(fee, consumed + fills[0], fills[1..]);
    }
  }

  lemma ZeroFillIsFree(fee: FeeConfig, consumed: nat, baseline: nat)
    requires ValidFee(fee) && consumed <= baseline
    ensures TotalFee(fee, consumed, baseline, 0) == 0
  {
    assert 0 * FillRate(fee, consumed, baseline, 0) == 0;
  }

  // ----- Exactly when a split is fair

  /** How far the rates of consecutive fills stay below a given rate, each over the size of its fill. */
  ghost function RateLoss(fee: FeeConfig, consumed: nat, baseline: nat, fills: seq<nat>, rate: nat): int
    requires ValidFee(fee) && consumed + Total(fills) <= baseline
    decreases fills
  {
    if fills == [] then 0
    else
      fills[0] * (rate - FillRate(fee, consumed, baseline, fills[0]))
      + RateLoss(fee, consumed + fills[0], baseline, fills[1..], rate)
  }

  /** How far the charges of consecutive fills are short of whole units, in all. */
  ghost function ResidueOfAll(fee: FeeConfig, consumed: nat, baseline: nat, fills: seq<nat>): nat
    requires ValidFee(fee) && consumed + Total(fills) <= baseline
    decreases fills
  {
    if fills == [] then 0
    else
      Residue(fills[0] * FillRate(fee, consumed, baseline, fills[0]))
      + ResidueOfAll(fee, consumed + fills[0], baseline, fills[1..])
  }

  /** Against any common rate, the fees of a split are the charge of the whole, less the loss, plus the residues. */
  lemma {:induction false} SplitAgainstRate(fee: FeeConfig, consumed: nat, baseline: nat, fills: seq<nat>, rate: nat)
    requires ValidFee(fee) && consumed + Total(fills) <= baseline
    ensures SumOfFees(fee, consumed, baseline, fills) * RATE_SCALE
         == Total(fills) * rate - RateLoss(fee, consumed, baseline, fills, rate)
            + ResidueOfAll(fee, consumed, baseline, fills)
    decreases fills
  {
    hide FillRate, CeilDiv, Residue, ValidFee;
    if fills == [] {
      assert 0 * rate == 0;
    } else {
      var v, rest := fills[0], fills[1..];
      var f: int := FillRate(fee, consumed, baseline, v);
      SplitAgainstRate(fee, consumed + v, baseline, rest, rate);
      ResidueFillsUnit(v * f);
      AddPart(TotalFee(fee, consumed, baseline, v), SumOfFees(fee, consumed + v, baseline, rest), v,
        Total(rest), f, rate,
        Residue(v * f), RateLoss(fee, consumed + v, baseline, rest, rate),
        ResidueOfAll(fee, consumed + v, baseline, rest));
    }
  }

  lemma AddPart(first: int, others: int, v: nat, w: nat, f: int, rate: int, residue: int, loss: int, residues: int)
    requires first * RATE_SCALE == v * f + residue && others * RATE_SCALE == w * rate - loss + residues
    ensures (first + others) * RATE_SCALE == (v + w) * rate - (v * (rate - f) + loss) + (residue + residues)
  {
    Distribute2(v, rate, -f);
    Distribute2(rate, v, w);
  }

  /** The fees of consecutive fills before their final ceilings, in comparison units. */
  ghost function Charges(fee: FeeConfig, baseline: nat, c: nat, fills: seq<nat>): int
    requires ValidFee(fee) && c + Total(fills) <= baseline
    decreases fills
  {
    if fills == [] then 0
    else Charge(fee, baseline, c, fills[0]) + Charges(fee, baseline, c + fills[0], fills[1..])
  }

  /** Before its final ceilings a split follows the potential as closely as a single fill does. */
  lemma {:induction false} ChargesAgainstPotential(fee: FeeConfig, baseline: nat, c: nat, fills: seq<nat>)
    requires ValidFee(fee) && c + Total(fills) <= baseline && 0 < baseline
    ensures var v := Total(fills);
            var step := FIXED_POINT_SCALE * (Potential(fee, baseline, c + v) - Potential(fee, baseline, c));
            step - SlackDown(fee, baseline, v) <= Charges(fee, baseline, c, fills) <= step + SlackUp(fee, baseline, v)
    decreases fills
  {
    hide Potential, SlackDown, SlackUp, Charge, ValidFee;
    if fills == [] {
      SlackAdds(fee, baseline, 0, 0);
    } else {
      var v, rest := fills[0], fills[1..];
      RateAgainstPotential(fee, baseline, c, v);
      ChargesAgainstPotential(fee, baseline, c + v, rest);
      SlackAdds(fee, baseline, v, Total(rest));
    }
  }

  lemma {:induction false} ChargesAgainstRate(fee: FeeConfig, baseline: nat, c: nat, fills: seq<nat>, rate: nat)
    requires ValidFee(fee) && c + Total(fills) <= baseline
    ensures Charges(fee, baseline, c, fills)
         == 3 * (baseline * baseline) * (Total(fills) * rate - RateLoss(fee, c, baseline, fills, rate))
    decreases fills
  {
    hide FillRate, ValidFee;
    if fills == [] {
      assert 0 * rate == 0;
    } else {
      var v, rest := fills[0], fills[1..];
      ChargesAgainstRate(fee, baseline, c + v, rest, rate);
      AddRaw(3 * (baseline * baseline), v, Total(rest), FillRate(fee, c, baseline, v), rate,
        RateLoss(fee, c + v, baseline, rest, rate));
    }
  }

  lemma AddRaw(k: nat, v: nat, w: nat, f: int, rate: int, loss: int)
    ensures k * ((v + w) * rate - (v * (rate - f) + loss)) == k * (v * f) + k * (w * rate - loss)
  {
    Distribute2(v, rate, -f);
    Distribute2(rate, v, w);
    Distribute2(k, v * f, w * rate - loss);
  }

  /** What rounding the rates may move over v units: two slopes for the floored utilizations, one for the premium. */
  ghost function RateSlack(fee: FeeConfig, v: nat): int {
    2 * fee.slopeBps * v + Rounds(fee) * v
  }

  /** Though the rates of the parts differ, over any split they lose to the rate of the whole no more than rounding. */
  lemma RateLossIsRounding(fee: FeeConfig, consumed: nat, baseline: nat, fills: seq<nat>, rate: nat)
    requires ValidFee(fee) && consumed + Total(fills) <= baseline && 0 < baseline
    requires rate == FillRate(fee, consumed, baseline, Total(fills))
    ensures -RateSlack(fee, Total(fills)) <= RateLoss(fee, consumed, baseline, fills, rate)
      <= RateSlack(fee, Total(fills))
  {
    hide Potential, FillRate, RateLoss, Charges, Total, Rounds;
    var v := Total(fills);
    RateAgainstPotential(fee, baseline, consumed, v);
    ChargesAgainstPotential(fee, baseline, consumed, fills);
    ChargesAgainstRate(fee, baseline, consumed, fills, rate);
    CancelScale(3 * (baseline * baseline), v * rate, RateLoss(fee, consumed, baseline, fills, rate), 2 * fee.slopeBps,
      Rounds(fee), v,
      FIXED_POINT_SCALE * (Potential(fee, baseline, consumed + v) - Potential(fee, baseline, consumed)));
  }

  lemma CancelScale(k: nat, charge: int, loss: int, down: nat, up: nat, v: nat, step: int)
    requires 0 < k
    requires step - k * (down * v) <= k * charge <= step + k * (up * v)
    requires step - k * (down * v) <= k * (charge - loss) <= step + k * (up * v)
    ensures -(down * v + up * v) <= loss <= down * v + up * v
  {
    var slack := down * v + up * v;
    Distribute2(k, charge, -loss);
    Distribute2(k, down * v, up * v);
    MulCancelLe(loss, slack, k);
    MulCancelLe(-slack, loss, k);
  }

  /**
   What the parts lose to the rate of the whole fits in one fee unit and the parts' residues, and the
   residues fit in one unit a part and the loss.
   */
  ghost predicate SplitFits(fee: FeeConfig, consumed: nat, baseline: nat, fills: seq<nat>)
    requires ValidFee(fee) && consumed + Total(fills) <= baseline
  {
    var v := Total(fills);
    var rate := FillRate(fee, consumed, baseline, v);
    var loss := RateLoss(fee, consumed, baseline, fills, rate) + Residue(v * rate);
    var residues := ResidueOfAll(fee, consumed, baseline, fills);
    loss <= RATE_SCALE + residues && residues <= |fills| * RATE_SCALE + loss
  }

  /** A split stays within one unit down and n units up exactly when its rate losses and residues fit. */
  lemma SplitIsFairIff(fee: FeeConfig, consumed: nat, baseline: nat, fills: seq<nat>)
    requires ValidFee(fee) && InEpoch(consumed, baseline, Total(fills))
    ensures var split := ChargedFees(fee, consumed, baseline, fills);
            var whole := FeeFor(Total(fills), fee, consumed, consumed + Total(fills), baseline);
            split.Ok? && whole.Ok?
            && (-1 <= split.value - whole.value.totalFeeAmount <= |fills|
                <==> SplitFits(fee, consumed, baseline, fills))
  {
    hide FeeFor, TotalFee, FillRate, ChargedFees, SumOfFees, Representable, SplitFits;
    ChargedFeesOk(fee, consumed, baseline, fills);
    FeeForInEpoch(fee, consumed, baseline, Total(fills));
    SplitFitsIff(fee, consumed, baseline, fills);
  }

  lemma SplitFitsIff(fee: FeeConfig, consumed: nat, baseline: nat, fills: seq<nat>)
    requires ValidFee(fee) && consumed + Total(fills) <= baseline
    ensures SplitFits(fee, consumed, baseline, fills) <==>
              -1 <= SumOfFees(fee, consumed, baseline, fills)
                - TotalFee(fee, consumed, baseline, Total(fills)) <= |fills|
  {
    hide FillRate, CeilDiv, Residue, RateLoss, ResidueOfAll, SumOfFees, ValidFee, Total;
    var v := Total(fills);
    var rate := FillRate(fee, consumed, baseline, v);
    SplitAgainstRate(fee, consumed, baseline, fills, rate);
    ResidueFillsUnit(v * rate);
    UnitsFit(SumOfFees(fee, consumed, baseline, fills), TotalFee(fee, consumed, baseline, v), v * rate,
      RateLoss(fee, consumed, baseline, fills, rate), ResidueOfAll(fee, consumed, baseline, fills),
      Residue(v * rate), |fills|);
  }

  lemma UnitsFit(split: int, whole: int, charge: int, loss: int, residues: int, residue: int, n: nat)
    requires split * RATE_SCALE == charge - loss + residues && whole * RATE_SCALE == charge + residue
    ensures -1 <= split - whole <= n <==>
              loss + residue <= RATE_SCALE + residues && residues <= n * RATE_SCALE + (loss + residue)
  {
  }

  // ----- A split of a fill that is not fine

  /** A split that is charged two units less than the one-shot fill. */
  ghost predicate LosesTwo(fee: FeeConfig, consumed: nat, baseline: nat, fills: seq<nat>) {
    var split := ChargedFees(fee, consumed, baseline, fills);
    var whole := FeeFor(Total(fills), fee, consumed, consumed + Total(fills), baseline);
    && ValidFee(fee) && InEpoch(consumed, baseline, Total(fills)) && !FineFill(fee, Total(fills))
    && split.Ok? && whole.Ok? && split.value + 2 == whole.value.totalFeeAmount
  }

  const SPLIT_BASELINE: nat := 3_089_296_000_000_000_000_000_000
  const SPLIT_CONSUMED: nat := 3_089_245_997_278_769_470_864_512
  const FIRST_FILL: nat := 3_089_200
  const SECOND_FILL: nat := 50_002_721_230_526_046_188
  const THIRD_FILL: nat := 100

  /** Three fills of 50.01 * 10^18 in all, where 49.75 * 10^18 is fine for every configuration. */
  lemma CoarseSplitLosesTwo()
    ensures FIRST_FILL + SECOND_FILL + THIRD_FILL < 50_003 * 1_000_000_000_000_000
    ensures LosesTwo(STEEP_FEE, SPLIT_CONSUMED, SPLIT_BASELINE, [FIRST_FILL, SECOND_FILL, THIRD_FILL])
  {
    hide LosesTwo, SteepFeeIs, InEpoch, FineFill;
    CoarseSplitFees();
    CoarseSplitIsOrderly();
    LossFromFees(SPLIT_CONSUMED, SPLIT_BASELINE, FIRST_FILL, SECOND_FILL, THIRD_FILL, 30_891,
      500_019_119_009_438_939, 1);
  }

  lemma LossFromFees(consumed: nat, baseline: nat, a: nat, b: nat, c: nat, x: nat, y: nat, z: nat)
    requires InEpoch(consumed, baseline, a + b + c) && !FineFill(STEEP_FEE, a + b + c)
    requires SteepFeeIs(consumed, baseline, a, x) && SteepFeeIs(consumed + a, baseline, b, y)
      && SteepFeeIs(consumed + a + b, baseline, c, z)
    requires SteepFeeIs(consumed, baseline, a + b + c, x + y + z + 2)
    ensures LosesTwo(STEEP_FEE, consumed, baseline, [a, b, c])
  {
    hide FeeFor, ChargedFees, SteepFeeIs, FineFill, InEpoch, Total;
    PartsInEpoch(consumed, baseline, a, b, c);
    ThreeCharged(consumed, baseline, a, b, c, x, y, z);
    WholeCharged(consumed, baseline, a + b + c, x + y + z + 2);
    TotalOfThree(a, b, c);
  }

  lemma TotalOfThree(a: nat, b: nat, c: nat)
    ensures Total([a, b, c]) == a + b + c
  {
    assert [a, b, c][1..] == [b, c] && [b, c][1..] == [c] && [c][1..] == [];
    assert Total([c]) == c && Total([b, c]) == b + c;
  }

  lemma WholeCharged(consumed: nat, baseline: nat, v: nat, amount: nat)
    requires InEpoch(consumed, baseline, v) && SteepFeeIs(consumed, baseline, v, amount)
    ensures ChargesSteep(consumed, baseline, v, amount)
  {
    hide TotalFee, FeeFor, Representable;
    FeeForInEpoch(STEEP_FEE, consumed, baseline, v);
  }

  ghost predicate ChargesSteep(consumed: nat, baseline: nat, v: nat, amount: nat) {
    var whole := FeeFor(v, STEEP_FEE, consumed, consumed + v, baseline);
    whole.Ok? && whole.value.totalFeeAmount == amount
  }

  lemma ChargedStep(consumed: nat, baseline: nat, v: nat, rest: seq<nat>, amount: nat, sum: nat)
    requires ChargesSteep(consumed, baseline, v, amount)
      && ChargedFees(STEEP_FEE, consumed + v, baseline, rest) == Ok(sum)
    ensures ChargedFees(STEEP_FEE, consumed, baseline, [v] + rest) == Ok(amount + sum)
  {
    hide FeeFor;
    assert ([v] + rest)[1..] == rest;
  }

  lemma NothingCharged(consumed: nat, baseline: nat)
    ensures ChargedFees(STEEP_FEE, consumed, baseline, []) == Ok(0)
  {
  }

  lemma ThreeCharged(consumed: nat, baseline: nat, a: nat, b: nat, c: nat, x: nat, y: nat, z: nat)
    requires InEpoch(consumed, baseline, a) && InEpoch(consumed + a, baseline, b)
      && InEpoch(consumed + a + b, baseline, c)
    requires SteepFeeIs(consumed, baseline, a, x) && SteepFeeIs(consumed + a, baseline, b, y)
      && SteepFeeIs(consumed + a + b, baseline, c, z)
    ensures ChargedFees(STEEP_FEE, consumed, baseline, [a, b, c]) == Ok(x + y + z)
  {
    hide InEpoch, SteepFeeIs, ChargesSteep, ChargedFees;
    WholeCharged(consumed, baseline, a, x);
    WholeCharged(consumed + a, baseline, b, y);
    WholeCharged(consumed + a + b, baseline, c, z);
    NothingCharged(consumed + a + b + c, baseline);
    ChargedStep(consumed + a + b, baseline, c, [], z, 0);
    assert [c] + [] == [c] && [b] + [c] == [b, c] && [a] + [b, c] == [a, b, c];
    ChargedStep(consumed + a, baseline, b, [c], y, z);
    ChargedStep(consumed, baseline, a, [b, c], x, y + z);
  }

  lemma PartsInEpoch(consumed: nat, baseline: nat, a: nat, b: nat, c: nat)
    requires InEpoch(consumed, baseline, a + b + c)
    ensures InEpoch(consumed, baseline, a) && InEpoch(consumed + a, baseline, b)
      && InEpoch(consumed + a + b, baseline, c)
  {
    hide Representable;
  }

  lemma CoarseSplitIsOrderly()
    ensures InEpoch(SPLIT_CONSUMED, SPLIT_BASELINE, FIRST_FILL + SECOND_FILL + THIRD_FILL)
    ensures !FineFill(STEEP_FEE, FIRST_FILL + SECOND_FILL + THIRD_FILL)
  {
  }

  lemma CoarseSplitFees()
    ensures SteepFeeIs(SPLIT_CONSUMED, SPLIT_BASELINE, FIRST_FILL, 30_891)
    ensures SteepFeeIs(SPLIT_CONSUMED + FIRST_FILL, SPLIT_BASELINE, SECOND_FILL, 500_019_119_009_438_939)
    ensures SteepFeeIs(SPLIT_CONSUMED + FIRST_FILL + SECOND_FILL, SPLIT_BASELINE, THIRD_FILL, 1)
    ensures SteepFeeIs(SPLIT_CONSUMED, SPLIT_BASELINE, FIRST_FILL + SECOND_FILL + THIRD_FILL, 500_019_119_009_469_833)
  {
    hide SteepFeeIs;
    var u, nearlyFull: nat, full: nat := 999_983_814_201_931_272, 999_999_999_999_999_999, 1_000_000_000_000_000_000;
    var c1, c2 := SPLIT_CONSUMED + FIRST_FILL, SPLIT_CONSUMED + FIRST_FILL + SECOND_FILL;
    SteepFee(SPLIT_CONSUMED, SPLIT_BASELINE, FIRST_FILL, u, u, 99_996_762_866_584_260_313, 30_891);
    SteepFee(c1, SPLIT_BASELINE, SECOND_FILL, u, nearlyFull, 99_998_381_428_925_795_738, 500_019_119_009_438_939);
    SteepFee(c2, SPLIT_BASELINE, THIRD_FILL, nearlyFull, full, 99_999_999_999_999_999_901, 1);
    SteepFee(SPLIT_CONSUMED, SPLIT_BASELINE, FIRST_FILL + SECOND_FILL + THIRD_FILL, u, full,
      99_998_381_428_925_795_838, 500_019_119_009_469_833);
  }
}
