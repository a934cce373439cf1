/** The factor table holds powers of 1.0001, and a tick's price is its power, rounded down. */
module TickPowers {
  import opened Wrappers
  import opened Arith
  import opened Checked
  import opened TickMath

  // ---------- the table, by squares ----------

  /** The first factor is the square root of 10000/10001 with 128 fractional bits, rounded down. */
  lemma FirstFactorIsRoot()
    ensures var first: nat := TICK_FACTORS[0];
      first * first * 10001 <= 10000 * U256_LIMIT < (first + 1) * (first + 1) * 10001
  {
  }

  /** Every other factor is the square of the one before it, up to two units of rounding. */
  lemma FactorsAreSquares()
    ensures forall k | 0 <= k < 19 ::
      Scaled(TICK_FACTORS[k], TICK_FACTORS[k]) <= TICK_FACTORS[k + 1] <= Scaled(TICK_FACTORS[k], TICK_FACTORS[k]) + 2
  {
  }

  // ---------- powers ----------

  ghost function Power(x: real, n: nat): real {
    if n == 0 then 1.0 else x * Power(x, n - 1)
  }

  lemma {:induction false} PowerIsPositive(x: real, n: nat)
    requires x > 0.0
    ensures Power(x, n) > 0.0
  {
    if n > 0 {
      PowerIsPositive(x, n - 1);
    }
  }

  lemma {:induction false} PowersAdd(x: real, m: nat, n: nat)
    ensures Power(x, m + n) == Power(x, m) * Power(x, n)
  {
    if m > 0 {
      PowersAdd(x, m - 1, n);
      assert x * (Power(x, m - 1) * Power(x, n)) == x * Power(x, m - 1) * Power(x, n);
    }
  }

  /** Powers of inverses are inverse. */
  lemma {:induction false} PowersInvert(x: real, y: real, n: nat)
    requires x * y == 1.0
    ensures Power(x, n) * Power(y, n) == 1.0
  {
    if n > 0 {
      PowersInvert(x, y, n - 1);
      var a, b := Power(x, n - 1), Power(y, n - 1);
      assert (x * a) * (y * b) == (x * y) * (a * b);
    }
  }

  // ---------- products of roots, rounded ----------

  lemma NotNegative(x: real, y: real)
    requires x >= 0.0 && y >= 0.0
    ensures x * y >= 0.0
  {
  }

  lemma Monotone(a: real, b: real, c: real, d: real)
    requires 0.0 <= a <= b && 0.0 <= c <= d
    ensures a * c <= b * d
  {
    assert a * c <= b * c <= b * d;
  }

  lemma Cancel(x: real, y: real, k: real)
    requires k > 0.0 && x * k <= y * k
    ensures x <= y
  {
  }

  lemma Regroup(a: real, b: real, c: real, d: real)
    ensures (a * b) * (c * d) == (a * c) * (b * d)
  {
  }

  lemma SquareAtMost(a: real, b: real, x: real, y: real)
    requires a * a <= x && b * b <= y
    ensures (a * b) * (a * b) <= x * y
  {
    Regroup(a, b, a, b);
    Monotone(a * a, x, b * b, y);
  }

  lemma SquareAtLeast(a: real, b: real, x: real, y: real)
    requires 0.0 <= x <= a * a && 0.0 <= y <= b * b
    ensures x * y <= (a * b) * (a * b)
  {
    Regroup(a, b, a, b);
    Monotone(x, a * a, y, b * b);
  }

  lemma RoundedAtMost(c: real, down: real, z: real)
    requires c >= 0.0 && down >= 0.0 && c * down <= z
    ensures (c * c) * (down * down) <= z * z
  {
    NotNegative(c, down);
    Regroup(c, c, down, down);
    Monotone(c * down, z, c * down, z);
  }

  lemma RoundedAtLeast(c: real, up: real, z: real)
    requires 0.0 <= z <= c * up
    ensures z * z <= (c * c) * (up * up)
  {
    Regroup(c, c, up, up);
    Monotone(z, c * up, z, c * up);
  }

  /** A rounded product is the root of the product, from above, if one factor has a rounding to spare. */
  lemma ProductAtMost(a: real, b: real, c: real, p: real, q: real, down: real, square: real)
    requires a >= 0.0 && b >= 0.0 && c >= 0.0 && down >= 0.0 && square == down * down && square > 0.0
    requires a * a <= p && b * b <= q * square && c * down <= a * b
    ensures c * c <= p * q
  {
    var z := a * b;
    SquareAtMost(a, b, p, q * square);
    RoundedAtMost(c, down, z);
    assert p * (q * square) == p * q * square;
    Cancel(c * c, p * q, square);
  }

  /** And from below. */
  lemma ProductAtLeast(a: real, b: real, c: real, p: real, q: real, up: real, square: real)
    requires a >= 0.0 && b >= 0.0 && p >= 0.0 && q >= 0.0 && square == up * up && square > 0.0
    requires p <= a * a && q * square <= b * b && a * b <= c * up
    ensures p * q <= c * c
  {
    var z := a * b;
    NotNegative(a, b);
    NotNegative(q, square);
    SquareAtLeast(a, b, p, q * square);
    RoundedAtLeast(c, up, z);
    assert p * (q * square) == p * q * square;
    Cancel(p * q, c * c, square);
  }

  // ---------- the table, as powers ----------

  const ONE: real := 340282366920938463463374607431768211456.0
  const SHRINK: real := 10000.0 / 10001.0

  /** One unit of rounding is at most this share of half a ratio of the grid: one part in 2^95. */
  const GRAIN: real := 1.0 / 39614081257132168796771975168.0
  const UP: real := 1.0 + GRAIN
  const DOWN: real := 1.0 - GRAIN
  const UP_SQUARE: real := UP * UP
  const DOWN_SQUARE: real := DOWN * DOWN

  /** One tick down, with room for two roundings of its square root. */
  const LOW: real := SHRINK / (UP_SQUARE * UP_SQUARE)
  const HIGH: real := SHRINK / (DOWN_SQUARE * DOWN_SQUARE)

  lemma Constants()
    ensures UP_SQUARE > 0.0 && DOWN_SQUARE > 0.0 && UP > 0.0 && DOWN > 0.0
    ensures LOW > 0.0 && HIGH > 0.0
  {
  }

  /** A number with 128 fractional bits. */
  ghost function Fraction(r: nat): real {
    r as real / ONE
  }

  /** Bounds on the square of what so many ticks down come to. */
  datatype Scale = Scale(low: nat -> real, high: nat -> real)

  ghost predicate MultipliesAt(f: nat -> real, m: nat, n: nat) {
    f(m + n) == f(m) * f(n)
  }

  ghost predicate Exponential(f: nat -> real) {
    (forall n: nat :: f(n) > 0.0) && forall m: nat, n: nat :: MultipliesAt(f, m, n)
  }

  /** The bounds multiply, and leave room around one and around the first factor. */
  ghost predicate IsScale(s: Scale) {
    && Exponential(s.low) && Exponential(s.high)
    && IsRoot(s, U128_LIMIT, 0) && IsCloseRoot(s, TICK_FACTORS[0], 1)
  }

  /** The ratio is the square root of so many ticks down, roundings included. */
  ghost predicate IsRoot(s: Scale, ratio: nat, ticks: nat) {
    s.low(ticks) <= Fraction(ratio) * Fraction(ratio) <= s.high(ticks)
  }

  /** And it has room for one rounding more. */
  ghost predicate IsCloseRoot(s: Scale, ratio: nat, ticks: nat) {
    s.low(ticks) * UP_SQUARE <= Fraction(ratio) * Fraction(ratio) <= s.high(ticks) * DOWN_SQUARE
  }

  /** c is the product of a and b to within two units. */
  predicate RoundedProduct(a: nat, b: nat, c: nat) {
    c * U128_LIMIT <= a * b + 2 * U128_LIMIT && a * b <= c * U128_LIMIT + 2 * U128_LIMIT
  }

  /** c is that product to within a small share of itself. */
  ghost predicate IsRounded(a: nat, b: nat, c: nat) {
    Fraction(c) * DOWN <= Fraction(a) * Fraction(b) <= Fraction(c) * UP
  }

  const LEAST: nat := 79228162514264337593543950336

  lemma FractionsMultiply(a: nat, b: nat)
    ensures Fraction(a) * Fraction(b) == (a * b) as real / (ONE * ONE)
  {
  }

  /** Two units are a small share of a ratio that is not too small. */
  lemma RoundingIsSmall(a: nat, b: nat, c: nat)
    requires RoundedProduct(a, b, c) && c >= LEAST
    ensures IsRounded(a, b, c)
  {
    FractionsMultiply(a, b);
    assert c as real * GRAIN >= 2.0;
    assert Fraction(c) == (c * U128_LIMIT) as real / (ONE * ONE);
    assert Fraction(c) * GRAIN >= 2.0 / ONE;
  }

  lemma RootTimesFactor(s: Scale, a: nat, b: nat, c: nat, m: nat, n: nat)
    requires IsScale(s) && IsRoot(s, a, m) && IsCloseRoot(s, b, n)
    requires IsRounded(a, b, c)
    ensures IsRoot(s, c, m + n)
  {
    assert MultipliesAt(s.low, m, n) && MultipliesAt(s.high, m, n);
    RootAtMost(Fraction(a), Fraction(b), Fraction(c), s.high(m), s.high(n));
    RootAtLeast(Fraction(a), Fraction(b), Fraction(c), s.low(m), s.low(n));
  }

  lemma RootAtMost(a: real, b: real, c: real, p: real, q: real)
    requires a >= 0.0 && b >= 0.0 && c >= 0.0
    requires a * a <= p && b * b <= q * DOWN_SQUARE && c * DOWN <= a * b
    ensures c * c <= p * q
  {
    Constants();
    ProductAtMost(a, b, c, p, q, DOWN, DOWN_SQUARE);
  }

  lemma RootAtLeast(a: real, b: real, c: real, p: real, q: real)
    requires a >= 0.0 && b >= 0.0 && p >= 0.0 && q >= 0.0
    requires p <= a * a && q * UP_SQUARE <= b * b && a * b <= c * UP
    ensures p * q <= c * c
  {
    Constants();
    ProductAtLeast(a, b, c, p, q, UP, UP_SQUARE);
  }

  /** Squaring a factor keeps its room for a rounding. */
  lemma FactorSquared(s: Scale, b: nat, c: nat, n: nat)
    requires IsScale(s) && IsCloseRoot(s, b, n)
    requires IsRounded(b, b, c)
    ensures IsCloseRoot(s, c, n + n)
  {
    assert MultipliesAt(s.low, n, n) && MultipliesAt(s.high, n, n);
    SquaredAtMost(Fraction(b), Fraction(c), s.high(n));
    SquaredAtLeast(Fraction(b), Fraction(c), s.low(n));
  }

  lemma SquaredAtMost(b: real, c: real, q: real)
    requires b >= 0.0 && c >= 0.0 && b * b <= q * DOWN_SQUARE && c * DOWN <= b * b
    ensures c * c <= q * q * DOWN_SQUARE
  {
    RootAtMost(b, b, c, q * DOWN_SQUARE, q);
  }

  lemma SquaredAtLeast(b: real, c: real, q: real)
    requires b >= 0.0 && q >= 0.0 && q * UP_SQUARE <= b * b && b * b <= c * UP
    ensures q * q * UP_SQUARE <= c * c
  {
    Constants();
    NotNegative(q, UP_SQUARE);
    RootAtLeast(b, b, c, q * UP_SQUARE, q);
  }

  ghost function Powers(): Scale {
    Scale((n: nat) => Power(LOW, n), (n: nat) => Power(HIGH, n))
  }

  lemma PowersAreScale()
    ensures IsScale(Powers())
  {
    Constants();
    forall n: nat
      ensures Powers().low(n) > 0.0 && Powers().high(n) > 0.0
    {
      PowerIsPositive(LOW, n);
      PowerIsPositive(HIGH, n);
    }
    forall m: nat, n: nat
      ensures MultipliesAt(Powers().low, m, n) && MultipliesAt(Powers().high, m, n)
    {
      PowersAdd(LOW, m, n);
      PowersAdd(HIGH, m, n);
    }
    assert Power(LOW, 0) == 1.0 && Power(HIGH, 0) == 1.0;
  }

  /** The factor of bit k is the square root of 2^k ticks down. */
  lemma {:induction false} FactorIsRoot(s: Scale, k: nat)
    requires IsScale(s) && k < 19
    ensures IsCloseRoot(s, TICK_FACTORS[k], Pow2(k))
  {
    if k > 0 {
      FactorIsRoot(s, k - 1);
      FactorsAreSquares();
      FactorsAreLarge();
      var before, factor := TICK_FACTORS[k - 1], TICK_FACTORS[k - 1 + 1];
      assert Scaled(before, before) <= factor <= Scaled(before, before) + 2;
      RoundingIsSmall(before, before, factor);
      FactorSquared(s, before, factor, Pow2(k - 1));
    }
  }

  lemma FactorsAreLarge()
    ensures forall k | 0 <= k < 19 :: TICK_FACTORS[k] >= LEAST
  {
  }

  // ---------- ratios ----------

  lemma HalveBits(ticks: nat, bits: nat, k: nat)
    requires k < 19
    ensures bits < Pow2(19 - k) ==> bits / 2 < Pow2(18 - k)
    ensures ticks + bits * Pow2(k) == ticks + bits % 2 * Pow2(k) + bits / 2 * Pow2(k + 1)
  {
    assert Pow2(19 - k) == 2 * Pow2(18 - k) && Pow2(k + 1) == 2 * Pow2(k);
    SplitLowBit(bits / 2, bits % 2, Pow2(k));
  }

  lemma SplitLowBit(half: nat, low: nat, unit: nat)
    ensures (2 * half + low) * unit == low * unit + half * (2 * unit)
  {
  }

  /** The ratio once the factor of bit k is applied, if that bit is set. */
  lemma OneBit(ratio: U256, bits: nat, k: nat) returns (next: U256)
    requires k < 19 && ratio <= U128_LIMIT && Ratio(TICK_FACTORS, ratio, bits, k) >= LOWEST_RATIO
    ensures if bits % 2 == 1 then IsRounded(ratio, TICK_FACTORS[k], next) else next == ratio
    ensures Ratio(TICK_FACTORS, ratio, bits, k) == Ratio(TICK_FACTORS, next, bits / 2, k + 1)
    ensures next <= U128_LIMIT
  {
    next := if bits % 2 == 1 then Scaled(ratio, TICK_FACTORS[k]) else ratio;
    ScaledShrinks(ratio, TICK_FACTORS[k]);
    RatioStep(TICK_FACTORS, ratio, bits, k, next);
    RatioIsExact(TICK_FACTORS, next, bits / 2, k + 1);
    if bits % 2 == 1 {
      RoundingIsSmall(ratio, TICK_FACTORS[k], next);
    }
  }

  lemma {:induction false} RatioIsRoot(s: Scale, ratio: U256, ticks: nat, bits: nat, k: nat)
    requires IsScale(s) && k <= 19 && bits < Pow2(19 - k) && ratio <= U128_LIMIT && IsRoot(s, ratio, ticks)
    requires Ratio(TICK_FACTORS, ratio, bits, k) >= LOWEST_RATIO
    ensures IsRoot(s, Ratio(TICK_FACTORS, ratio, bits, k), ticks + bits * Pow2(k))
    decreases 19 - k
  {
    if k == 19 {
      assert bits == 0;
    } else {
      var next := OneBit(ratio, bits, k);
      HalveBits(ticks, bits, k);
      if bits % 2 == 1 {
        FactorIsRoot(s, k);
        RootTimesFactor(s, ratio, TICK_FACTORS[k], next, ticks, Pow2(k));
      }
      RatioIsRoot(s, next, ticks + bits % 2 * Pow2(k), bits / 2, k + 1);
    }
  }

  ghost function SquaredRatio(m: nat): real {
    Fraction(TickRatio(m)) * Fraction(TickRatio(m))
  }

  /** The decomposition of a magnitude multiplies up to the square root of so many ticks down. */
  lemma TickRatioIsRoot(m: nat)
    requires m <= 443_636
    ensures Power(LOW, m) <= SquaredRatio(m) <= Power(HIGH, m)
  {
    RatioBounds(m);
    assert Pow2(19) == 524_288 by {
      assert Pow2(9) == 512;
      assert Pow2(14) == 32 * Pow2(9);
      assert Pow2(19) == 32 * Pow2(14);
    }
    PowersAreScale();
    RatioIsRoot(Powers(), U128_LIMIT, 0, m, 0);
  }

  // ---------- all roundings together ----------

  lemma {:induction false} PowersOfProduct(x: real, y: real, n: nat)
    ensures Power(x * y, n) == Power(x, n) * Power(y, n)
  {
    if n > 0 {
      PowersOfProduct(x, y, n - 1);
      Regroup(x, y, Power(x, n - 1), Power(y, n - 1));
    }
  }

  lemma GrowthStep(x: real, h: real, power: real, t: real)
    requires 0.0 <= x <= 1.0 + h && h >= 0.0 && 0.0 <= power <= 1.0 + t && 0.0 <= t <= 1.0
    ensures 0.0 <= x * power <= 1.0 + t + 2.0 * h
  {
    NotNegative(x, power);
    Monotone(x, 1.0 + h, power, 1.0 + t);
    assert (1.0 + h) * (1.0 + t) == 1.0 + h + t + t * h;
    assert t * h <= h;
  }

  lemma ShrinkStep(x: real, h: real, power: real, t: real)
    requires x >= 0.0 && x >= 1.0 - h && h >= 0.0 && power >= 0.0 && power >= 1.0 - t && t >= 0.0
    ensures x * power >= 0.0 && x * power >= 1.0 - t - h
  {
    NotNegative(x, power);
    if t + h <= 1.0 {
      Monotone(1.0 - h, x, 1.0 - t, power);
      NotNegative(t, h);
      assert (1.0 - h) * (1.0 - t) == 1.0 - h - t + t * h;
    }
  }

  ghost function Times(n: nat, h: real): real {
    if n == 0 then 0.0 else Times(n - 1, h) + h
  }

  lemma OneMore(m: real, h: real)
    ensures m * h + h == (m + 1.0) * h
  {
  }

  lemma {:induction false} TimesIsProduct(n: nat, h: real)
    ensures Times(n, h) == n as real * h
  {
    if n > 0 {
      TimesIsProduct(n - 1, h);
      OneMore((n - 1) as real, h);
    }
  }

  /** Growing a little many times is growing by at most twice as much as all together. */
  lemma {:induction false} GrowthAdds(x: real, h: real, n: nat)
    requires 0.0 <= x <= 1.0 + h && h >= 0.0 && 2.0 * Times(n, h) <= 1.0
    ensures 0.0 <= Power(x, n) <= 1.0 + 2.0 * Times(n, h) && Times(n, h) >= 0.0
  {
    if n > 0 {
      GrowthAdds(x, h, n - 1);
      GrowthStep(x, h, Power(x, n - 1), 2.0 * Times(n - 1, h));
    }
  }

  lemma {:induction false} ShrinkingAdds(x: real, h: real, n: nat)
    requires x >= 0.0 && x >= 1.0 - h && h >= 0.0
    ensures Power(x, n) >= 0.0 && Power(x, n) >= 1.0 - Times(n, h) && Times(n, h) >= 0.0
  {
    if n > 0 {
      ShrinkingAdds(x, h, n - 1);
      ShrinkStep(x, h, Power(x, n - 1), Times(n - 1, h));
    }
  }

  /** One part in 2^72, which is more than all roundings of a tick's ratio come to. */
  const PRECISION: real := 1.0 / 4722366482869645213696.0

  lemma RoundingsOfOneTick()
    ensures 0.0 <= UP_SQUARE * UP_SQUARE <= 1.0 + 5.0 * GRAIN
    ensures 0.0 <= DOWN_SQUARE * DOWN_SQUARE && DOWN_SQUARE * DOWN_SQUARE >= 1.0 - 5.0 * GRAIN
    ensures 443_636.0 * (10.0 * GRAIN) <= PRECISION
    ensures LOW * (UP_SQUARE * UP_SQUARE) == SHRINK && HIGH * (DOWN_SQUARE * DOWN_SQUARE) == SHRINK
  {
  }

  lemma RoundingsOfAllTicks(m: nat, h: real)
    requires m <= 443_636 && h == 5.0 * GRAIN
    ensures h >= 0.0 && 2.0 * Times(m, h) <= PRECISION <= 1.0
  {
    RoundingsOfOneTick();
    TimesIsProduct(m, h);
  }

  /** Over the whole grid the roundings come to less than the precision, from below. */
  lemma LowStaysNear(m: nat)
    requires m <= 443_636
    ensures Power(SHRINK, m) <= Power(LOW, m) * (1.0 + PRECISION)
  {
    var up, h := UP_SQUARE * UP_SQUARE, 5.0 * GRAIN;
    RoundingsOfOneTick();
    RoundingsOfAllTicks(m, h);
    GrowthAdds(up, h, m);
    PowersOfProduct(LOW, up, m);
    Constants();
    PowerIsPositive(LOW, m);
    Monotone(Power(LOW, m), Power(LOW, m), Power(up, m), 1.0 + PRECISION);
  }

  /** And from above. */
  lemma HighStaysNear(m: nat)
    requires m <= 443_636
    ensures Power(HIGH, m) * (1.0 - PRECISION) <= Power(SHRINK, m)
  {
    var down, h := DOWN_SQUARE * DOWN_SQUARE, 5.0 * GRAIN;
    RoundingsOfOneTick();
    RoundingsOfAllTicks(m, h);
    ShrinkingAdds(down, h, m);
    PowersOfProduct(HIGH, down, m);
    Constants();
    PowerIsPositive(HIGH, m);
    Monotone(Power(HIGH, m), Power(HIGH, m), 1.0 - PRECISION, Power(down, m));
  }

  // ---------- prices ----------

  const GROW: real := 10001.0 / 10000.0

  /** 1.0001 to the power of a tick. */
  ghost function TickPower(tick: int): real {
    if tick > 0 then Power(GROW, tick) else Power(SHRINK, -tick)
  }

  /** The square of a price with 64 fractional bits. */
  ghost function Squared(price: nat): real {
    var fraction := price as real / 18446744073709551616.0;
    fraction * fraction
  }

  /** Dropping 64 bits of a ratio. */
  lemma RatioToPrice(ratio: nat)
    ensures Squared(ratio / Q64) <= Fraction(ratio) * Fraction(ratio) <= Squared(ratio / Q64 + 1)
  {
    var p, q := (ratio / Q64) as real / 18446744073709551616.0, (ratio / Q64 + 1) as real / 18446744073709551616.0;
    assert p <= Fraction(ratio) <= q;
    Monotone(p, Fraction(ratio), p, Fraction(ratio));
    Monotone(Fraction(ratio), q, Fraction(ratio), q);
  }

  /** Inverting a ratio and dropping 64 bits. */
  lemma InverseRounded(ratio: nat)
    requires ratio > 0
    ensures var price := (U256_LIMIT - 1) / ratio / Q64;
      price * (ratio * Q64) <= U256_LIMIT <= (price + 1) * (ratio * Q64)
  {
    var price := (U256_LIMIT - 1) / ratio / Q64;
    NestedFloor(U256_LIMIT - 1, ratio, Q64);
    FloorAdjoint(U256_LIMIT - 1, ratio * Q64, price);
    FloorAdjoint(U256_LIMIT - 1, ratio * Q64, price + 1);
  }

  lemma ProductOfFractions(price: nat, ratio: nat)
    ensures price * (ratio * Q64) <= U256_LIMIT ==> Squared(price) * (Fraction(ratio) * Fraction(ratio)) <= 1.0
    ensures price * (ratio * Q64) >= U256_LIMIT ==> Squared(price) * (Fraction(ratio) * Fraction(ratio)) >= 1.0
  {
    var p, r := price as real / 18446744073709551616.0, Fraction(ratio);
    Regroup(p, p, r, r);
    assert p * r == (price * (ratio * Q64)) as real / U256_LIMIT as real;
    NotNegative(p, r);
    if p * r <= 1.0 {
      Monotone(p * r, 1.0, p * r, 1.0);
    } else {
      assert (p * r) * (p * r) >= 1.0;
    }
  }

  /** x is at most y, or exceeds it by at most one part in 2^71. */
  ghost predicate NearlyAtMost(x: real, y: real) {
    x * 2361183241434822606848.0 <= y * 2361183241434822606849.0
  }

  lemma BetweenPowers(square: real, low: real, high: real, power: real)
    requires 0.0 <= low <= square <= high && power >= 0.0
    requires power <= low * (1.0 + PRECISION) && high * (1.0 - PRECISION) <= power
    ensures NearlyAtMost(square, power) && NearlyAtMost(power, square)
  {
    assert low * (1.0 + PRECISION) == low + low * (1.0 / 4722366482869645213696.0);
    assert high * (1.0 - PRECISION) == high - high * (1.0 / 4722366482869645213696.0);
  }

  /** The square of a tick's ratio is its power. */
  lemma RatioIsPower(m: nat)
    requires m <= 443_636
    ensures NearlyAtMost(SquaredRatio(m), Power(SHRINK, m)) && NearlyAtMost(Power(SHRINK, m), SquaredRatio(m))
  {
    TickRatioIsRoot(m);
    LowStaysNear(m);
    HighStaysNear(m);
    Constants();
    PowerIsPositive(LOW, m);
    PowerIsPositive(SHRINK, m);
    BetweenPowers(SquaredRatio(m), Power(LOW, m), Power(HIGH, m), Power(SHRINK, m));
  }

  lemma InverseAtMost(square: real, power: real, inverse: real, below: real)
    requires NearlyAtMost(power, square) && power > 0.0 && inverse * power == 1.0
    requires below >= 0.0 && below * square <= 1.0
    ensures NearlyAtMost(below, inverse)
  {
    NotNegative(below, square * 2361183241434822606849.0 - power * 2361183241434822606848.0);
    assert below * power * 2361183241434822606848.0 <= below * square * 2361183241434822606849.0;
    Cancel(below * 2361183241434822606848.0, inverse * 2361183241434822606849.0, power);
  }

  lemma InverseAtLeast(square: real, power: real, inverse: real, above: real)
    requires NearlyAtMost(square, power) && power > 0.0 && inverse * power == 1.0
    requires above >= 0.0 && above * square >= 1.0
    ensures NearlyAtMost(inverse, above)
  {
    NotNegative(above, power * 2361183241434822606849.0 - square * 2361183241434822606848.0);
    assert above * square * 2361183241434822606848.0 <= above * power * 2361183241434822606849.0;
    Cancel(inverse * 2361183241434822606848.0, above * 2361183241434822606849.0, power);
  }

  lemma InverseIsNear(square: real, power: real, inverse: real, below: real, above: real)
    requires NearlyAtMost(square, power) && NearlyAtMost(power, square)
    requires power > 0.0 && inverse * power == 1.0 && below >= 0.0 && above >= 0.0
    requires below * square <= 1.0 <= above * square
    ensures NearlyAtMost(below, inverse) && NearlyAtMost(inverse, above)
  {
    InverseAtMost(square, power, inverse, below);
    InverseAtLeast(square, power, inverse, above);
  }

  lemma SquaresAreNotNegative(price: nat)
    ensures Squared(price) >= 0.0
  {
  }

  /** The square of a ratio is near a number that has the power of as many ticks up for its inverse. */
  lemma RatioHasInverse(m: nat) returns (power: real)
    requires m <= 443_636
    ensures power > 0.0 && Power(GROW, m) * power == 1.0
    ensures NearlyAtMost(SquaredRatio(m), power) && NearlyAtMost(power, SquaredRatio(m))
  {
    power := Power(SHRINK, m);
    RatioIsPower(m);
    PowersInvert(GROW, SHRINK, m);
    PowerIsPositive(SHRINK, m);
  }

  lemma StaysNear(below: real, square: real, above: real, power: real)
    requires below <= square <= above && NearlyAtMost(square, power) && NearlyAtMost(power, square)
    ensures NearlyAtMost(below, power) && NearlyAtMost(power, above)
  {
  }

  lemma RatioHasPower(m: nat, power: real) returns (square: real)
    requires m <= 443_636 && power == Power(SHRINK, m)
    ensures square == SquaredRatio(m) && NearlyAtMost(square, power) && NearlyAtMost(power, square)
  {
    square := SquaredRatio(m);
    RatioIsPower(m);
  }

  lemma LowPriceIsPower(m: nat, below: real, above: real, power: real)
    requires m <= 443_636 && below <= SquaredRatio(m) <= above && power == Power(SHRINK, m)
    ensures NearlyAtMost(below, power) && NearlyAtMost(power, above)
  {
    var square := RatioHasPower(m, power);
    StaysNear(below, square, above, power);
  }

  lemma PriceTimesRatio(m: nat, price: nat)
    requires price * (TickRatio(m) * Q64) <= U256_LIMIT
    ensures Squared(price) * SquaredRatio(m) <= 1.0
  {
    ProductOfFractions(price, TickRatio(m));
  }

  lemma NextPriceTimesRatio(m: nat, price: nat)
    requires price * (TickRatio(m) * Q64) >= U256_LIMIT
    ensures Squared(price) * SquaredRatio(m) >= 1.0
  {
    ProductOfFractions(price, TickRatio(m));
  }

  lemma InverseOfRatio(m: nat, below: real, above: real) returns (inverse: real)
    requires m <= 443_636 && below >= 0.0 && above >= 0.0
    requires below * SquaredRatio(m) <= 1.0 <= above * SquaredRatio(m)
    ensures inverse == Power(GROW, m) && NearlyAtMost(below, inverse) && NearlyAtMost(inverse, above)
  {
    inverse := Power(GROW, m);
    var power := RatioHasInverse(m);
    InverseIsNear(SquaredRatio(m), power, inverse, below, above);
  }

  lemma HighPriceIsPower(m: nat, price: nat)
    requires m <= 443_636 && TickRatio(m) > 0 && price == (U256_LIMIT - 1) / TickRatio(m) / Q64
    ensures NearlyAtMost(Squared(price), Power(GROW, m)) && NearlyAtMost(Power(GROW, m), Squared(price + 1))
  {
    InverseRounded(TickRatio(m));
    PriceTimesRatio(m, price);
    NextPriceTimesRatio(m, price + 1);
    SquaresAreNotNegative(price);
    SquaresAreNotNegative(price + 1);
    var inverse := InverseOfRatio(m, Squared(price), Squared(price + 1));
  }

  /**
   * The price of every tick of the grid is 2^64 times the square root of 1.0001 to that tick, rounded
   * down, to within one part in 2^71 of its square: factor table, truncations and inversion included.
   */
  lemma PriceIsPower(tick: int)
    requires IsTick(tick)
    ensures NearlyAtMost(Squared(Price(tick)), TickPower(tick))
    ensures NearlyAtMost(TickPower(tick), Squared(Price(tick) + 1))
  {
    var m := Magnitude(tick);
    RatioBounds(m);
    PriceFromRatio(tick, TickRatio(m));
    if tick <= 0 {
      RatioToPrice(TickRatio(m));
      LowPriceIsPower(m, Squared(Price(tick)), Squared(Price(tick) + 1), TickPower(tick));
    } else {
      HighPriceIsPower(m, Price(tick));
    }
  }

  lemma SquaresMonotone(p: nat, q: nat)
    requires p <= q
    ensures Squared(p) <= Squared(q)
  {
    var x, y := p as real / 18446744073709551616.0, q as real / 18446744073709551616.0;
    Monotone(x, y, x, y);
  }

  lemma PowerBelowPrice(tick: int, sqrtPrice: nat)
    requires IsTick(tick) && Price(tick) <= sqrtPrice
    ensures NearlyAtMost(TickPower(tick), Squared(sqrtPrice + 1))
  {
    PriceIsPower(tick);
    SquaresMonotone(Price(tick) + 1, sqrtPrice + 1);
  }

  lemma PowerAbovePrice(tick: int, sqrtPrice: nat)
    requires IsTick(tick) && sqrtPrice <= Price(tick)
    ensures NearlyAtMost(Squared(sqrtPrice), TickPower(tick))
  {
    PriceIsPower(tick);
    SquaresMonotone(sqrtPrice, Price(tick));
  }

  /**
   * Inside the grid the floor tick of a price is the logarithm of its square to the base 1.0001, rounded
   * down, as precisely.
   */
  lemma FloorTickIsLogarithm(sqrtPrice: nat)
    requires MIN_SQRT_PRICE <= sqrtPrice < MAX_SQRT_PRICE
    ensures IsTick(FloorTick(sqrtPrice)) && FloorTick(sqrtPrice) < MAX_TICK
    ensures NearlyAtMost(TickPower(FloorTick(sqrtPrice)), Squared(sqrtPrice + 1))
    ensures NearlyAtMost(Squared(sqrtPrice), TickPower(FloorTick(sqrtPrice) + 1))
  {
    var t := FloorTick(sqrtPrice);
    GridEnds();
    PriceMonotone(MIN_TICK, t);
    PowerBelowPrice(t, sqrtPrice);
    PowerAbovePrice(t + 1, sqrtPrice);
  }
}
