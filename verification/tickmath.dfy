/** Tick index to square-root price and back. */
module TickMath {
  import opened Wrappers
  import opened Arith
  import opened Checked

  const MIN_TICK: I32 := -443_636
  const MAX_TICK: I32 := 443_636
  const MIN_SQRT_PRICE: U128 := 4295048016
  const MAX_SQRT_PRICE: U128 := 79226673515401279992447579061
  /** A stored price may deviate from the computed one by one part in 2^48. */
  const TOLERANCE_SCALE: nat := 0x1_0000_0000_0000

  /** floor(1.0001^(-2^(k-1)) * 2^128), the factor of bit k. */
  const TICK_FACTORS: seq<U128> := [
    0xfffc_b933_bd6f_ad37_aa2d_162d_1a59_4001,
    0xfff9_7272_373d_4132_59a4_6990_580e_2139,
    0xfff2_e50f_5f65_6932_ef12_357c_f3c7_fdcb,
    0xffe5_caca_7e10_e4e6_1c36_24ea_a094_1ccf,
    0xffcb_9843_d60f_6159_c9db_5883_5c92_6643,
    0xff97_3b41_fa98_c081_472e_6896_dfb2_54bf,
    0xff2e_a164_66c9_6a38_43ec_78b3_26b5_2860,
    0xfe5d_ee04_6a99_a2a8_11c4_61f1_969c_3052,
    0xfcbe_86c7_900a_88ae_dcff_c83b_479a_a3a3,
    0xf987_a725_3ac4_1317_6f2b_074c_f781_5e53,
    0xf339_2b08_22b7_0005_940c_7a39_8e4b_70f2,
    0xe715_9475_a2c2_9b74_43b2_9c7f_a6e8_89d8,
    0xd097_f3bd_fd20_22b8_845a_d8f7_92aa_5825,
    0xa9f7_4646_2d87_0fdf_8a65_dc1f_90e0_61e4,
    0x70d8_69a1_56d2_a1b8_90bb_3df6_2baf_32f6,
    0x31be_135f_97d0_8fd9_8123_1505_542f_cfa5,
    0x09aa_508b_5b7a_84e1_c677_de54_f3e9_9bc8,
    0x005d_6af8_dedb_8119_6699_c329_225e_e604,
    0x0000_2216_e584_f5fa_1ea9_2604_1bed_fe97,
    0x0000_0000_048a_1703_91f7_dc42_444e_8fa2
  ]

  /** The largest distance allowed between a stored tick price and the computed one. */
  function Tolerance(computed: nat): nat {
    var scaled := computed / TOLERANCE_SCALE;
    if scaled == 0 then 1 else scaled
  }

  predicate IsTick(tick: int) {
    MIN_TICK <= tick <= MAX_TICK
  }

  function Magnitude(tick: int): nat {
    if tick < 0 then -tick else tick
  }

  /** One factor applied: a 256-bit product, truncated back to 128 fractional bits. */
  function ApplyFactor(ratio: U256, factor: U128): Amm<U256> {
    var product :- CheckedMul(ratio, factor);
    Ok(Shr128(product))
  }

  /** The factors of the bits of `bits`, bit 0 standing for the factor at `index`, until no bit is left. */
  function ApplyFactors(factors: seq<U128>, ratio: U256, bits: nat, index: nat): Amm<U256>
    decreases bits, ratio
  {
    if bits == 0 || index >= |factors| then
      Ok(ratio)
    else if bits % 2 == 1 then
      var next :- ApplyFactor(ratio, factors[index]);
      ApplyFactors(factors, next, bits / 2, index + 1)
    else
      ApplyFactors(factors, ratio, bits / 2, index + 1)
  }

  /** The table holds negative powers, so positive ticks are inverted; then 64 fractional bits are dropped. */
  function FromRatio(tick: int, ratio: U256): Amm<U128> {
    if tick > 0 then
      var inverted :- CheckedDiv(U256_LIMIT - 1, ratio);
      ToU128(Shr64(inverted))
    else
      ToU128(Shr64(ratio))
  }

  /** What `SqrtPriceAtTick` returns. */
  function SqrtPrice(tick: I32): Amm<U128> {
    if !IsTick(tick) then
      Err(InvalidTick(tick))
    else
      var ratio :- ApplyFactors(TICK_FACTORS, U128_LIMIT, Magnitude(tick), 0);
      FromRatio(tick, ratio)
  }

  function Pow2(k: nat): (p: nat)
    ensures p > 0
  {
    if k == 0 then 1 else 2 * Pow2(k - 1)
  }

  function ShiftRight(n: nat, k: nat): nat {
    if k == 0 then n else ShiftRight(n, k - 1) / 2
  }

  /** Whether bit k of n is set. */
  predicate Bit(n: nat, k: nat) {
    ShiftRight(n, k) % 2 == 1
  }

  /** Applies the factor of every set bit, lowest first. */
  method MultiplyFactors(factors: seq<U128>, magnitude: nat) returns (r: Amm<U256>)
    ensures r == ApplyFactors(factors, U128_LIMIT, magnitude, 0)
  {
    var ratio: U256 := U128_LIMIT;
    for index := 0 to |factors|
      invariant ApplyFactors(factors, U128_LIMIT, magnitude, 0)
             == ApplyFactors(factors, ratio, ShiftRight(magnitude, index), index)
    {
      if Bit(magnitude, index) {
        var next := ApplyFactor(ratio, factors[index]);
        if next.Err? {
          return Err(next.error);
        }
        ratio := next.value;
      }
    }
    return Ok(ratio);
  }

  /** The square-root price of a tick, by binary decomposition of its magnitude. */
  method SqrtPriceAtTick(tick: I32) returns (r: Amm<U128>)
    ensures r == SqrtPrice(tick)
  {
    if !IsTick(tick) {
      return Err(InvalidTick(tick));
    }
    var ratio := MultiplyFactors(TICK_FACTORS, Magnitude(tick));
    if ratio.Err? {
      return Err(ratio.error);
    }
    return FromRatio(tick, ratio.value);
  }

  // ---------- the decomposition, without machine integers ----------

  function Scaled(ratio: nat, factor: nat): nat {
    ratio * factor / U128_LIMIT
  }

  function Ratio(factors: seq<U128>, ratio: nat, bits: nat, index: nat): nat
    decreases bits, ratio
  {
    if bits == 0 || index >= |factors| then ratio
    else Ratio(factors, if bits % 2 == 1 then Scaled(ratio, factors[index]) else ratio, bits / 2, index + 1)
  }

  lemma RatioStep(factors: seq<U128>, ratio: nat, bits: nat, index: nat, next: nat)
    requires index < |factors|
    requires next == if bits % 2 == 1 then Scaled(ratio, factors[index]) else ratio
    ensures Ratio(factors, ratio, bits, index) == Ratio(factors, next, bits / 2, index + 1)
  {
  }

  lemma ScaledShrinks(ratio: nat, factor: U128)
    ensures Scaled(ratio, factor) <= ratio
  {
    MulLe(factor, U128_LIMIT, ratio);
    FloorAdjoint(ratio * factor, U128_LIMIT, Scaled(ratio, factor));
    assert ratio * factor <= ratio * U128_LIMIT;
  }

  /** No product of the decomposition overflows. */
  lemma {:induction false} RatioIsExact(factors: seq<U128>, ratio: U256, bits: nat, index: nat)
    requires ratio <= U128_LIMIT
    ensures ApplyFactors(factors, ratio, bits, index) == Ok(Ratio(factors, ratio, bits, index))
    ensures Ratio(factors, ratio, bits, index) <= ratio
    decreases bits
  {
    if bits > 0 && index < |factors| {
      var factor := factors[index];
      if bits % 2 == 1 {
        MulLe(ratio, U128_LIMIT, factor);
        MulLe(0, ratio, factor);
        ScaledShrinks(ratio, factor);
        assert ApplyFactor(ratio, factor) == Ok(Scaled(ratio, factor));
        RatioIsExact(factors, Scaled(ratio, factor), bits / 2, index + 1);
      } else {
        RatioIsExact(factors, ratio, bits / 2, index + 1);
      }
    }
  }

  // ---------- truncation cannot close the gap between neighbours ----------

  /** a exceeds b by one part in 20001, up to an error of e units. */
  predicate Apart(a: nat, b: nat, e: nat) {
    20002 * b <= 20001 * (a + e)
  }

  /** Applying one factor to both keeps them apart, for one more unit of error. */
  lemma ScalingKeepsApart(a: nat, b: nat, e: nat, factor: U128)
    requires Apart(a, b, e)
    ensures Apart(Scaled(a, factor), Scaled(b, factor), e + 1)
  {
    var x, y := Scaled(a, factor), Scaled(b, factor);
    MulLe(20002 * b, 20001 * (a + e), factor);
    assert 20002 * (b * factor) <= 20001 * (a * factor) + 20001 * (e * factor);
    MulLe(factor, U128_LIMIT, e);
    assert e * factor <= e * U128_LIMIT;
    assert a * factor < (x + 1) * U128_LIMIT;
    assert y * U128_LIMIT <= b * factor;
  }

  /** Applying the same remaining factors to both costs at most one unit of error each. */
  lemma {:induction false} RatiosStayApart(factors: seq<U128>, a: nat, b: nat, e: nat, bits: nat, index: nat)
    requires Apart(a, b, e) && index <= |factors|
    ensures Apart(Ratio(factors, a, bits, index), Ratio(factors, b, bits, index), e + |factors| - index)
    decreases bits
  {
    if bits > 0 && index < |factors| {
      var factor := factors[index];
      if bits % 2 == 1 {
        ScalingKeepsApart(a, b, e, factor);
        RatiosStayApart(factors, Scaled(a, factor), Scaled(b, factor), e + 1, bits / 2, index + 1);
      } else {
        RatiosStayApart(factors, a, b, e + 1, bits / 2, index + 1);
      }
    }
  }

  /** The ratio after the factors of the lowest k bits, all set. */
  function LowOnes(factors: seq<U128>, k: nat): nat
    requires k <= |factors|
  {
    if k == 0 then U128_LIMIT else Scaled(LowOnes(factors, k - 1), factors[k - 1])
  }

  /** Each factor is clearly below the product of all factors of lower bits: a carry lowers the ratio. */
  ghost predicate CarriesLower(factors: seq<U128>) {
    forall k | 0 <= k < |factors| :: Apart(LowOnes(factors, k), factors[k], 0)
  }

  /** The products of the lowest factors, each truncated as it is formed. */
  const LOW_PRODUCTS: seq<nat> := [
    340282366920938463463374607431768211456,
    340265354078544963557816517032075149313,
    340231330945450418515964920540021147197,
    340163294884840501567246455576441303171,
    340027263576413978334042125129128142260,
    339755364134575681238502878529008278322,
    339212217342146842559531600927033253842,
    338128527259088467778511436198880488158,
    335971522311117552149334092109581418667,
    331698704829854243503582989311158516578,
    323315401242583425022802937239550140909,
    307179074178916392659402722612948179602,
    277282266700509388632609933215391170096,
    225934749830749445986089663015556949335,
    150004713758184102711002566140788444790,
    66122407008436832627027740713496573145,
    12848018414553970828728179856918040432,
    485077512873820763967752669154895175,
    691450548841240133896843047535567,
    1404950724947776134837143967
  ]

  lemma ProductRows()
    ensures forall k | 0 <= k < 19 :: Scaled(LOW_PRODUCTS[k], TICK_FACTORS[k]) == LOW_PRODUCTS[k + 1]
  {
  }

  lemma ProductsExceedFactors()
    ensures forall k | 0 <= k < 20 :: Apart(LOW_PRODUCTS[k], TICK_FACTORS[k], 0)
  {
  }

  lemma {:induction false} LowOnesAreProducts(k: nat)
    requires k < 20
    ensures LowOnes(TICK_FACTORS, k) == LOW_PRODUCTS[k]
  {
    if k > 0 {
      LowOnesAreProducts(k - 1);
      ProductRows();
      assert Scaled(LOW_PRODUCTS[k - 1], TICK_FACTORS[k - 1]) == LOW_PRODUCTS[k - 1 + 1];
    }
  }

  lemma TableCarriesLower()
    ensures CarriesLower(TICK_FACTORS)
  {
    ProductsExceedFactors();
    forall k | 0 <= k < |TICK_FACTORS|
      ensures Apart(LowOnes(TICK_FACTORS, k), TICK_FACTORS[k], 0)
    {
      LowOnesAreProducts(k);
    }
  }

  /**
   * Consecutive magnitudes: the lower one has its trailing ones where the next one has a single carry
   * bit, and above the carry they share all bits.
   */
  lemma {:induction false} NeighboursApart(factors: seq<U128>, m: nat, index: nat)
    requires CarriesLower(factors)
    requires index < |factors| && m < Pow2(|factors| - 1 - index)
    ensures Apart(Ratio(factors, LowOnes(factors, index), m, index), Ratio(factors, U128_LIMIT, m + 1, index),
                  |factors|)
    decreases |factors| - index
  {
    var factor := factors[index];
    if m % 2 == 0 {
      assert (m + 1) / 2 == m / 2;
      assert Scaled(U128_LIMIT, factor) == factor;
      RatiosStayApart(factors, LowOnes(factors, index), factor, 0, m / 2, index + 1);
    } else {
      assert Pow2(|factors| - 1 - index) == 2 * Pow2(|factors| - 2 - index);
      assert (m + 1) / 2 == m / 2 + 1;
      NeighboursApart(factors, m / 2, index + 1);
    }
  }

  // ---------- anchors ----------

  const LOWEST_RATIO: nat := 79229651541111879659406241920

  lemma LowestRatioBits0()
    ensures Ratio(TICK_FACTORS, U128_LIMIT, 443636, 0) == LOWEST_RATIO
  {
    LowestRatioBits1();
    RatioStep(TICK_FACTORS, U128_LIMIT, 443636, 0, U128_LIMIT);
    RatioStep(TICK_FACTORS, U128_LIMIT, 221818, 1, U128_LIMIT);
    RatioStep(TICK_FACTORS, U128_LIMIT, 110909, 2, 340214320654664324051920982716015181259);
  }

  lemma LowestRatioBits1()
    ensures Ratio(TICK_FACTORS, 340214320654664324051920982716015181259, 55454, 3) == LOWEST_RATIO
  {
    LowestRatioBits2();
    RatioStep(TICK_FACTORS, 340214320654664324051920982716015181259, 55454, 3, 340214320654664324051920982716015181259);
    RatioStep(TICK_FACTORS, 340214320654664324051920982716015181259, 27727, 4, 339942271634481534171944261107495351297);
    RatioStep(TICK_FACTORS, 339942271634481534171944261107495351297, 13863, 5, 339398826044094601896695254665076263264);
  }

  lemma LowestRatioBits2()
    ensures Ratio(TICK_FACTORS, 339398826044094601896695254665076263264, 6931, 6) == LOWEST_RATIO
  {
    LowestRatioBits3();
    RatioStep(TICK_FACTORS, 339398826044094601896695254665076263264, 6931, 6, 338314539797368250477607184950806242650);
    RatioStep(TICK_FACTORS, 338314539797368250477607184950806242650, 3465, 7, 336156348229715444828078329311942453220);
    RatioStep(TICK_FACTORS, 336156348229715444828078329311942453220, 1732, 8, 336156348229715444828078329311942453220);
  }

  lemma LowestRatioBits3()
    ensures Ratio(TICK_FACTORS, 336156348229715444828078329311942453220, 866, 9) == LOWEST_RATIO
  {
    LowestRatioBits4();
    RatioStep(TICK_FACTORS, 336156348229715444828078329311942453220, 866, 9, 336156348229715444828078329311942453220);
    RatioStep(TICK_FACTORS, 336156348229715444828078329311942453220, 433, 10, 319379143188707315507809823581313190136);
    RatioStep(TICK_FACTORS, 319379143188707315507809823581313190136, 216, 11, 319379143188707315507809823581313190136);
  }

  lemma LowestRatioBits4()
    ensures Ratio(TICK_FACTORS, 319379143188707315507809823581313190136, 108, 12) == LOWEST_RATIO
  {
    LowestRatioBits5();
    RatioStep(TICK_FACTORS, 319379143188707315507809823581313190136, 108, 12, 319379143188707315507809823581313190136);
    RatioStep(TICK_FACTORS, 319379143188707315507809823581313190136, 54, 13, 319379143188707315507809823581313190136);
    RatioStep(TICK_FACTORS, 319379143188707315507809823581313190136, 27, 14, 140783027191886151917857313960555113303);
  }

  lemma LowestRatioBits5()
    ensures Ratio(TICK_FACTORS, 140783027191886151917857313960555113303, 13, 15) == LOWEST_RATIO
  {
    LowestRatioBits6();
    RatioStep(TICK_FACTORS, 140783027191886151917857313960555113303, 13, 15, 27355067784922220890630856424828281736);
    RatioStep(TICK_FACTORS, 27355067784922220890630856424828281736, 6, 16, 27355067784922220890630856424828281736);
    RatioStep(TICK_FACTORS, 27355067784922220890630856424828281736, 3, 17, 38993101373458052672459899826450090);
  }

  lemma LowestRatioBits6()
    ensures Ratio(TICK_FACTORS, 38993101373458052672459899826450090, 1, 18) == LOWEST_RATIO
  {
    RatioStep(TICK_FACTORS, 38993101373458052672459899826450090, 1, 18, 79229651541111879659406241920);
    RatioStep(TICK_FACTORS, 79229651541111879659406241920, 0, 19, 79229651541111879659406241920);
  }

  /** The decomposition of the largest magnitude, factor by factor. */
  lemma LowestRatio()
    ensures Ratio(TICK_FACTORS, U128_LIMIT, 443_636, 0) == LOWEST_RATIO
  {
    LowestRatioBits0();
  }

  // ---------- tick prices ----------

  function TickRatio(magnitude: nat): nat {
    Ratio(TICK_FACTORS, U128_LIMIT, magnitude, 0)
  }

  lemma NeighbourRatios(m: nat)
    requires m < 443_636
    ensures Apart(TickRatio(m), TickRatio(m + 1), 20)
  {
    TableCarriesLower();
    assert Pow2(19) == 524_288 by {
      assert Pow2(9) == 512;
      assert Pow2(14) == 32 * Pow2(9);
      assert Pow2(19) == 32 * Pow2(14);
    }
    NeighboursApart(TICK_FACTORS, m, 0);
  }

  /** Ratios only fall as the magnitude grows, down to the one of the largest magnitude. */
  lemma {:induction false} RatioBounds(m: nat)
    requires m <= 443_636
    ensures LOWEST_RATIO <= TickRatio(m) <= U128_LIMIT
    ensures ApplyFactors(TICK_FACTORS, U128_LIMIT, m, 0) == Ok(TickRatio(m))
    decreases 443_636 - m
  {
    RatioIsExact(TICK_FACTORS, U128_LIMIT, m, 0);
    if m == 443_636 {
      LowestRatio();
    } else {
      RatioBounds(m + 1);
      NeighbourRatios(m);
    }
  }

  /** The price of a tick of the grid, in closed form. */
  function Price(tick: int): nat
    requires IsTick(tick)
  {
    RatioBounds(Magnitude(tick));
    var ratio := TickRatio(Magnitude(tick));
    if tick > 0 then (U256_LIMIT - 1) / ratio / Q64 else ratio / Q64
  }

  lemma InverseBounds(ratio: nat)
    requires LOWEST_RATIO <= ratio <= U128_LIMIT
    ensures U128_LIMIT - 1 <= (U256_LIMIT - 1) / ratio < U128_LIMIT * Q64
  {
    FloorAdjoint(U256_LIMIT - 1, ratio, U128_LIMIT - 1);
    MulLe(ratio, U128_LIMIT, U128_LIMIT - 1);
    FloorAdjoint(U256_LIMIT - 1, ratio, U128_LIMIT * Q64);
    MulLe(LOWEST_RATIO, ratio, U128_LIMIT * Q64);
  }

  /** On the whole grid no operation of the price computation fails; off it every tick is refused. */
  lemma SqrtPriceIsPrice(tick: I32)
    ensures IsTick(tick) ==> Price(tick) < U128_LIMIT && SqrtPrice(tick) == Ok(Price(tick))
    ensures !IsTick(tick) ==> SqrtPrice(tick) == Err(InvalidTick(tick))
  {
    if IsTick(tick) {
      RatioBounds(Magnitude(tick));
      InverseBounds(TickRatio(Magnitude(tick)));
      QuotientLe(U256_LIMIT - 1, TickRatio(Magnitude(tick)));
    }
  }

  /** high exceeds low by at least one part in 20010. */
  predicate Separated(low: nat, high: nat) {
    20_011 * low <= 20_010 * high
  }

  lemma SeparatedDown(a: nat, b: nat)
    requires Apart(a, b, 20) && LOWEST_RATIO <= b
    ensures Separated(b / Q64, a / Q64)
  {
  }

  /** Inverting turns the gap around: its truncations cannot close it either. */
  lemma SeparatedUp(a: nat, b: nat)
    requires Apart(a, b, 20) && LOWEST_RATIO <= b <= U128_LIMIT && LOWEST_RATIO <= a <= U128_LIMIT
    ensures Separated((U256_LIMIT - 1) / a / Q64, (U256_LIMIT - 1) / b / Q64)
  {
    var p := (U256_LIMIT - 1) / a / Q64;
    InverseBounds(a);
    NestedFloor(U256_LIMIT - 1, a, Q64);
    NestedFloor(U256_LIMIT - 1, b, Q64);
    FloorAdjoint(U256_LIMIT - 1, a * Q64, p);
    // The least price that is separated from p is still paid for by b.
    var x := p + p / 20_010 + 1;
    assert 20_010 * x <= 20_011 * p + 20_010;
    InversionMargin(p, x, a, b);
    TimesQ64(x, b, p, a);
    FloorAdjoint(U256_LIMIT - 1, b * Q64, x);
  }

  lemma TimesQ64(x: nat, b: nat, p: nat, a: nat)
    requires x * b <= p * a
    ensures x * (b * Q64) <= p * (a * Q64)
  {
    assert x * (b * Q64) == (x * b) * Q64;
    assert p * (a * Q64) == (p * a) * Q64;
  }

  lemma InversionMargin(p: nat, x: nat, a: nat, b: nat)
    requires 20_010 * x <= 20_011 * p + 20_010
    requires Apart(a, b, 20) && 0x100_0000_0000 <= p && 0x100_0000_0000 <= b
    ensures x * b <= p * a
  {
    MulLe(20_010 * x, 20_011 * p + 20_010, b);
    MulLe(20_002 * b, 20_001 * (a + 20), p);
    assert 20_010 * (x * b) <= 20_011 * (p * b) + 20_010 * b;
    assert 20_002 * (b * p) <= 20_001 * (a * p) + 400_020 * p;
    MulLe(0x100_0000_0000, p, b);
    MulLe(0x100_0000_0000, b, p);
    assert p * b == b * p && p * a == a * p;
  }

  /** Prices of adjacent ticks differ by at least one part in 20010, truncation and all. */
  lemma NeighbourPrices(tick: int)
    requires MIN_TICK <= tick < MAX_TICK
    ensures Separated(Price(tick), Price(tick + 1))
  {
    var m, n := Magnitude(tick), Magnitude(tick + 1);
    RatioBounds(m);
    RatioBounds(n);
    if tick < 0 {
      NeighbourRatios(n);
      SeparatedDown(TickRatio(n), TickRatio(m));
    } else if tick == 0 {
      PricesAroundOne();
    } else {
      NeighbourRatios(m);
      SeparatedUp(TickRatio(m), TickRatio(n));
    }
  }

  lemma PricesAroundOne()
    ensures Price(0) == Q64
    ensures Price(1) == 18447666387855959850
  {
  }

  /** The published ends of the grid are the computed ones. */
  lemma GridEnds()
    ensures Price(MIN_TICK) == MIN_SQRT_PRICE
    ensures Price(MAX_TICK) == MAX_SQRT_PRICE
  {
    LowEnd();
    HighEnd();
  }

  lemma PriceFromRatio(tick: int, ratio: nat)
    requires IsTick(tick) && TickRatio(Magnitude(tick)) == ratio && ratio > 0
    ensures Price(tick) == if tick > 0 then (U256_LIMIT - 1) / ratio / Q64 else ratio / Q64
  {
  }

  lemma LowEnd()
    ensures Price(MIN_TICK) == MIN_SQRT_PRICE
  {
    LowestRatio();
    PriceFromRatio(MIN_TICK, LOWEST_RATIO);
  }

  lemma HighEnd()
    ensures Price(MAX_TICK) == MAX_SQRT_PRICE
  {
    LowestRatio();
    PriceFromRatio(MAX_TICK, LOWEST_RATIO);
    assert (U256_LIMIT - 1) / LOWEST_RATIO / Q64 == MAX_SQRT_PRICE;
  }

  lemma {:induction false} PriceAtLeastMin(tick: int)
    requires IsTick(tick)
    ensures MIN_SQRT_PRICE <= Price(tick)
    decreases tick - MIN_TICK
  {
    if tick == MIN_TICK {
      GridEnds();
    } else {
      PriceAtLeastMin(tick - 1);
      NeighbourPrices(tick - 1);
    }
  }

  /** A distance is tolerated up to one unit, or one part in 2^48 of the computed price. */
  lemma ToleranceExact(distance: nat, computed: nat)
    ensures distance <= Tolerance(computed) <==> distance <= 1 || distance * 0x1_0000_0000_0000 <= computed
  {
  }

  /** A stored price a validated index accepts for a tick. */
  predicate WithinTolerance(stored: nat, tick: int)
    requires IsTick(tick)
  {
    Price(tick) - Tolerance(Price(tick)) <= stored <= Price(tick) + Tolerance(Price(tick))
  }

  /**
   * The price function is strictly increasing over the whole grid, and any two ticks are further apart
   * than their two tolerances combined.
   */
  lemma {:induction false} PricesIncrease(low: int, high: int)
    requires MIN_TICK <= low < high <= MAX_TICK
    ensures Price(low) + Tolerance(Price(low)) < Price(high) - Tolerance(Price(high))
    decreases high - low
  {
    NeighbourPrices(high - 1);
    PriceAtLeastMin(high - 1);
    if low < high - 1 {
      PricesIncrease(low, high - 1);
    }
  }

  /** So prices stored within tolerance are ordered as their ticks are. */
  lemma StoredPricesIncrease(low: int, high: int, storedLow: nat, storedHigh: nat)
    requires IsTick(low) && IsTick(high) && low < high
    requires WithinTolerance(storedLow, low) && WithinTolerance(storedHigh, high)
    ensures 0 < storedLow < storedHigh
  {
    PricesIncrease(low, high);
    PriceAtLeastMin(low);
  }

  // ---------- price to tick ----------

  lemma PriceMonotone(low: int, high: int)
    requires IsTick(low) && IsTick(high) && low <= high
    ensures Price(low) <= Price(high)
  {
    if low < high {
      PricesIncrease(low, high);
    }
  }

  /** tick is the largest tick of the grid whose price is at or below a price; the lowest if there is none. */
  ghost predicate IsFloorTick(sqrtPrice: nat, tick: int) {
    && IsTick(tick)
    && (tick > MIN_TICK ==> Price(tick) <= sqrtPrice)
    && (tick < MAX_TICK ==> sqrtPrice < Price(tick + 1))
  }

  lemma {:induction false} FloorTickExists(sqrtPrice: nat, top: int)
    requires IsTick(top) && (top < MAX_TICK ==> sqrtPrice < Price(top + 1))
    ensures exists t :: IsFloorTick(sqrtPrice, t)
    decreases top - MIN_TICK
  {
    if top != MIN_TICK && sqrtPrice < Price(top) {
      FloorTickExists(sqrtPrice, top - 1);
    } else {
      assert IsFloorTick(sqrtPrice, top);
    }
  }

  /** A price has one floor tick, and a higher price no lower a floor tick. */
  lemma FloorTicksOrdered(p: nat, q: nat, s: int, t: int)
    requires p <= q && IsFloorTick(p, s) && IsFloorTick(q, t)
    ensures s <= t
    ensures p == q ==> s == t
  {
    if t < s {
      PriceMonotone(t + 1, s);
    } else if s < t && p == q {
      PriceMonotone(s + 1, t);
    }
  }

  ghost function FloorTick(sqrtPrice: nat): (t: int)
    ensures IsFloorTick(sqrtPrice, t)
  {
    FloorTickExists(sqrtPrice, MAX_TICK);
    var t :| IsFloorTick(sqrtPrice, t);
    t
  }

  /** What `TickAtSqrtPrice` returns. */
  ghost function TickAt(sqrtPrice: U128): Amm<int> {
    if sqrtPrice == 0 then Err(InvalidSqrtPrice(0)) else Ok(FloorTick(sqrtPrice))
  }

  /** Being between a tick's price and its neighbour's pins the floor tick down. */
  lemma FloorTickIs(sqrtPrice: nat, tick: int)
    requires IsFloorTick(sqrtPrice, tick)
    ensures FloorTick(sqrtPrice) == tick
  {
    FloorTicksOrdered(sqrtPrice, sqrtPrice, FloorTick(sqrtPrice), tick);
  }

  /** Price to tick inverts tick to price on the whole grid, and orders prices as their floor ticks. */
  lemma FloorTickInverts(tick: int)
    requires IsTick(tick)
    ensures FloorTick(Price(tick)) == tick
  {
    if tick < MAX_TICK {
      PricesIncrease(tick, tick + 1);
    }
    FloorTickIs(Price(tick), tick);
  }

  lemma FloorTickMonotone(p: nat, q: nat)
    requires p <= q
    ensures FloorTick(p) <= FloorTick(q)
  {
    FloorTicksOrdered(p, q, FloorTick(p), FloorTick(q));
  }

  /** Outside the grid the floor tick clamps to its ends. */
  lemma FloorTickClamps(sqrtPrice: nat)
    ensures sqrtPrice < MIN_SQRT_PRICE ==> FloorTick(sqrtPrice) == MIN_TICK
    ensures sqrtPrice >= MAX_SQRT_PRICE ==> FloorTick(sqrtPrice) == MAX_TICK
  {
    GridEnds();
    if sqrtPrice < MIN_SQRT_PRICE {
      PriceMonotone(MIN_TICK, MIN_TICK + 1);
      FloorTickIs(sqrtPrice, MIN_TICK);
    } else if sqrtPrice >= MAX_SQRT_PRICE {
      FloorTickIs(sqrtPrice, MAX_TICK);
    }
  }

  const MAX_SEARCH_STEPS: nat := 24

  /** How wide the interval can still be after some halvings of one narrower than 2^20. */
  function Width(step: nat): nat {
    if step >= 20 then 1 else Pow2(20 - step)
  }

  lemma WidthHalves(step: nat, width: int)
    requires 1 < width <= Width(step)
    ensures step < 20 && 0 < width / 2 <= width - width / 2 <= Width(step + 1)
  {
    if step < 20 {
      assert Pow2(20 - step) == 2 * Pow2(19 - step);
    }
  }

  lemma WidthStart()
    ensures Width(0) == 0x10_0000
  {
    assert Pow2(10) == 1024;
    assert Pow2(15) == 32 * Pow2(10);
    assert Pow2(20) == 32 * Pow2(15);
  }

  /**
   * Bounded bisection of the grid. The bound never ends the search early: the interval halves from
   * less than 2^20 to one tick within 20 of the 24 steps.
   */
  method Bisect(sqrtPrice: U128) returns (r: Amm<int>)
    requires MIN_SQRT_PRICE <= sqrtPrice < MAX_SQRT_PRICE
    ensures r == Ok(FloorTick(sqrtPrice))
  {
    GridEnds();
    WidthStart();
    var low: int, high: int := MIN_TICK, MAX_TICK;
    for step := 0 to MAX_SEARCH_STEPS
      invariant MIN_TICK <= low < high <= MAX_TICK
      invariant Price(low) <= sqrtPrice < Price(high)
      invariant high - low <= Width(step)
    {
      if high - low <= 1 {
        break;
      }
      WidthHalves(step, high - low);
      var middle := low + (high - low) / 2;
      SqrtPriceIsPrice(middle);
      var price := SqrtPriceAtTick(middle);
      if price.value <= sqrtPrice {
        low := middle;
      } else {
        high := middle;
      }
    }
    FloorTickIs(sqrtPrice, low);
    return Ok(low);
  }

  /** The largest tick whose price is at or below a price. */
  method TickAtSqrtPrice(sqrtPrice: U128) returns (r: Amm<int>)
    ensures r == TickAt(sqrtPrice)
    ensures sqrtPrice == 0 ==> r == Err(InvalidSqrtPrice(0))
    ensures sqrtPrice > 0 ==> r.Ok? && IsFloorTick(sqrtPrice, r.value)
  {
    if sqrtPrice == 0 {
      return Err(InvalidSqrtPrice(0));
    }
    FloorTickClamps(sqrtPrice);
    if sqrtPrice < MIN_SQRT_PRICE {
      return Ok(MIN_TICK);
    }
    if sqrtPrice >= MAX_SQRT_PRICE {
      return Ok(MAX_TICK);
    }
    r := Bisect(sqrtPrice);
  }
}
