/**
 * The arithmetic of one swap step inside one liquidity range.
 *
 * The first half is the pool's own checked, twice-rounded arithmetic. The second half restates it as
 * single roundings of exact fractions (`Owed`, `Paid`, `Reach`) that do not know about machine
 * integers, connects the two, and proves the laws the swap loop rests on.
 */
module SwapMath {
  import opened Wrappers
  import opened Arith
  import opened Checked

  const FEE_DENOMINATOR: U64 := 1_000_000

  /** AtoB: token A in, the price moves down. BtoA: token B in, the price moves up. */
  datatype Direction = AtoB | BtoA

  // ---------- the pool's arithmetic ----------

  /** Net input and fee. */
  function TakeFee(amountIn: U128, feeRate: U64): Amm<(U128, U128)> {
    if feeRate >= FEE_DENOMINATOR then
      Err(InvalidFeeRate(feeRate))
    else
      var fee :- MulDiv(amountIn, feeRate, FEE_DENOMINATOR, false);
      if fee <= amountIn then Ok((amountIn - fee, fee)) else Err(Overflow(FeeExceedsInput))
  }

  function Min(a: U128, b: U128): U128 {
    if a <= b then a else b
  }

  function Max(a: U128, b: U128): U128 {
    if a <= b then b else a
  }

  function DeltaA(sqrtA: U128, sqrtB: U128, liquidity: U128, roundUp: bool): Amm<U128> {
    var low, high := Min(sqrtA, sqrtB), Max(sqrtA, sqrtB);
    if low == 0 then
      Err(InvalidSqrtPrice(0))
    else if liquidity == 0 || low == high then
      Ok(0)
    else
      MulDivideTwice(Shl64(liquidity), high - low, high, low, roundUp)
  }

  function DeltaB(sqrtA: U128, sqrtB: U128, liquidity: U128, roundUp: bool): Amm<U128> {
    var low, high := Min(sqrtA, sqrtB), Max(sqrtA, sqrtB);
    if liquidity == 0 || low == high then
      Ok(0)
    else
      MulDiv(liquidity, high - low, Shl64(1), roundUp)
  }

  /** (a << 64) / b, narrowed. */
  function ShiftedQuotient(a: U256, b: U256): Amm<U128> {
    var quotient :- CheckedDiv(Shl64(a), b);
    ToU128(quotient)
  }

  function NextSqrtPriceUp(sqrtPrice: U128, liquidity: U128, amountB: U128): Amm<U128> {
    if liquidity == 0 then
      Err(ZeroLiquidity)
    else
      var increment :- ShiftedQuotient(amountB, liquidity);
      if sqrtPrice + increment < U128_LIMIT then
        Ok(sqrtPrice + increment)
      else
        Err(Overflow(Operation.NextSqrtPriceUp))
  }

  function NextSqrtPriceDown(sqrtPrice: U128, liquidity: U128, amountA: U128): Amm<U128> {
    if liquidity == 0 then
      Err(ZeroLiquidity)
    else
      DownQuotient(Shl64(liquidity), amountA, sqrtPrice)
  }

  /** numerator * price / (numerator + amount * price), rounded up and narrowed. */
  function DownQuotient(numerator: U256, amount: U256, price: U256): Amm<U128> {
    var product :- CheckedMul(amount, price);
    var denominator :- CheckedAdd(numerator, product);
    MulDiv(numerator, price, denominator, true)
  }

  // ---------- exact fractions, rounded once ----------

  /** p lies strictly ahead of q in the direction of travel. */
  predicate Beyond(direction: Direction, p: nat, q: nat) {
    match direction
    case BtoA => p > q
    case AtoB => p < q
  }

  /** p lies ahead of q or at it. */
  predicate Reached(direction: Direction, p: nat, q: nat) {
    p == q || Beyond(direction, p, q)
  }

  /** Distance travelled from one price to another one ahead of it. */
  function Gap(direction: Direction, from: nat, to: nat): nat
    requires Reached(direction, to, from)
  {
    match direction
    case BtoA => to - from
    case AtoB => from - to
  }

  /** What the trader owes for moving the price: the input token of the range, rounded up. */
  function Owed(direction: Direction, from: nat, to: nat, liquidity: nat): nat
    requires from > 0 && to > 0 && Reached(direction, to, from)
  {
    match direction
    case BtoA =>
      MulLe(0, liquidity, to - from);
      CeilDiv(liquidity * (to - from), Q64)
    case AtoB =>
      MulLt(0, to, from);
      MulLe(0, liquidity * Q64, from - to);
      CeilDiv(liquidity * Q64 * (from - to), to * from)
  }

  /** What the pool pays out for the same move: the output token of the range, rounded down. */
  function Paid(direction: Direction, from: nat, to: nat, liquidity: nat): nat
    requires from > 0 && to > 0 && Reached(direction, to, from)
  {
    match direction
    case BtoA =>
      MulLt(0, from, to);
      MulLe(0, liquidity * Q64, to - from);
      Rounded(liquidity * Q64 * (to - from), from * to, false)
    case AtoB =>
      MulLe(0, liquidity, from - to);
      Rounded(liquidity * (from - to), Q64, false)
  }

  /** The price an input can pay for, rounded towards the start: never behind it, and never zero. */
  function Reach(direction: Direction, from: nat, liquidity: nat, amount: nat): (p: nat)
    requires from > 0 && liquidity > 0
    ensures p > 0 && Reached(direction, p, from)
  {
    match direction
    case BtoA =>
      from + amount * Q64 / liquidity
    case AtoB =>
      var scaled := liquidity * Q64;
      MulLe(0, amount, from);
      MulLt(0, scaled, from);
      CeilAdjoint(scaled * from, scaled + amount * from, 0);
      MulLe(scaled, scaled + amount * from, from);
      CeilAdjoint(scaled * from, scaled + amount * from, from);
      CeilDiv(scaled * from, scaled + amount * from)
  }

  // ---------- the pool's arithmetic is the exact one, wherever it fits ----------

  /** Taking a fee never fails for a rate below the denominator, and the net amount is the input's share rounded up. */
  lemma TakeFeeExact(amountIn: U128, feeRate: U64)
    requires feeRate < FEE_DENOMINATOR
    ensures var fee := amountIn * feeRate / FEE_DENOMINATOR;
      0 <= fee <= amountIn && TakeFee(amountIn, feeRate) == Ok((amountIn - fee, fee))
      && amountIn - fee == CeilDiv(amountIn * (FEE_DENOMINATOR - feeRate), FEE_DENOMINATOR)
  {
    MulLe(0, amountIn, feeRate);
    MulLe(feeRate, FEE_DENOMINATOR, amountIn);
    assert amountIn * (FEE_DENOMINATOR - feeRate) == amountIn * FEE_DENOMINATOR - amountIn * feeRate;
  }

  lemma ShareMonotone(x: nat, y: nat, share: nat, whole: nat)
    requires x <= y && whole > 0
    ensures CeilDiv(x * share, whole) <= CeilDiv(y * share, whole)
  {
    MulLe(x, y, share);
    CeilAdjoint(y * share, whole, CeilDiv(y * share, whole));
    CeilAdjoint(x * share, whole, CeilDiv(y * share, whole));
  }

  lemma TakeFeeMonotone(x: U128, y: U128, feeRate: U64)
    requires x <= y && feeRate < FEE_DENOMINATOR
    ensures TakeFee(x, feeRate).Ok? && TakeFee(y, feeRate).Ok?
    ensures TakeFee(x, feeRate).value.0 <= TakeFee(y, feeRate).value.0
  {
    TakeFeeExact(x, feeRate);
    TakeFeeExact(y, feeRate);
    ShareMonotone(x, y, FEE_DENOMINATOR - feeRate, FEE_DENOMINATOR);
  }

  /** delta_a rounds the exact fraction once, although it divides twice; it fails only when a number does not fit. */
  lemma DeltaAExact(low: U128, high: U128, liquidity: U128, roundUp: bool)
    requires 0 < low <= high
    ensures low * high > 0
    ensures var n := liquidity * Q64 * (high - low); var v := Rounded(n, low * high, roundUp);
      && DeltaA(low, high, liquidity, roundUp) == DeltaA(high, low, liquidity, roundUp)
      && DeltaA(low, high, liquidity, roundUp) ==
           if n >= U256_LIMIT then Err(Overflow(Mul)) else if v >= U128_LIMIT then Err(Overflow(Narrow)) else Ok(v)
  {
    MulLt(0, low, high);
    assert low * high == high * low;
    var n := liquidity * Q64 * (high - low);
    if liquidity == 0 || low == high {
      assert n == 0;
    } else {
      MulDivideTwiceIsExact(liquidity * Q64, high - low, high, low, roundUp);
    }
  }

  lemma DeltaBExact(low: U128, high: U128, liquidity: U128, roundUp: bool)
    requires low <= high
    ensures liquidity * (high - low) >= 0
    ensures var v := Rounded(liquidity * (high - low), Q64, roundUp);
      && DeltaB(low, high, liquidity, roundUp) == DeltaB(high, low, liquidity, roundUp)
      && DeltaB(low, high, liquidity, roundUp) == if v >= U128_LIMIT then Err(Overflow(Narrow)) else Ok(v)
  {
    ProductFits(liquidity, high - low);
    MulDivIsExact(liquidity, high - low, Q64, roundUp);
  }

  lemma NextSqrtPriceUpExact(sqrtPrice: U128, liquidity: U128, amount: U128)
    requires liquidity > 0
    ensures var p := sqrtPrice + amount * Q64 / liquidity;
      && (sqrtPrice > 0 ==> p == Reach(BtoA, sqrtPrice, liquidity, amount))
      && NextSqrtPriceUp(sqrtPrice, liquidity, amount) ==
        if amount * Q64 / liquidity >= U128_LIMIT then Err(Overflow(Narrow))
        else if p >= U128_LIMIT then Err(Overflow(Operation.NextSqrtPriceUp))
        else Ok(p)
  {
  }

  lemma NextSqrtPriceDownExact(sqrtPrice: U128, liquidity: U128, amount: U128)
    requires liquidity > 0 && sqrtPrice > 0
    ensures 0 < Reach(AtoB, sqrtPrice, liquidity, amount) <= sqrtPrice
    ensures NextSqrtPriceDown(sqrtPrice, liquidity, amount) ==
        if liquidity * Q64 + amount * sqrtPrice >= U256_LIMIT then Err(Overflow(Add))
        else if liquidity * Q64 * sqrtPrice >= U256_LIMIT then Err(Overflow(Mul))
        else Ok(Reach(AtoB, sqrtPrice, liquidity, amount))
  {
    MulLe(0, amount, sqrtPrice);
    MulLe(amount, U128_LIMIT - 1, sqrtPrice);
    var n, d := liquidity * Q64, liquidity * Q64 + amount * sqrtPrice;
    MulLt(0, n, sqrtPrice);
    CeilAdjoint(n * sqrtPrice, d, 0);
    MulLe(n, d, sqrtPrice);
    assert d * sqrtPrice == sqrtPrice * d;
    CeilAdjoint(n * sqrtPrice, d, sqrtPrice);
    if d < U256_LIMIT && n * sqrtPrice < U256_LIMIT {
      MulDivIsExact(n, sqrtPrice, d, true);
    }
  }

  // ---------- laws of one range ----------

  lemma DownDistributes(from: nat, to: nat, scaled: nat, amount: nat)
    requires to <= from
    ensures scaled * (from - to) == scaled * from - scaled * to
    ensures to * (scaled + amount * from) == scaled * to + amount * (to * from)
  {
    assert to * (scaled + amount * from) == to * scaled + to * (amount * from);
    assert to * (amount * from) == amount * (to * from);
  }

  lemma AdjointDown(from: nat, to: nat, scaled: nat, amount: nat)
    requires 0 < to <= from && scaled > 0
    ensures to * from > 0 && amount * from >= 0
    ensures CeilDiv(scaled * (from - to), to * from) <= amount
      <==> CeilDiv(scaled * from, scaled + amount * from) <= to
  {
    MulLt(0, to, from);
    MulLe(0, amount, from);
    CeilAdjoint(scaled * (from - to), to * from, amount);
    CeilAdjoint(scaled * from, scaled + amount * from, to);
    DownDistributes(from, to, scaled, amount);
  }

  /**
   * Adjoint rounding: an input covers a move exactly when the move stops at or before the price that
   * input reaches. Hence `Reach` is the farthest price whose `Owed` is at most the input.
   */
  lemma Adjoint(direction: Direction, from: nat, to: nat, liquidity: nat, amount: nat)
    requires from > 0 && to > 0 && liquidity > 0 && Reached(direction, to, from)
    ensures Owed(direction, from, to, liquidity) <= amount
      <==> Reached(direction, Reach(direction, from, liquidity, amount), to)
  {
    match direction
    case BtoA =>
      CeilAdjoint(liquidity * (to - from), Q64, amount);
      FloorAdjoint(amount * Q64, liquidity, to - from);
      assert liquidity * (to - from) == (to - from) * liquidity;
    case AtoB =>
      AdjointDown(from, to, liquidity * Q64, amount);
  }

  lemma OwedNothing(direction: Direction, from: nat, liquidity: nat)
    requires from > 0
    ensures Owed(direction, from, from, liquidity) == 0 == Paid(direction, from, from, liquidity)
  {
    MulLt(0, from, from);
    MulLe(0, liquidity, 0);
    assert liquidity * Q64 * (from - from) == 0;
    FloorIsUnique(0, from * from, 0);
    CeilAdjoint(0, from * from, 0);
  }

  /** More input reaches at least as far. */
  lemma ReachMonotone(direction: Direction, from: nat, liquidity: nat, x: nat, y: nat)
    requires from > 0 && liquidity > 0 && x <= y
    ensures Reached(direction, Reach(direction, from, liquidity, y), Reach(direction, from, liquidity, x))
  {
    var p := Reach(direction, from, liquidity, x);
    Adjoint(direction, from, p, liquidity, x);
    Adjoint(direction, from, p, liquidity, y);
  }

  lemma MoveFractions(from: nat, mid: nat, to: nat, n: nat)
    requires 0 < from <= mid <= to
    ensures (n * (mid - from) * (mid * to) + n * (to - mid) * (from * mid)) * (from * to)
         == n * (to - from) * ((from * mid) * (mid * to))
  {
    var u, v, g := mid - from, to - mid, to - from;
    GapsCross(from, mid, to);
    CommonFactor(n, mid, u, to, v, from);
    Regrouped(n, mid, g, from, to);
  }

  lemma GapsCross(from: nat, mid: nat, to: nat)
    ensures (mid - from) * to + (to - mid) * from == mid * (to - from)
  {
  }

  lemma CommonFactor(n: nat, mid: nat, u: nat, to: nat, v: nat, from: nat)
    ensures n * u * (mid * to) + n * v * (from * mid) == n * mid * (u * to + v * from)
  {
    assert n * u * (mid * to) == n * mid * (u * to);
    assert n * v * (from * mid) == n * mid * (v * from);
  }

  lemma Regrouped(n: nat, mid: nat, g: nat, from: nat, to: nat)
    ensures n * mid * (mid * g) * (from * to) == n * g * ((from * mid) * (mid * to))
  {
    var ft := from * to;
    assert n * mid * (mid * g) == (n * g) * (mid * mid);
    assert (from * mid) * (mid * to) == (mid * mid) * ft;
  }

  /** The fractions n * (1/from - 1/mid) and n * (1/mid - 1/to) telescope. */
  lemma SplitReciprocal(from: nat, mid: nat, to: nat, n: nat)
    requires 0 < from <= mid <= to
    ensures from * mid > 0 && mid * to > 0 && from * to > 0
    ensures n * (mid - from) / (from * mid) + n * (to - mid) / (mid * to) <= n * (to - from) / (from * to)
    ensures CeilDiv(n * (to - from), from * to)
      <= CeilDiv(n * (mid - from), from * mid) + CeilDiv(n * (to - mid), mid * to)
  {
    MulLt(0, from, mid);
    MulLt(0, mid, to);
    MulLt(0, from, to);
    MoveFractions(from, mid, to, n);
    FloorOfSum(n * (mid - from), from * mid, n * (to - mid), mid * to, n * (to - from), from * to);
    CeilOfSum(n * (mid - from), from * mid, n * (to - mid), mid * to, n * (to - from), from * to);
  }

  lemma SplitLinear(n: nat, u: nat, v: nat)
    ensures n * u / Q64 + n * v / Q64 <= n * (u + v) / Q64
    ensures CeilDiv(n * (u + v), Q64) <= CeilDiv(n * u, Q64) + CeilDiv(n * v, Q64)
  {
    assert n * (u + v) == n * u + n * v;
  }

  /**
   * The reciprocals telescope: a move made in two parts costs at least as much and pays at most as
   * much as the same move made at once.
   */
  lemma SplitMove(direction: Direction, from: nat, mid: nat, to: nat, liquidity: nat)
    requires from > 0 && mid > 0 && to > 0
    requires Reached(direction, mid, from) && Reached(direction, to, mid)
    ensures Reached(direction, to, from)
    ensures Paid(direction, from, mid, liquidity) + Paid(direction, mid, to, liquidity)
         <= Paid(direction, from, to, liquidity)
    ensures Owed(direction, from, to, liquidity)
         <= Owed(direction, from, mid, liquidity) + Owed(direction, mid, to, liquidity)
  {
    match direction
    case BtoA =>
      SplitReciprocal(from, mid, to, liquidity * Q64);
      SplitLinear(liquidity, mid - from, to - mid);
    case AtoB =>
      SplitReciprocal(to, mid, from, liquidity * Q64);
      SplitLinear(liquidity, from - mid, mid - to);
  }

  /** Moving farther costs and pays at least as much. */
  lemma FartherMove(direction: Direction, from: nat, mid: nat, to: nat, liquidity: nat)
    requires from > 0 && mid > 0 && to > 0
    requires Reached(direction, mid, from) && Reached(direction, to, mid)
    ensures Reached(direction, to, from)
    ensures Paid(direction, from, mid, liquidity) <= Paid(direction, from, to, liquidity)
    ensures Paid(direction, mid, to, liquidity) <= Paid(direction, from, to, liquidity)
    ensures Owed(direction, from, mid, liquidity) <= Owed(direction, from, to, liquidity)
  {
    SplitMove(direction, from, mid, to, liquidity);
    if liquidity > 0 {
      var x := Owed(direction, from, to, liquidity);
      Adjoint(direction, from, to, liquidity, x);
      Adjoint(direction, from, mid, liquidity, x);
    } else {
      assert Owed(direction, from, mid, 0) == 0 by {
        MulLt(0, mid, from);
        assert 0 * Q64 * Gap(direction, from, mid) == 0;
        CeilAdjoint(0, mid * from, 0);
      }
    }
  }

  /** A deeper range pays at least as much for the same move. */
  lemma DeeperRange(direction: Direction, from: nat, to: nat, l1: nat, l2: nat)
    requires from > 0 && to > 0 && Reached(direction, to, from) && l1 <= l2
    ensures Paid(direction, from, to, l1) <= Paid(direction, from, to, l2)
  {
    var g := Gap(direction, from, to);
    MulLt(0, from, to);
    MulLe(l1, l2, g);
    MulLe(l1 * Q64, l2 * Q64, g);
    MulLe(l1 * Q64 * g, l2 * Q64 * g, from * to);
    FloorMonotone(l1 * Q64 * g, from * to, l2 * Q64 * g, from * to);
    FloorMonotone(l1 * g, Q64, l2 * g, Q64);
  }

  /** The pool never pays out more for a move than the reverse move costs. */
  lemma ReverseMove(direction: Direction, from: nat, to: nat, liquidity: nat)
    requires from > 0 && to > 0 && Reached(direction, to, from)
    ensures var back := Opposite(direction);
      Reached(back, from, to)
      && Paid(direction, from, to, liquidity) <= Owed(back, to, from, liquidity)
           <= Paid(direction, from, to, liquidity) + 1
      && Paid(back, to, from, liquidity) <= Owed(direction, from, to, liquidity)
  {
    assert from * to == to * from;
    MulLt(0, from, to);
    FloorLeCeil(liquidity * Gap(direction, from, to), Q64);
    FloorLeCeil(liquidity * Q64 * Gap(direction, from, to), from * to);
  }

  function Opposite(direction: Direction): Direction {
    match direction
    case AtoB => BtoA
    case BtoA => AtoB
  }

  /**
   * No round trip inside one range profits: selling an input and then selling what it bought leaves
   * the price at or short of the start, and returns no more than was put in.
   */
  lemma RoundTripNeverProfits(direction: Direction, start: nat, liquidity: nat, amount: nat)
    requires start > 0 && liquidity > 0
    ensures
      var turn := Reach(direction, start, liquidity, amount);
      var bought := Paid(direction, start, turn, liquidity);
      var back := Opposite(direction);
      var end := Reach(back, turn, liquidity, bought);
      Reached(back, start, end) && Paid(back, turn, end, liquidity) <= amount
  {
    var turn := Reach(direction, start, liquidity, amount);
    var bought := Paid(direction, start, turn, liquidity);
    var back := Opposite(direction);
    var end := Reach(back, turn, liquidity, bought);
    if Beyond(back, end, start) {
      // Overshooting the start would cost strictly more than was bought.
      OvershootCostsMore(direction, start, turn, end, liquidity);
      Adjoint(back, turn, end, liquidity, bought);
    }
    FartherMove(back, turn, end, start, liquidity);
    ReverseMove(direction, start, turn, liquidity);
    Adjoint(direction, start, turn, liquidity, amount);
  }

  lemma OvershootCostsMore(direction: Direction, start: nat, turn: nat, end: nat, liquidity: nat)
    requires start > 0 && turn > 0 && end > 0 && liquidity > 0
    requires Reached(direction, turn, start) && Beyond(Opposite(direction), end, start)
    ensures Reached(Opposite(direction), end, turn)
    ensures Owed(Opposite(direction), turn, end, liquidity) > Paid(direction, start, turn, liquidity)
  {
    var scaled := liquidity * Q64;
    MulLt(0, start, turn);
    MulLt(0, turn, end);
    match direction
    case BtoA =>
      MulLt(turn - start, turn - end, scaled);
      MulLe(end, start, turn);
      FloorBelowCeil(scaled * (turn - start), start * turn, scaled * (turn - end), turn * end);
    case AtoB =>
      MulLt(start - turn, end - turn, liquidity);
      FloorBelowCeil(liquidity * (start - turn), Q64, liquidity * (end - turn), Q64);
  }

  /** Splitting one input into two consecutive ones never moves the price farther and never pays more. */
  lemma SplittingNeverPaysMore(direction: Direction, start: nat, liquidity: nat, x: nat, y: nat)
    requires start > 0 && liquidity > 0
    ensures
      var mid := Reach(direction, start, liquidity, x);
      var end, whole := Reach(direction, mid, liquidity, y), Reach(direction, start, liquidity, x + y);
      Reached(direction, whole, end)
      && Paid(direction, start, mid, liquidity) + Paid(direction, mid, end, liquidity)
         <= Paid(direction, start, whole, liquidity)
  {
    var mid := Reach(direction, start, liquidity, x);
    var end, whole := Reach(direction, mid, liquidity, y), Reach(direction, start, liquidity, x + y);
    SplitMove(direction, start, mid, end, liquidity);
    Adjoint(direction, start, mid, liquidity, x);
    Adjoint(direction, mid, end, liquidity, y);
    Adjoint(direction, start, end, liquidity, x + y);
    FartherMove(direction, start, end, whole, liquidity);
  }
}
