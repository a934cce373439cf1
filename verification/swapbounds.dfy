/**
 * Why 256 bits are enough: with liquidity and input below 2^64 the only sum of the pricing path that
 * can still overflow is the 128-bit price sum of a B-in step.
 */
module SwapBounds {
  import opened Wrappers
  import opened Arith
  import opened Checked
  import opened SwapMath
  import opened Swap
  import opened SwapProperties
  import opened SplitRuns

  /** Numerator of a reciprocal fraction over u128 prices with 64-bit liquidity. */
  lemma ReciprocalFits(low: U128, high: U128, liquidity: U64)
    requires 0 < low <= high
    ensures low * high > 0
    ensures 0 <= liquidity * Q64 * (high - low) < U256_LIMIT
    ensures liquidity * Q64 * (high - low) <= (U128_LIMIT - 1) * (low * high)
  {
    var scaled := liquidity * Q64;
    assert scaled < U128_LIMIT;
    ProductFits(scaled, high - low);
    MulLe(1, low, high);
    MulLt(0, high, low);
    MulLe(scaled, U128_LIMIT - 1, high - low);
    assert high - low <= low * high by {
      assert low * high == low * high;
    }
  }

  lemma LinearFits(gap: U128, liquidity: U64)
    ensures 0 <= liquidity * gap <= (U128_LIMIT - 1) * Q64
  {
    MulLe(0, liquidity, gap);
    MulLe(liquidity, Q64 - 1, gap);
  }

  /** No product of a step leaves 256 bits and no amount leaves 128. */
  lemma StepFits(direction: Direction, from: U128, to: U128, liquidity: U64)
    requires from > 0 && to > 0 && Reached(direction, to, from)
    ensures StepAmounts(direction, from, to, liquidity).Ok?
  {
    var low, high := Min(from, to), Max(from, to);
    ReciprocalFits(low, high, liquidity);
    LinearFits(high - low, liquidity);
    ghost var n: nat := liquidity * Q64 * (high - low);
    ghost var d: int := (low as int) * (high as int);
    CeilAdjoint(n, d, U128_LIMIT - 1);
    FloorLeCeil(n, d);
    CeilAdjoint(liquidity * (high - low), Q64, U128_LIMIT - 1);
    FloorLeCeil(liquidity * (high - low), Q64);
    DeltaAExact(low, high, liquidity, false);
    DeltaAExact(low, high, liquidity, true);
    DeltaBExact(low, high, liquidity, false);
    DeltaBExact(low, high, liquidity, true);
  }

  /** Whatever an output is worth between two prices at 64-bit liquidity, it fits in 128 bits. */
  lemma PaidFits(direction: Direction, from: U128, to: U128, liquidity: U64)
    requires from > 0 && to > 0 && Reached(direction, to, from)
    ensures Paid(direction, from, to, liquidity) < U128_LIMIT
  {
    StepFits(direction, from, to, liquidity);
    if direction == BtoA {
      PaidUpExact(from, to, liquidity);
    } else {
      PaidDownExact(from, to, liquidity);
    }
  }

  lemma DownFits(price: U128, liquidity: U64, amount: U64)
    ensures liquidity * Q64 + amount * price < U256_LIMIT
    ensures 0 <= liquidity * Q64 * price < U256_LIMIT
  {
    ProductFits(liquidity * Q64, price);
    MulLe(0, amount, price);
    MulLe(amount, Q64 - 1, price);
  }

  /** Going up, a price target is refused for one reason only: the sum of price and increment leaves 128 bits. */
  lemma NextPriceUpFits(price: U128, liquidity: U64, amount: U64, limit: U128)
    requires price > 0 && liquidity > 0
    ensures NextPrice(BtoA, price, liquidity, amount, limit).Ok? <==> price + amount * Q64 / liquidity < U128_LIMIT
    ensures NextPrice(BtoA, price, liquidity, amount, limit).Err? ==>
      NextPrice(BtoA, price, liquidity, amount, limit) == Err(Overflow(Operation.NextSqrtPriceUp))
  {
    NextSqrtPriceUpExact(price, liquidity, amount);
    QuotientLe(amount * Q64, liquidity);
  }

  /** Going down, a price target is never refused. */
  lemma NextPriceDownFits(price: U128, liquidity: U64, amount: U64, limit: U128)
    requires price > 0 && liquidity > 0
    ensures NextPrice(AtoB, price, liquidity, amount, limit).Ok?
  {
    NextSqrtPriceDownExact(price, liquidity, amount);
    DownFits(price, liquidity, amount);
  }

  /** Output so far is at most what the deepest 64-bit range would have paid for the whole way. */
  ghost predicate OutputBounded(route: Route, from: U128, c: Cursor) {
    && from > 0 && c.sqrtPrice > 0
    && Reached(route.direction, c.sqrtPrice, from)
    && c.amountOut <= Paid(route.direction, from, c.sqrtPrice, Q64 - 1)
  }

  /** The telescoping bound: one more step cannot push the output past 128 bits. */
  lemma OutputStaysBounded(route: Route, from: U128, c: Cursor, next: U128)
    requires OutputBounded(route, from, c) && c.liquidity < Q64
    requires next > 0 && Reached(route.direction, next, c.sqrtPrice)
    ensures Reached(route.direction, next, from)
    ensures c.amountOut + Paid(route.direction, c.sqrtPrice, next, c.liquidity)
         <= Paid(route.direction, from, next, Q64 - 1) < U128_LIMIT
  {
    DeeperRange(route.direction, c.sqrtPrice, next, c.liquidity, Q64 - 1);
    SplitMove(route.direction, from, c.sqrtPrice, next, Q64 - 1);
    PaidFits(route.direction, from, next, Q64 - 1);
  }

  /** Errors that come from the pool's liquidity book-keeping or from the caller's limits, not from pricing. */
  predicate NotAPricingOverflow(e: AmmError) {
    e.ZeroLiquidity? || e.NoProgress? || e.TooManyCrossings?
    || e == Overflow(NegateLiquidityNet) || e == Overflow(AddLiquidityNet) || e == Overflow(SubtractLiquidityNet)
  }

  /** The price sum of a B-in turn does not fit in 128 bits. */
  predicate PriceSumOverflows(route: Route, c: Cursor) {
    && route.direction == BtoA && c.liquidity > 0 && c.remaining > 0 && c.sqrtPrice != route.priceLimit
    && c.sqrtPrice + c.remaining * Q64 / c.liquidity >= U128_LIMIT
  }

  /** One turn under the 64-bit bounds: no pricing operation fails but the price sum, exactly when it must. */
  lemma TurnFits(route: Route, from: U128, c: Cursor)
    requires OnCourse(route, c) && OutputBounded(route, from, c)
    requires 0 < c.remaining < Q64 && c.liquidity < Q64
    ensures Iterate(route, c) == Err(Overflow(Operation.NextSqrtPriceUp)) <==> PriceSumOverflows(route, c)
    ensures Iterate(route, c).Err? && !PriceSumOverflows(route, c) ==> NotAPricingOverflow(Iterate(route, c).error)
    ensures Iterate(route, c).Ok? ==> OutputBounded(route, from, Iterate(route, c).value.cursor)
  {
    if c.sqrtPrice != route.priceLimit && c.liquidity > 0 {
      StopIsAhead(route, c);
      if route.direction == BtoA {
        NextPriceUpFits(c.sqrtPrice, c.liquidity, c.remaining, StopAt(route, c));
      } else {
        NextPriceDownFits(c.sqrtPrice, c.liquidity, c.remaining, StopAt(route, c));
      }
      if !PriceSumOverflows(route, c) {
        var next := Target(route, c);
        if route.direction == BtoA {
          NextPriceUpExact(c.sqrtPrice, c.liquidity, c.remaining, StopAt(route, c));
          PaidUpExact(c.sqrtPrice, next, c.liquidity);
        } else {
          NextPriceDownExact(c.sqrtPrice, c.liquidity, c.remaining, StopAt(route, c));
          PaidDownExact(c.sqrtPrice, next, c.liquidity);
        }
        StepFits(route.direction, c.sqrtPrice, next, c.liquidity);
        OutputStaysBounded(route, from, c, next);
      }
    }
  }

  /** Liquidity is below 2^64 at every step the run takes. */
  ghost predicate ShallowThroughout(route: Route, c: Cursor)
    decreases route.maxCrossings - c.crossings
  {
    && c.liquidity < Q64
    && (c.remaining > 0 && Iterate(route, c).Ok? && Iterate(route, c).value.More? ==>
          ShallowThroughout(route, Iterate(route, c).value.cursor))
  }

  /** Some turn of the run has a price sum that does not fit. */
  ghost predicate PriceSumOverflowsOnTheWay(route: Route, c: Cursor)
    decreases route.maxCrossings - c.crossings
  {
    || PriceSumOverflows(route, c)
    || (c.remaining > 0 && Iterate(route, c).Ok? && Iterate(route, c).value.More?
          && PriceSumOverflowsOnTheWay(route, Iterate(route, c).value.cursor))
  }

  lemma {:induction false} WalkFits(route: Route, from: U128, c: Cursor)
    requires OnCourse(route, c) && OutputBounded(route, from, c)
    requires c.remaining < Q64 && ShallowThroughout(route, c)
    ensures Walk(route, c) == Err(Overflow(Operation.NextSqrtPriceUp)) <==> PriceSumOverflowsOnTheWay(route, c)
    ensures Walk(route, c).Err? && !PriceSumOverflowsOnTheWay(route, c) ==> NotAPricingOverflow(Walk(route, c).error)
    decreases route.maxCrossings - c.crossings
  {
    if c.remaining > 0 {
      TurnFits(route, from, c);
      if Iterate(route, c).Ok? && Iterate(route, c).value.More? {
        IterateExact(route, c);
        WalkFits(route, from, Iterate(route, c).value.cursor);
      }
    }
  }

  /**
   * A whole swap under the 64-bit bounds: no 256-bit operation overflows, no narrowing fails and the
   * output never overflows. It fails with an arithmetic error of the pricing path exactly when the
   * price sum of one of its turns leaves 128 bits.
   */
  lemma OnlyThePriceSumCanOverflow(route: Route, state: PoolState, amountIn: U64)
    requires state.sqrtPrice > 0 && state.liquidity > 0 && state.feeRate < FEE_DENOMINATOR
    requires Reached(route.direction, route.priceLimit, state.sqrtPrice)
    requires ShallowThroughout(route, Start(state, NetInput(state, amountIn)))
    ensures var c := Start(state, NetInput(state, amountIn)); var r := Swapped(route, state, amountIn);
      && (r == Err(Overflow(Operation.NextSqrtPriceUp)) <==> PriceSumOverflowsOnTheWay(route, c))
      && (r.Err? && !PriceSumOverflowsOnTheWay(route, c) ==> NotAPricingOverflow(r.error))
  {
    TakeFeeExact(amountIn, state.feeRate);
    var (net, fee) := TakeFee(amountIn, state.feeRate).value;
    var c := Start(state, net);
    OwedNothing(route.direction, state.sqrtPrice, Q64 - 1);
    WalkFits(route, state.sqrtPrice, c);
    if Walk(route, c).Ok? {
      WalkIsSound(route, state.sqrtPrice, net, c);
      FeeSplit(fee, Walk(route, c).value.remaining, net);
    }
  }

  /** The remaining overflow is real: one unit of liquidity, and an input that takes the price past 128 bits. */
  lemma ShallowPoolOverflows(route: Route, state: PoolState, amountIn: U64)
    requires route.direction == BtoA && state.liquidity == 1 && state.feeRate < FEE_DENOMINATOR
    requires 0 < state.sqrtPrice < route.priceLimit
    requires state.sqrtPrice + NetInput(state, amountIn) * Q64 >= U128_LIMIT
    ensures Swapped(route, state, amountIn) == Err(Overflow(Operation.NextSqrtPriceUp))
  {
    var c := Start(state, NetInput(state, amountIn));
    TakeFeeExact(amountIn, state.feeRate);
    assert PriceSumOverflows(route, c);
    OwedNothing(route.direction, state.sqrtPrice, Q64 - 1);
    TurnFits(route, state.sqrtPrice, c);
    OnlyThePriceSumCanOverflow(route, state, amountIn);
  }
}
