/** Bounds a caller can check before a swap that rule out every pricing overflow on its way. */
module SwapDepth {
  import opened Wrappers
  import opened Arith
  import opened Checked
  import opened SwapMath
  import opened Swap
  import opened SwapProperties
  import opened SwapBounds
  import opened TickIndex
  import opened TickIndexProperties
  import opened TickMath
  import opened Crossing
  import Cetus

  /** A range is dry or at least this deep. */
  predicate DryOrDeep(liquidity: int, least: nat) {
    liquidity == 0 || liquidity >= least
  }

  /** Liquidity is none or at least this much at every step the run takes. */
  ghost predicate DeepThroughout(route: Route, c: Cursor, least: nat)
    decreases route.maxCrossings - c.crossings
  {
    && DryOrDeep(c.liquidity, least)
    && (c.remaining > 0 && Iterate(route, c).Ok? && Iterate(route, c).value.More? ==>
          DeepThroughout(route, Iterate(route, c).value.cursor, least))
  }

  /** Room above the limit for the whole input at the least liquidity is room for every price sum. */
  lemma {:induction false} RoomForEverySum(route: Route, c: Cursor, least: nat)
    requires OnCourse(route, c) && least > 0 && DeepThroughout(route, c, least)
    requires route.direction == BtoA ==> route.priceLimit + c.remaining * Q64 / least < U128_LIMIT
    ensures !PriceSumOverflowsOnTheWay(route, c)
    decreases route.maxCrossings - c.crossings
  {
    if c.liquidity > 0 {
      LessSpentReachesLess(c.remaining, c.remaining, c.liquidity, least);
    }
    if c.remaining > 0 && Iterate(route, c).Ok? && Iterate(route, c).value.More? {
      IterateExact(route, c);
      var next := Iterate(route, c).value.cursor;
      LessSpentReachesLess(next.remaining, c.remaining, least, least);
      RoomForEverySum(route, next, least);
    }
  }

  lemma LessSpentReachesLess(x: nat, y: nat, liquidity: nat, least: nat)
    requires x <= y && 0 < least <= liquidity
    ensures x * Q64 / liquidity <= y * Q64 / least
  {
    MulLe(x * Q64, y * Q64, least);
    MulLe(least, liquidity, y * Q64);
    FloorMonotone(x * Q64, liquidity, y * Q64, least);
  }

  /** The liquidity in force at a price, once the nodes on the way there are crossed. */
  function LiquidityAt(direction: Direction, nodes: seq<TickNode>, from: nat, liquidity: nat, to: nat): int {
    liquidity + NetOf(direction, OnTheWay(direction, nodes, from, to))
  }

  /** The prices a swap may pass: from its start to its limit. */
  predicate Within(route: Route, from: nat, to: nat) {
    Reached(route.direction, to, from) && Reached(route.direction, route.priceLimit, to)
  }

  /** At every price up to the limit the liquidity is below 2^64, and none or at least `least`. */
  ghost predicate DeepUpToLimit(route: Route, nodes: seq<TickNode>, from: nat, liquidity: nat, least: nat) {
    forall to: nat | Within(route, from, to) ::
      var here := LiquidityAt(route.direction, nodes, from, liquidity, to);
      here < Q64 && DryOrDeep(here, least)
  }

  /** A run over a built index meets only liquidity its nodes add up to. */
  lemma {:induction false} IndexBoundsLiquidity(
    route: Route, ix: Index, from: nat, liquidity: nat, tick: int, c: Cursor, least: nat)
    requires WellBuilt(ix) && route.source == AsSource(ix) && OnCourse(route, c)
    requires Consistent(route.direction, ix.nodes, c.tick, c.sqrtPrice)
    requires Reached(route.direction, c.sqrtPrice, from)
    requires InStep(route.direction, from, liquidity, tick, ix.nodes, c)
    requires |c.steps| == |OnTheWay(route.direction, ix.nodes, from, c.sqrtPrice)|
    requires DeepUpToLimit(route, ix.nodes, from, liquidity, least)
    ensures DeepThroughout(route, c, least) && ShallowThroughout(route, c)
    decreases route.maxCrossings - c.crossings
  {
    assert Within(route, from, c.sqrtPrice);
    assert c.liquidity == LiquidityAt(route.direction, ix.nodes, from, liquidity, c.sqrtPrice);
    if c.remaining > 0 && Iterate(route, c).Ok? && Iterate(route, c).value.More? {
      TurnKeepsInStep(route, ix, from, liquidity, tick, c);
      IterateExact(route, c);
      IndexBoundsLiquidity(route, ix, from, liquidity, tick, Iterate(route, c).value.cursor, least);
    }
  }

  /** Errors given before the first step. */
  predicate RefusedUpFront(e: AmmError) {
    e.InvalidSqrtPrice? || e.UnreachablePriceLimit? || e.InvalidFeeRate?
  }

  /**
   * Over a built index from an agreeing start, with a 64-bit input, liquidity up to the limit that is
   * 64-bit and none or at least `least`, and room above the limit for the input at that least, a swap
   * meets no pricing overflow.
   */
  lemma DeepIndexNeverOverflows(route: Route, state: PoolState, amountIn: U64, ix: Index, least: nat)
    requires WellBuilt(ix) && route.source == AsSource(ix) && least > 0
    requires Consistent(route.direction, ix.nodes, state.tick, state.sqrtPrice)
    requires DeepUpToLimit(route, ix.nodes, state.sqrtPrice, state.liquidity, least)
    requires route.direction == BtoA ==> route.priceLimit + amountIn * Q64 / least < U128_LIMIT
    ensures Swapped(route, state, amountIn).Err? ==>
      NotAPricingOverflow(Swapped(route, state, amountIn).error) ||
      RefusedUpFront(Swapped(route, state, amountIn).error)
  {
    if && state.sqrtPrice > 0 && state.liquidity > 0 && state.feeRate < FEE_DENOMINATOR
       && Reached(route.direction, route.priceLimit, state.sqrtPrice) {
      TakeFeeExact(amountIn, state.feeRate);
      var net := TakeFee(amountIn, state.feeRate).value.0;
      var c := Start(state, net);
      NoneOnTheWay(route.direction, ix.nodes, state.sqrtPrice, state.sqrtPrice);
      IndexBoundsLiquidity(route, ix, state.sqrtPrice, state.liquidity, state.tick, c, least);
      LessSpentReachesLess(net, amountIn, least, least);
      RoomForEverySum(route, c, least);
      OnlyThePriceSumCanOverflow(route, state, amountIn);
    }
  }

  /** Somewhere up to the limit exactly one unit of liquidity is in force. */
  ghost predicate OneUnitSomewhere(route: Route, nodes: seq<TickNode>, from: nat, liquidity: nat) {
    exists to: nat :: Within(route, from, to) && LiquidityAt(route.direction, nodes, from, liquidity, to) == 1
  }

  /** At every price up to the limit the liquidity is a 64-bit number. */
  ghost predicate SoundUpToLimit(route: Route, nodes: seq<TickNode>, from: nat, liquidity: nat) {
    forall to: nat | Within(route, from, to) ::
      0 <= LiquidityAt(route.direction, nodes, from, liquidity, to) < Q64
  }

  /**
   * A quote from an agreeing start over a built index, with 64-bit input and liquidity, meets a pricing
   * overflow only going up, and only if somewhere up to the limit exactly one unit of liquidity is in force.
   */
  lemma OnlyOneUnitOverflows(pool: Cetus.CetusClmm, ix: Index, direction: Direction, amountIn: U64)
    requires WellBuilt(ix) && Consistent(direction, ix.nodes, pool.tick, pool.sqrtPrice)
    requires SoundUpToLimit(Cetus.RouteOver(ix, direction), ix.nodes, pool.sqrtPrice, pool.liquidity)
    requires Cetus.Quoted(pool, ix, direction, amountIn).Err?
    ensures var e := Cetus.Quoted(pool, ix, direction, amountIn).error;
      || NotAPricingOverflow(e) || RefusedUpFront(e)
      || (direction == BtoA
          && OneUnitSomewhere(Cetus.RouteOver(ix, direction), ix.nodes, pool.sqrtPrice, pool.liquidity))
  {
    var route := Cetus.RouteOver(ix, direction);
    if direction == AtoB {
      DeepIndexNeverOverflows(route, pool.State(), amountIn, ix, 1);
    } else if !OneUnitSomewhere(route, ix.nodes, pool.sqrtPrice, pool.liquidity) {
      HalfTheInput(amountIn);
      DeepIndexNeverOverflows(route, pool.State(), amountIn, ix, 2);
    }
  }

  lemma HalfTheInput(amountIn: U64)
    ensures MAX_SQRT_PRICE + amountIn * Q64 / 2 < U128_LIMIT
  {
  }
}
