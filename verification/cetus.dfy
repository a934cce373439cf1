/** Quoting a Cetus pool, and the test that a quote needs no tick index. */
module Cetus {
  import opened Wrappers
  import opened Arith
  import opened Checked
  import opened TickMath
  import opened SwapMath
  import opened Swap
  import opened SwapProperties
  import opened SwapBounds
  import opened SplitRuns
  import opened TickIndex
  import opened TickIndexProperties
  import opened Crossing

  const MAX_TICK_CROSSINGS: U32 := 64

  /** The fields of a pool that pricing reads. */
  datatype CetusClmm = CetusClmm(tickSpacing: U32, feeRate: U64, liquidity: U128, sqrtPrice: U128, tick: I32) {
    function State(): PoolState {
      PoolState(sqrtPrice, liquidity, tick, feeRate)
    }
  }

  function RouteOver(ix: Index, direction: Direction): Route {
    var limit := match direction
      case BtoA => MAX_SQRT_PRICE
      case AtoB => MIN_SQRT_PRICE;
    Route(AsSource(ix), direction, limit, MAX_TICK_CROSSINGS)
  }

  /** What quoting against an index returns. */
  function Quoted(pool: CetusClmm, ix: Index, direction: Direction, amountIn: U128): Amm<SwapResult> {
    Swapped(RouteOver(ix, direction), pool.State(), amountIn)
  }

  /** Quotes an exact-input swap, walking tick boundaries. */
  method QuoteExactIn(pool: CetusClmm, ticks: Ticks, direction: Direction, amountIn: U128)
    returns (r: Amm<SwapResult>)
    ensures r == Quoted(pool, ticks.View(), direction, amountIn)
  {
    r := SwapExactIn(RouteOver(ticks.View(), direction), pool.State(), amountIn);
  }

  /** The price the net input reaches if no boundary stops it. */
  function ReachedPrice(pool: CetusClmm, direction: Direction, amountIn: U128): Amm<U128> {
    var (net, _) :- TakeFee(amountIn, pool.feeRate);
    match direction
    case BtoA => SwapMath.NextSqrtPriceUp(pool.sqrtPrice, pool.liquidity, net)
    case AtoB => SwapMath.NextSqrtPriceDown(pool.sqrtPrice, pool.liquidity, net)
  }

  /** What the range test returns. */
  ghost function StaysInside(pool: CetusClmm, direction: Direction, amountIn: U128): Amm<bool> {
    if pool.liquidity == 0 then
      Ok(false)
    else
      var reached :- ReachedPrice(pool, direction, amountIn);
      var start :- TickAt(pool.sqrtPrice);
      if start != pool.tick then
        Ok(false)
      else
        var end :- TickAt(reached);
        Ok(end == start)
  }

  /** Whether a quote stays in the tick the pool is in, without consulting the tick index. */
  method StaysInsideCurrentRange(pool: CetusClmm, direction: Direction, amountIn: U128) returns (r: Amm<bool>)
    ensures r == StaysInside(pool, direction, amountIn)
  {
    if pool.liquidity == 0 {
      return Ok(false);
    }
    var reached := ReachedPrice(pool, direction, amountIn);
    if reached.Err? {
      return Err(reached.error);
    }
    var start := TickAtSqrtPrice(pool.sqrtPrice);
    if start.Err? {
      return Err(start.error);
    }
    if start.value != pool.tick {
      return Ok(false);
    }
    var end := TickAtSqrtPrice(reached.value);
    if end.Err? {
      return Err(end.error);
    }
    return Ok(end.value == start.value);
  }

  // ---------- what the range test answers ----------

  /** A price's floor tick is this one exactly if it lies between the prices of this tick and the next. */
  lemma TickAtIs(sqrtPrice: U128, tick: int)
    requires sqrtPrice > 0
    ensures TickAt(sqrtPrice) == Ok(tick) <==> IsFloorTick(sqrtPrice, tick)
  {
    if IsFloorTick(sqrtPrice, tick) {
      FloorTickIs(sqrtPrice, tick);
    }
  }

  /**
   * In both directions: the test says yes exactly if the stored tick is the floor tick of both the start
   * and the price reached, no otherwise, and fails exactly if the price reached cannot be computed.
   */
  lemma RangeTestExact(pool: CetusClmm, direction: Direction, amountIn: U128)
    requires pool.sqrtPrice > 0 && pool.liquidity > 0
    ensures match ReachedPrice(pool, direction, amountIn)
      case Err(e) => StaysInside(pool, direction, amountIn) == Err(e)
      case Ok(_) =>
        && pool.feeRate < FEE_DENOMINATOR
        && var reach := Reach(direction, pool.sqrtPrice, pool.liquidity, NetInput(pool.State(), amountIn));
           StaysInside(pool, direction, amountIn)
           == Ok(IsFloorTick(pool.sqrtPrice, pool.tick) && IsFloorTick(reach, pool.tick))
  {
    if ReachedPrice(pool, direction, amountIn).Ok? {
      var net := TakeFee(amountIn, pool.feeRate).value.0;
      match direction {
        case BtoA => NextSqrtPriceUpExact(pool.sqrtPrice, pool.liquidity, net);
        case AtoB => NextSqrtPriceDownExact(pool.sqrtPrice, pool.liquidity, net);
      }
      TickAtIs(pool.sqrtPrice, pool.tick);
      TickAtIs(ReachedPrice(pool, direction, amountIn).value, pool.tick);
    }
  }

  /**
   * With 64-bit input and liquidity and a legal fee the test always answers going down, and going up
   * fails exactly if the price reached leaves 128 bits. A dry pool is always answered no.
   */
  lemma RangeTestAnswers(pool: CetusClmm, direction: Direction, amountIn: U64)
    requires pool.sqrtPrice > 0 && pool.liquidity < Q64 && pool.feeRate < FEE_DENOMINATOR
    ensures pool.liquidity == 0 ==> StaysInside(pool, direction, amountIn) == Ok(false)
    ensures pool.liquidity > 0 ==>
      var reach := Reach(direction, pool.sqrtPrice, pool.liquidity, NetInput(pool.State(), amountIn));
      StaysInside(pool, direction, amountIn)
      == if reach >= U128_LIMIT then Err(Overflow(Operation.NextSqrtPriceUp))
         else Ok(IsFloorTick(pool.sqrtPrice, pool.tick) && IsFloorTick(reach, pool.tick))
  {
    if pool.liquidity > 0 {
      TakeFeeExact(amountIn, pool.feeRate);
      RangeTestExact(pool, direction, amountIn);
      var net := NetInput(pool.State(), amountIn);
      match direction
      case BtoA => NextPriceUpFits(pool.sqrtPrice, pool.liquidity, net, MAX_SQRT_PRICE);
        NextSqrtPriceUpExact(pool.sqrtPrice, pool.liquidity, net);
      case AtoB => DownFits(pool.sqrtPrice, pool.liquidity, net);
        NextSqrtPriceDownExact(pool.sqrtPrice, pool.liquidity, net);
    }
  }

  // ---------- the range test against the full computation ----------

  /** The tick right above the pool's is stored at a price the quote starts below and reaches. */
  ghost predicate NextTickInReach(pool: CetusClmm, ix: Index, reached: nat) {
    exists n :: n in ix.nodes && n.index == pool.tick + 1 && pool.sqrtPrice < n.sqrtPrice <= reached
  }

  /** Above the floor tick of a price every node but the next tick's is stored beyond that price. */
  lemma NodesAboveAreBeyond(ix: Index, tick: int, reached: nat, n: TickNode)
    requires WellBuilt(ix) && IsFloorTick(reached, tick)
    requires n in ix.nodes && n.index > tick + 1
    ensures n.sqrtPrice > reached
  {
    PricesIncrease(tick + 1, n.index);
  }

  /** Below the floor tick of a price every node is stored below that price. */
  lemma NodesBelowAreBeyond(ix: Index, tick: int, reached: nat, n: TickNode)
    requires WellBuilt(ix) && IsFloorTick(reached, tick)
    requires n in ix.nodes && n.index < tick
    ensures n.sqrtPrice < reached
  {
    PricesIncrease(n.index, tick);
  }

  /** Any boundary a quote could meet lies beyond the price it reaches. */
  lemma BoundaryIsBeyondReach(pool: CetusClmm, ix: Index, direction: Direction, reached: U128)
    requires WellBuilt(ix) && IsFloorTick(reached, pool.tick)
    requires direction == BtoA ==> !NextTickInReach(pool, ix, reached)
    ensures var b := NextBoundary(RouteOver(ix, direction), pool.tick, pool.sqrtPrice);
      b.Some? ==> Beyond(direction, b.value.sqrtPrice, reached)
  {
    var b := NextBoundary(RouteOver(ix, direction), pool.tick, pool.sqrtPrice);
    if b.Some? {
      if direction == BtoA {
        NextAboveIsScan(ix, pool.tick);
        var n := NextAbove(ix, pool.tick).value;
        if n.index > pool.tick + 1 {
          NodesAboveAreBeyond(ix, pool.tick, reached, n);
        }
      } else {
        NextBelowIsScan(ix, pool.tick);
        NodesBelowAreBeyond(ix, pool.tick, reached, NextBelow(ix, pool.tick).value);
      }
    }
  }

  /** With its only boundary beyond the price it reaches, a swap does what it does without boundaries. */
  lemma BoundaryDoesNotMatter(ix: Index, direction: Direction, c: Cursor, reached: U128)
    requires c.remaining > 0
    requires var price := if direction == BtoA
        then SwapMath.NextSqrtPriceUp(c.sqrtPrice, c.liquidity, c.remaining)
        else SwapMath.NextSqrtPriceDown(c.sqrtPrice, c.liquidity, c.remaining);
      price == Ok(reached)
    requires var b := NextBoundary(RouteOver(ix, direction), c.tick, c.sqrtPrice);
      b.Some? ==> Beyond(direction, b.value.sqrtPrice, reached)
    ensures Iterate(RouteOver(ix, direction), c) == Iterate(RouteOver(EMPTY, direction), c)
    ensures Iterate(RouteOver(ix, direction), c).Ok? ==> Iterate(RouteOver(ix, direction), c).value.Done?
  {
    assert NextBoundary(RouteOver(EMPTY, direction), c.tick, c.sqrtPrice).None?;
  }

  /**
   * When the range test says yes, quoting against any built index returns what quoting against the
   * empty one does. Going down this needs nothing more; going up it needs that the next tick, if
   * initialised, is not stored within the quote's reach.
   */
  lemma QuoteNeedsNoTicks(pool: CetusClmm, ix: Index, direction: Direction, amountIn: U128)
    requires WellBuilt(ix) && StaysInside(pool, direction, amountIn) == Ok(true)
    requires direction == BtoA ==> !NextTickInReach(pool, ix, ReachedPrice(pool, direction, amountIn).value)
    ensures Quoted(pool, ix, direction, amountIn) == Quoted(pool, EMPTY, direction, amountIn)
  {
    var (net, fee) := TakeFee(amountIn, pool.feeRate).value;
    var c := Start(pool.State(), net);
    if net > 0 {
      BoundaryIsBeyondReach(pool, ix, direction, ReachedPrice(pool, direction, amountIn).value);
      BoundaryDoesNotMatter(ix, direction, c, ReachedPrice(pool, direction, amountIn).value);
    }
    SameTurnSameQuote(pool, ix, direction, amountIn);
  }

  /** Routes that differ in their source only quote the same if their one turn is the same. */
  lemma SameTurnSameQuote(pool: CetusClmm, ix: Index, direction: Direction, amountIn: U128)
    requires TakeFee(amountIn, pool.feeRate).Ok?
    requires var c := Start(pool.State(), TakeFee(amountIn, pool.feeRate).value.0);
      c.remaining > 0 ==>
        && Iterate(RouteOver(ix, direction), c) == Iterate(RouteOver(EMPTY, direction), c)
        && (Iterate(RouteOver(ix, direction), c).Ok? ==> Iterate(RouteOver(ix, direction), c).value.Done?)
    ensures Quoted(pool, ix, direction, amountIn) == Quoted(pool, EMPTY, direction, amountIn)
  {
    var c := Start(pool.State(), TakeFee(amountIn, pool.feeRate).value.0);
    assert Walk(RouteOver(ix, direction), c) == Walk(RouteOver(EMPTY, direction), c);
  }

  /** A next tick stored at or above the tick math is never within the reach of a quote the test accepts. */
  lemma NextTickAtTheMathIsOutOfReach(pool: CetusClmm, ix: Index, amountIn: U128)
    requires WellBuilt(ix) && StaysInside(pool, BtoA, amountIn) == Ok(true)
    requires forall n | n in ix.nodes && n.index == pool.tick + 1 :: n.sqrtPrice >= Price(n.index)
    ensures !NextTickInReach(pool, ix, ReachedPrice(pool, BtoA, amountIn).value)
  {
    assert IsFloorTick(ReachedPrice(pool, BtoA, amountIn).value, pool.tick);
  }

  // ---------- the condition is exact ----------

  /** Going up over a built index, the reported tick never falls. */
  lemma {:induction false} WalkTickClimbs(route: Route, ix: Index, c: Cursor)
    requires WellBuilt(ix) && route.source == AsSource(ix) && route.direction == BtoA
    requires Walk(route, c).Ok?
    ensures c.tick <= Walk(route, c).value.tick
    decreases route.maxCrossings - c.crossings
  {
    if c.remaining > 0 && Iterate(route, c).Ok? && Iterate(route, c).value.More? {
      NextAboveIsScan(ix, c.tick);
      WalkTickClimbs(route, ix, Iterate(route, c).value.cursor);
    }
  }

  /** Without boundaries the reported tick is the starting one. */
  lemma WalkWithoutTicks(direction: Direction, c: Cursor)
    requires Walk(RouteOver(EMPTY, direction), c).Ok?
    ensures Walk(RouteOver(EMPTY, direction), c).value.tick == c.tick
  {
    assert NextBoundary(RouteOver(EMPTY, direction), c.tick, c.sqrtPrice).None?;
  }

  lemma NextTickIsAbove(ix: Index, tick: int, n: TickNode)
    requires WellBuilt(ix) && n in ix.nodes && n.index == tick + 1
    ensures NextAbove(ix, tick) == Some(n)
  {
    NextAboveIsScan(ix, tick);
    GetIsScan(ix, n.index);
  }

  /** A next tick within reach is the boundary a quote meets first, before the end of the grid. */
  lemma NextTickInReachIsMet(pool: CetusClmm, ix: Index, reached: nat)
    requires WellBuilt(ix) && NextTickInReach(pool, ix, reached) && IsFloorTick(reached, pool.tick)
    ensures var b := NextBoundary(RouteOver(ix, BtoA), pool.tick, pool.sqrtPrice);
      b.Some? && b.value.tick == pool.tick + 1 && b.value.sqrtPrice <= reached && b.value.sqrtPrice < MAX_SQRT_PRICE
  {
    var n :| n in ix.nodes && n.index == pool.tick + 1 && pool.sqrtPrice < n.sqrtPrice <= reached;
    assert IsTick(n.index);
    NextTickIsAbove(ix, pool.tick, n);
    GridEnds();
    PriceMonotone(n.index, MAX_TICK);
  }

  /** What an input reaches is its `Reach`, and reaching beyond the start takes some input. */
  lemma PositiveInput(sqrtPrice: U128, liquidity: U128, net: U128, reached: U128)
    requires sqrtPrice > 0 && liquidity > 0 && SwapMath.NextSqrtPriceUp(sqrtPrice, liquidity, net) == Ok(reached)
    ensures Reach(BtoA, sqrtPrice, liquidity, net) == reached && (reached > sqrtPrice ==> net > 0)
  {
    NextSqrtPriceUpExact(sqrtPrice, liquidity, net);
    FloorIsUnique(0, liquidity, 0);
  }

  lemma NextTickInReachIsCrossed(pool: CetusClmm, ix: Index, net: U128, reached: U128)
    requires WellBuilt(ix) && NextTickInReach(pool, ix, reached) && IsFloorTick(reached, pool.tick)
    requires pool.sqrtPrice > 0 && pool.liquidity > 0
    requires SwapMath.NextSqrtPriceUp(pool.sqrtPrice, pool.liquidity, net) == Ok(reached)
    ensures var route, c := RouteOver(ix, BtoA), Start(pool.State(), net);
      && net > 0 && c.sqrtPrice < route.priceLimit
      && (Iterate(route, c).Ok? ==>
            Iterate(route, c).value.More? && Iterate(route, c).value.cursor.tick == pool.tick + 1)
  {
    PositiveInput(pool.sqrtPrice, pool.liquidity, net, reached);
    NextTickInReachIsMet(pool, ix, reached);
    var route, c := RouteOver(ix, BtoA), Start(pool.State(), net);
    assert CrossesBoundary(route, c);
    if Iterate(route, c).Ok? {
      TurnShape(route, c);
    }
  }

  /** With a 64-bit input and liquidity a quote without ticks that the range test accepts and that moves succeeds. */
  lemma QuoteThatMovesSucceeds(pool: CetusClmm, amountIn: U64)
    requires StaysInside(pool, BtoA, amountIn) == Ok(true) && pool.liquidity < Q64
    requires pool.sqrtPrice < MAX_SQRT_PRICE && pool.sqrtPrice < ReachedPrice(pool, BtoA, amountIn).value
    ensures Quoted(pool, EMPTY, BtoA, amountIn).Ok?
  {
    var (net, fee) := TakeFee(amountIn, pool.feeRate).value;
    var route, c := RouteOver(EMPTY, BtoA), Start(pool.State(), net);
    PositiveInput(pool.sqrtPrice, pool.liquidity, net, ReachedPrice(pool, BtoA, amountIn).value);
    TakeFeeExact(amountIn, pool.feeRate);
    OneTurnMoves(route, c);
    WalkIsSound(route, pool.sqrtPrice, net, c);
    FeeSplit(fee, Walk(route, c).value.remaining, net);
  }

  /** A turn that meets no boundary and has room for its price sum ends the run at a new price. */
  lemma OneTurnMoves(route: Route, c: Cursor)
    requires OnCourse(route, c) && route.direction == BtoA && c.sqrtPrice < route.priceLimit
    requires NextBoundary(route, c.tick, c.sqrtPrice).None?
    requires 0 < c.liquidity < Q64 && 0 < c.remaining < Q64 && c.amountOut == 0
    requires c.sqrtPrice < Reach(BtoA, c.sqrtPrice, c.liquidity, c.remaining) < U128_LIMIT
    ensures Iterate(route, c).Ok? && Iterate(route, c).value.Done?
  {
    var next := Target(route, c);
    NextPriceUpFits(c.sqrtPrice, c.liquidity, c.remaining, route.priceLimit);
    NextPriceUpExact(c.sqrtPrice, c.liquidity, c.remaining, route.priceLimit);
    StepFits(BtoA, c.sqrtPrice, next, c.liquidity);
    PaidUpExact(c.sqrtPrice, next, c.liquidity);
    PaidFits(BtoA, c.sqrtPrice, next, c.liquidity);
  }

  /**
   * Exactly then: when the range test says yes, and either the bounds on input and liquidity hold or the
   * quote without ticks succeeds, a quote going up over a built index agrees with it if and only if the
   * next tick is not stored within reach.
   */
  lemma TicksMatterExactlyWhenInReach(pool: CetusClmm, ix: Index, amountIn: U128)
    requires WellBuilt(ix) && StaysInside(pool, BtoA, amountIn) == Ok(true)
    requires (amountIn < Q64 && pool.liquidity < Q64) || Quoted(pool, EMPTY, BtoA, amountIn).Ok?
    ensures Quoted(pool, ix, BtoA, amountIn) == Quoted(pool, EMPTY, BtoA, amountIn)
      <==> !NextTickInReach(pool, ix, ReachedPrice(pool, BtoA, amountIn).value)
  {
    if NextTickInReach(pool, ix, ReachedPrice(pool, BtoA, amountIn).value) {
      var net := TakeFee(amountIn, pool.feeRate).value.0;
      var route, c := RouteOver(ix, BtoA), Start(pool.State(), net);
      NextTickInReachIsMet(pool, ix, ReachedPrice(pool, BtoA, amountIn).value);
      NextTickInReachIsCrossed(pool, ix, net, ReachedPrice(pool, BtoA, amountIn).value);
      if amountIn < Q64 && pool.liquidity < Q64 {
        QuoteThatMovesSucceeds(pool, amountIn);
      }
      WalkWithoutTicks(BtoA, c);
      if Quoted(pool, ix, BtoA, amountIn).Ok? {
        WalkTickClimbs(route, ix, Iterate(route, c).value.cursor);
      }
    } else {
      QuoteNeedsNoTicks(pool, ix, BtoA, amountIn);
    }
  }

  // ---------- the condition can fail ----------

  const HALF: U128 := 0x8000_0000_0000_0000
  const LOW_NODE: TickNode := TickNode(443_637, [], 1, 18447666387855959849, 1)

  /** One node, stored one unit below the tick math, is accepted. */
  lemma LowNodeIsAccepted()
    ensures Built(None, false, [LOW_NODE]).Ok?
    ensures WellBuilt(Built(None, false, [LOW_NODE]).value)
    ensures Built(None, false, [LOW_NODE]).value.nodes == [LOW_NODE]
  {
    PricesAroundOne();
    assert SoundNode(LOW_NODE);
    assert multiset([LOW_NODE]) == multiset{LOW_NODE};
    assert Accepted(multiset{LOW_NODE}, LOW_NODE);
    BuiltExact(None, false, [LOW_NODE]);
    assert SortByTick([LOW_NODE]) == [LOW_NODE];
  }

  /**
   * The range test can say yes to a quote the tick index changes: a node stored one unit below the tick
   * math, within tolerance, and a B-in quote that reaches exactly its price.
   */
  lemma RangeTestCanMissATick()
    ensures var pool := CetusClmm(1, 0, HALF, 18447666387855959845, 0);
      && Built(None, false, [LOW_NODE]).Ok?
      && StaysInside(pool, BtoA, 2) == Ok(true)
      && Quoted(pool, EMPTY, BtoA, 2).Ok?
      && Quoted(pool, Built(None, false, [LOW_NODE]).value, BtoA, 2) != Quoted(pool, EMPTY, BtoA, 2)
  {
    var pool := CetusClmm(1, 0, HALF, 18447666387855959845, 0);
    var reached: U128 := 18447666387855959849;
    LowNodeIsAccepted();
    var ix := Built(None, false, [LOW_NODE]).value;
    PricesAroundOne();
    TakeFeeExact(2, 0);
    NextSqrtPriceUpExact(pool.sqrtPrice, HALF, 2);
    assert ReachedPrice(pool, BtoA, 2) == Ok(reached);
    FloorTickIs(pool.sqrtPrice, 0);
    FloorTickIs(reached, 0);
    assert LOW_NODE in ix.nodes;
    QuoteWithoutTicks(pool);
    TicksMatterExactlyWhenInReach(pool, ix, 2);
  }

  lemma QuoteWithoutTicks(pool: CetusClmm)
    requires pool == CetusClmm(1, 0, HALF, 18447666387855959845, 0)
    ensures Quoted(pool, EMPTY, BtoA, 2).Ok?
  {
    TakeFeeExact(2, 0);
    OneTurnUp(RouteOver(EMPTY, BtoA), Start(pool.State(), 2));
  }

  lemma OneTurnUp(route: Route, c: Cursor)
    requires route.direction == BtoA && route.priceLimit == MAX_SQRT_PRICE
    requires NextBoundary(route, c.tick, c.sqrtPrice).None?
    requires c.sqrtPrice == 18447666387855959845 && c.liquidity == HALF && c.remaining == 2 && c.amountOut == 0
    ensures Iterate(route, c).Ok? && Iterate(route, c).value.Done? && Iterate(route, c).value.cursor.remaining == 0
  {
    NextPriceUpFits(c.sqrtPrice, HALF, 2, MAX_SQRT_PRICE);
    NextPriceUpExact(c.sqrtPrice, HALF, 2, MAX_SQRT_PRICE);
    StepFits(BtoA, c.sqrtPrice, 18447666387855959849, HALF);
    OwedUpExact(c.sqrtPrice, 18447666387855959849, HALF);
    PaidUpExact(c.sqrtPrice, 18447666387855959849, HALF);
    PaidFits(BtoA, c.sqrtPrice, 18447666387855959849, HALF);
  }

  // ---------- the spacing grid ----------

  function SaturatedI32(x: int): I32 {
    if x > I32_MAX then I32_MAX else if x < -I32_MAX - 1 then -I32_MAX - 1 else x
  }

  /** The grid tick after the pool's; a spacing whose i32 reading is not positive has none. */
  function NextGridTick(pool: CetusClmm): I32 {
    if pool.tickSpacing == 0 || pool.tickSpacing > I32_MAX then
      pool.tick
    else
      SaturatedI32(SaturatedI32(pool.tick / pool.tickSpacing + 1) * pool.tickSpacing)
  }

  /**
   * On an index that passes the spacing check, no initialised tick lies between the pool's tick and the
   * next grid tick. It is the first multiple strictly above, also when the pool's tick is on the grid.
   */
  lemma NextGridTickBoundsTheNextTick(pool: CetusClmm, ix: Index)
    requires WellBuilt(ix) && OnGrid(ix.nodes, pool.tickSpacing)
    requires IsTick(pool.tick) && 0 < pool.tickSpacing <= I32_MAX
    ensures pool.tick < NextGridTick(pool) <= pool.tick + pool.tickSpacing
    ensures NextGridTick(pool) < I32_MAX ==> NextGridTick(pool) % pool.tickSpacing == 0
    ensures NextAbove(ix, pool.tick).Some? ==> NextGridTick(pool) <= NextAbove(ix, pool.tick).value.index
  {
    NextGridTickIsMultiple(pool);
    NextMultiple(pool.tick, pool.tickSpacing);
    NextAboveIsScan(ix, pool.tick);
    if NextAbove(ix, pool.tick).Some? {
      MultipleAbove(pool.tick, pool.tickSpacing, NextAbove(ix, pool.tick).value.index);
    }
  }

  predicate IsMultiple(m: int, spacing: nat)
    requires spacing > 0
  {
    m % spacing == 0
  }

  /** The first multiple at or above a tick, as the grid tick is documented. */
  ghost predicate FirstAtOrAbove(t: int, tick: int, spacing: nat)
    requires spacing > 0
  {
    IsMultiple(t, spacing) && tick <= t && forall m | IsMultiple(m, spacing) && tick <= m :: t <= m
  }

  /**
   * The grid tick is what it is documented to be exactly if the pool's tick is off the grid and the next
   * multiple fits in 32 bits, which it does for every spacing up to 2^28.
   */
  lemma DocumentedExactlyOffTheGrid(pool: CetusClmm)
    requires IsTick(pool.tick) && 0 < pool.tickSpacing <= I32_MAX
    ensures FirstAtOrAbove(NextGridTick(pool), pool.tick, pool.tickSpacing) <==>
      !IsMultiple(pool.tick, pool.tickSpacing) && (pool.tick / pool.tickSpacing + 1) * pool.tickSpacing <= I32_MAX
    ensures pool.tickSpacing <= 0x1000_0000 ==>
      (pool.tick / pool.tickSpacing + 1) * pool.tickSpacing <= I32_MAX
  {
    var spacing: nat, multiple := pool.tickSpacing, (pool.tick / pool.tickSpacing + 1) * pool.tickSpacing;
    NextGridTickIsMultiple(pool);
    NextMultiple(pool.tick, spacing);
    forall m | IsMultiple(m, spacing) && pool.tick < m
      ensures multiple <= m
    {
      MultipleAbove(pool.tick, spacing, m);
    }
  }

  /** A pool whose tick is on the grid, and is therefore the first multiple at or above itself. */
  lemma GridTickOvershootsOnTheGrid()
    ensures var pool := CetusClmm(10, 0, 1, MIN_SQRT_PRICE, 20);
      NextGridTick(pool) == 30 && FirstAtOrAbove(20, pool.tick, 10) && !FirstAtOrAbove(30, pool.tick, 10)
  {
    var pool := CetusClmm(10, 0, 1, MIN_SQRT_PRICE, 20);
    assert IsMultiple(20, 10) && IsMultiple(30, 10);
    DocumentedExactlyOffTheGrid(pool);
  }

  /** On the grid only the product can saturate. */
  lemma NextGridTickIsMultiple(pool: CetusClmm)
    requires IsTick(pool.tick) && 0 < pool.tickSpacing <= I32_MAX
    ensures var multiple := (pool.tick / pool.tickSpacing + 1) * pool.tickSpacing;
      NextGridTick(pool) == if multiple > I32_MAX then I32_MAX else multiple
  {
    NextMultiple(pool.tick, pool.tickSpacing);
    var quotient := pool.tick / pool.tickSpacing + 1;
    assert SaturatedI32(quotient) == quotient;
  }

  lemma NextMultiple(tick: int, spacing: nat)
    requires spacing > 0 && IsTick(tick)
    ensures tick < (tick / spacing + 1) * spacing <= tick + spacing
    ensures (tick / spacing + 1) * spacing % spacing == 0
    ensures MIN_TICK <= tick / spacing + 1 <= MAX_TICK + 1
  {
    var k := tick / spacing;
    assert tick == k * spacing + tick % spacing;
    assert (k + 1) * spacing == k * spacing + spacing;
    assert k + 1 < MIN_TICK ==> (k + 1) * spacing <= k + 1;
    assert k > MAX_TICK ==> k * spacing >= k;
    ModOfMultiple(k + 1, spacing);
  }

  lemma ModOfMultiple(k: int, spacing: nat)
    requires spacing > 0
    ensures k * spacing % spacing == 0
  {
    var q, r := k * spacing / spacing, k * spacing % spacing;
    assert (k - q) * spacing == r;
    assert k - q >= 1 ==> (k - q) * spacing >= spacing;
    assert k - q <= -1 ==> (k - q) * spacing <= -1 * spacing;
  }

  lemma MultipleAbove(tick: int, spacing: nat, t: int)
    requires spacing > 0 && t % spacing == 0 && t > tick
    ensures t >= (tick / spacing + 1) * spacing
  {
    var k, j := tick / spacing, t / spacing;
    assert t == j * spacing;
    assert tick == k * spacing + tick % spacing;
    OrderedMultiples(k, j, spacing, tick);
  }

  lemma OrderedMultiples(k: int, j: int, spacing: nat, tick: int)
    requires k * spacing <= tick < j * spacing
    ensures (k + 1) * spacing <= j * spacing
  {
    if j <= k {
      MulLeSigned(j, k, spacing);
    } else {
      MulLeSigned(k + 1, j, spacing);
    }
  }
}
