/** The exact-input swap: a walk from tick boundary to tick boundary. */
module Swap {
  import opened Wrappers
  import opened Checked
  import opened SwapMath

  /** An initialised tick, as the price sees it; crossing it upwards adds `liquidityNet`. */
  datatype Boundary = Boundary(tick: I32, sqrtPrice: U128, liquidityNet: I128)

  /** The nearest initialised tick strictly above, and strictly below, a tick: any deterministic answer. */
  datatype TickSource = TickSource(
    nextBoundaryUp: I32 -> Option<Boundary>,
    nextBoundaryDown: I32 -> Option<Boundary>)

  datatype Step = Step(
    amountIn: U128,
    amountOut: U128,
    sqrtPriceStart: U128,
    sqrtPriceEnd: U128,
    liquidity: U128,
    crossed: bool)

  datatype SwapResult = SwapResult(
    amountIn: U128,
    fee: U128,
    amountOut: U128,
    sqrtPriceStart: U128,
    sqrtPriceEnd: U128,
    tickStart: I32,
    tickEnd: I32,
    liquidityStart: U128,
    liquidityEnd: U128,
    inputConsumed: bool,
    steps: seq<Step>)

  datatype PoolState = PoolState(sqrtPrice: U128, liquidity: U128, tick: I32, feeRate: U64)

  /** What stays fixed during one swap. */
  datatype Route = Route(source: TickSource, direction: Direction, priceLimit: U128, maxCrossings: U32)

  /** What a swap updates as it walks. */
  datatype Cursor = Cursor(
    sqrtPrice: U128,
    liquidity: U128,
    tick: I32,
    remaining: U128,
    amountOut: U128,
    crossings: nat,
    steps: seq<Step>)

  datatype Progress = Done(cursor: Cursor) | More(cursor: Cursor)

  /** The next boundary, ignored when it does not lie strictly ahead of the price. */
  function NextBoundary(route: Route, tick: I32, sqrtPrice: U128): Option<Boundary> {
    var found := match route.direction
      case BtoA => route.source.nextBoundaryUp(tick)
      case AtoB => route.source.nextBoundaryDown(tick);
    if found.Some? && Beyond(route.direction, found.value.sqrtPrice, sqrtPrice) then found else None
  }

  /** The price one step may move to: the boundary, clamped to the limit of the whole swap. */
  function StepLimit(route: Route, boundary: Option<Boundary>): U128 {
    var raw := if boundary.Some? then boundary.value.sqrtPrice else route.priceLimit;
    match route.direction
    case BtoA => Min(raw, route.priceLimit)
    case AtoB => Max(raw, route.priceLimit)
  }

  /** The price the input moves to, and whether the limit cut the move short. */
  function NextPrice(direction: Direction, sqrtPrice: U128, liquidity: U128, amountIn: U128, limit: U128)
    : Amm<(U128, bool)>
  {
    var price :- match direction
      case BtoA => SwapMath.NextSqrtPriceUp(sqrtPrice, liquidity, amountIn)
      case AtoB => SwapMath.NextSqrtPriceDown(sqrtPrice, liquidity, amountIn);
    if Reached(direction, price, limit) then Ok((limit, true)) else Ok((price, false))
  }

  /** What a move costs, and what it pays out. */
  function StepAmounts(direction: Direction, from: U128, to: U128, liquidity: U128): Amm<(U128, U128)> {
    match direction
    case BtoA =>
      var owed :- DeltaB(from, to, liquidity, true);
      var out :- DeltaA(from, to, liquidity, false);
      Ok((owed, out))
    case AtoB =>
      var owed :- DeltaA(to, from, liquidity, true);
      var out :- DeltaB(to, from, liquidity, false);
      Ok((owed, out))
  }

  function ApplyLiquidityChange(liquidity: U128, liquidityNet: I128): Amm<U128> {
    if liquidityNet >= 0 then
      if liquidity + liquidityNet < U128_LIMIT then
        Ok(liquidity + liquidityNet)
      else
        Err(Overflow(AddLiquidityNet))
    else if liquidity + liquidityNet >= 0 then
      Ok(liquidity + liquidityNet)
    else
      Err(Overflow(SubtractLiquidityNet))
  }

  /** A net change is defined upwards; crossing downwards applies its negation, which i128::MIN does not have. */
  function NetInDirection(direction: Direction, liquidityNet: I128): Amm<I128> {
    match direction
    case BtoA => Ok(liquidityNet)
    case AtoB =>
      if liquidityNet == -0x8000_0000_0000_0000_0000_0000_0000_0000 then
        Err(Overflow(NegateLiquidityNet))
      else
        Ok(-liquidityNet)
  }

  /** The cursor after moving to a price, before any boundary takes effect. */
  function Moved(c: Cursor, next: U128, consumed: U128, out: U128, crossed: bool): Cursor
    requires consumed <= c.remaining && c.amountOut + out < U128_LIMIT
  {
    c.(sqrtPrice := next,
       remaining := c.remaining - consumed,
       amountOut := c.amountOut + out,
       steps := c.steps + [Step(consumed, out, c.sqrtPrice, next, c.liquidity, crossed)])
  }

  function Cross(route: Route, c: Cursor, boundary: Boundary): Amm<Cursor> {
    if c.crossings + 1 > route.maxCrossings then
      Err(TooManyCrossings(route.maxCrossings))
    else
      var net :- NetInDirection(route.direction, boundary.liquidityNet);
      var liquidity :- ApplyLiquidityChange(c.liquidity, net);
      Ok(c.(liquidity := liquidity, tick := boundary.tick, crossings := c.crossings + 1))
  }

  /** One turn of the loop with input left. */
  function Iterate(route: Route, c: Cursor): Amm<Progress>
    requires c.remaining > 0
  {
    if c.sqrtPrice == route.priceLimit then
      Ok(Done(c))
    else
      var boundary := NextBoundary(route, c.tick, c.sqrtPrice);
      var limit := StepLimit(route, boundary);
      var (next, reachedLimit) :- NextPrice(route.direction, c.sqrtPrice, c.liquidity, c.remaining, limit);
      if next == c.sqrtPrice then
        Err(NoProgress(c.remaining))
      else
        var (owed, out) :- StepAmounts(route.direction, c.sqrtPrice, next, c.liquidity);
        var consumed := if reachedLimit then Min(owed, c.remaining) else c.remaining;
        if c.amountOut + out >= U128_LIMIT then
          Err(Overflow(AccumulateOutput))
        else
          var moved := Moved(c, next, consumed, out, reachedLimit);
          if reachedLimit && boundary.Some? && boundary.value.sqrtPrice == next then
            var crossed :- Cross(route, moved, boundary.value);
            Ok(More(crossed))
          else
            Ok(Done(moved))
  }

  /** The whole loop; each turn that goes on has used up one of the allowed crossings. */
  function Walk(route: Route, c: Cursor): Amm<Cursor>
    decreases route.maxCrossings - c.crossings
  {
    if c.remaining == 0 then
      Ok(c)
    else
      var progress :- Iterate(route, c);
      match progress
      case Done(d) => Ok(d)
      case More(d) => Walk(route, d)
  }

  /** Fee on the consumed input only. */
  function FeeCharged(fee: U128, remaining: U128, netInput: U128): Amm<U128> {
    if remaining == 0 || netInput == 0 then
      Ok(fee)
    else
      var refundable :- MulDiv(fee, remaining, netInput, false);
      if refundable <= fee then Ok(fee - refundable) else Err(Overflow(FeeRefund))
  }

  function Start(state: PoolState, netInput: U128): Cursor {
    Cursor(state.sqrtPrice, state.liquidity, state.tick, netInput, 0, 0, [])
  }

  function Outcome(state: PoolState, amountIn: U128, fee: U128, c: Cursor): SwapResult {
    SwapResult(amountIn, fee, c.amountOut, state.sqrtPrice, c.sqrtPrice, state.tick, c.tick,
               state.liquidity, c.liquidity, c.remaining == 0, c.steps)
  }

  /** What an exact-input swap returns. */
  function Swapped(route: Route, state: PoolState, amountIn: U128): Amm<SwapResult> {
    if state.sqrtPrice == 0 then
      Err(InvalidSqrtPrice(0))
    else if state.liquidity == 0 then
      Err(ZeroLiquidity)
    else if !Reached(route.direction, route.priceLimit, state.sqrtPrice) then
      Err(UnreachablePriceLimit(state.sqrtPrice, route.priceLimit))
    else
      var (netInput, fee) :- TakeFee(amountIn, state.feeRate);
      var end :- Walk(route, Start(state, netInput));
      var charged :- FeeCharged(fee, end.remaining, netInput);
      Ok(Outcome(state, amountIn, charged, end))
  }

  /** Walks tick boundaries until the input, the limit or the boundaries run out. */
  method WalkBoundaries(route: Route, state: PoolState, netInput: U128) returns (r: Amm<Cursor>)
    ensures r == Walk(route, Start(state, netInput))
  {
    var sqrtPrice, liquidity, tick := state.sqrtPrice, state.liquidity, state.tick;
    var remaining: U128, amountOut: U128, crossings: nat := netInput, 0, 0;
    var steps: seq<Step> := [];
    ghost var walk := Walk(route, Start(state, netInput));
    while remaining > 0
      invariant walk == Walk(route, Cursor(sqrtPrice, liquidity, tick, remaining, amountOut, crossings, steps))
      invariant crossings <= route.maxCrossings
      decreases route.maxCrossings - crossings
    {
      ghost var c := Cursor(sqrtPrice, liquidity, tick, remaining, amountOut, crossings, steps);
      if sqrtPrice == route.priceLimit {
        break;
      }
      var boundary := NextBoundary(route, tick, sqrtPrice);
      var limit := StepLimit(route, boundary);
      var target := NextPrice(route.direction, sqrtPrice, liquidity, remaining, limit);
      if target.Err? {
        return Err(target.error);
      }
      var (next, reachedLimit) := target.value;
      if next == sqrtPrice {
        return Err(NoProgress(remaining));
      }
      var amounts := StepAmounts(route.direction, sqrtPrice, next, liquidity);
      if amounts.Err? {
        return Err(amounts.error);
      }
      var (owed, out) := amounts.value;
      var consumed := if reachedLimit then Min(owed, remaining) else remaining;
      if amountOut + out >= U128_LIMIT {
        return Err(Overflow(AccumulateOutput));
      }
      amountOut := amountOut + out;
      steps := steps + [Step(consumed, out, sqrtPrice, next, liquidity, reachedLimit)];
      sqrtPrice := next;
      remaining := remaining - consumed;
      ghost var moved := Moved(c, next, consumed, out, reachedLimit);
      assert moved == Cursor(sqrtPrice, liquidity, tick, remaining, amountOut, crossings, steps);
      if !reachedLimit || boundary.None? || boundary.value.sqrtPrice != sqrtPrice {
        break;
      }
      var crossed := CrossBoundary(route, moved, boundary.value, liquidity, crossings);
      if crossed.Err? {
        return Err(crossed.error);
      }
      liquidity := crossed.value;
      tick := boundary.value.tick;
      crossings := crossings + 1;
    }
    return Ok(Cursor(sqrtPrice, liquidity, tick, remaining, amountOut, crossings, steps));
  }

  /** Counts the crossing of a boundary and applies its liquidity. */
  method CrossBoundary(route: Route, ghost c: Cursor, boundary: Boundary, liquidity: U128, crossings: nat)
    returns (r: Amm<U128>)
    requires liquidity == c.liquidity && crossings == c.crossings
    ensures Cross(route, c, boundary)
         == if r.Err? then Err(r.error)
            else Ok(c.(liquidity := r.value, tick := boundary.tick, crossings := crossings + 1))
    ensures r.Ok? ==> crossings + 1 <= route.maxCrossings
  {
    if crossings + 1 > route.maxCrossings {
      return Err(TooManyCrossings(route.maxCrossings));
    }
    var net := NetInDirection(route.direction, boundary.liquidityNet);
    if net.Err? {
      return Err(net.error);
    }
    r := ApplyLiquidityChange(liquidity, net.value);
  }

  /** Runs an exact-input swap. */
  method SwapExactIn(route: Route, state: PoolState, amountIn: U128) returns (r: Amm<SwapResult>)
    ensures r == Swapped(route, state, amountIn)
  {
    if state.sqrtPrice == 0 {
      return Err(InvalidSqrtPrice(0));
    }
    if state.liquidity == 0 {
      return Err(ZeroLiquidity);
    }
    if !Reached(route.direction, route.priceLimit, state.sqrtPrice) {
      return Err(UnreachablePriceLimit(state.sqrtPrice, route.priceLimit));
    }
    var taken := TakeFee(amountIn, state.feeRate);
    if taken.Err? {
      return Err(taken.error);
    }
    var (netInput, fee) := taken.value;
    var end := WalkBoundaries(route, state, netInput);
    if end.Err? {
      return Err(end.error);
    }
    var charged := FeeCharged(fee, end.value.remaining, netInput);
    if charged.Err? {
      return Err(charged.error);
    }
    return Ok(Outcome(state, amountIn, charged.value, end.value));
  }
}
