/** When a swap fails and with which error, turn by turn, over whole runs, and over a built index. */
module SwapFailures {
  import opened Wrappers
  import opened Arith
  import opened Checked
  import opened SwapMath
  import opened Swap
  import opened SwapProperties
  import opened SwapBounds
  import opened SwapDepth
  import opened TickIndex
  import opened TickIndexProperties
  import opened Crossing
  import opened SplitRuns
  import Cetus

  // ---------- one crossing ----------

  const LEAST_NET: I128 := -0x8000_0000_0000_0000_0000_0000_0000_0000

  /** Why a boundary cannot be crossed, if it cannot. */
  function CrossingFailure(route: Route, c: Cursor, b: Boundary): Option<AmmError> {
    var after := c.liquidity + Signed(route.direction, b.liquidityNet);
    if c.crossings >= route.maxCrossings then Some(TooManyCrossings(route.maxCrossings))
    else if route.direction == AtoB && b.liquidityNet == LEAST_NET then Some(Overflow(NegateLiquidityNet))
    else if after >= U128_LIMIT then Some(Overflow(AddLiquidityNet))
    else if after < 0 then Some(Overflow(SubtractLiquidityNet))
    else None
  }

  /** A crossing takes the boundary's tick and the liquidity with its net in the direction of travel, or fails. */
  lemma CrossExact(route: Route, c: Cursor, b: Boundary)
    ensures match CrossingFailure(route, c, b)
      case Some(e) => Cross(route, c, b) == Err(e)
      case None =>
        && Cross(route, c, b).Ok?
        && var d := Cross(route, c, b).value;
        && d.liquidity == c.liquidity + Signed(route.direction, b.liquidityNet)
        && d.tick == b.tick && d.crossings == c.crossings + 1
        && d == c.(liquidity := d.liquidity, tick := d.tick, crossings := d.crossings)
    ensures Cross(route, c, b).Ok? <==>
      && c.crossings < route.maxCrossings && (route.direction == AtoB ==> b.liquidityNet != LEAST_NET)
      && 0 <= c.liquidity + Signed(route.direction, b.liquidityNet) < U128_LIMIT
  {
  }

  // ---------- one turn ----------

  /** Why the price an input reaches cannot be computed, if it cannot. */
  function ReachFailure(direction: Direction, sqrtPrice: U128, liquidity: U128, amount: U128): Option<AmmError> {
    if liquidity == 0 then
      Some(ZeroLiquidity)
    else
      match direction
      case BtoA =>
        if amount * Q64 / liquidity >= U128_LIMIT then Some(Overflow(Narrow))
        else if sqrtPrice + amount * Q64 / liquidity >= U128_LIMIT then Some(Overflow(Operation.NextSqrtPriceUp))
        else None
      case AtoB =>
        if liquidity * Q64 + amount * sqrtPrice >= U256_LIMIT then Some(Overflow(Add))
        else if liquidity * Q64 * sqrtPrice >= U256_LIMIT then Some(Overflow(Mul))
        else None
  }

  /** Why the amounts of a move cannot be computed, if they cannot: the input's side is computed first. */
  function AmountsFailure(direction: Direction, from: U128, to: U128, liquidity: U128): Option<AmmError>
    requires from > 0 && to > 0 && Reached(direction, to, from)
  {
    var owed, paid := Owed(direction, from, to, liquidity), Paid(direction, from, to, liquidity);
    var tooWide := liquidity * Q64 * Gap(direction, from, to) >= U256_LIMIT;
    match direction
    case BtoA =>
      if owed >= U128_LIMIT then Some(Overflow(Narrow))
      else if tooWide then Some(Overflow(Mul))
      else if paid >= U128_LIMIT then Some(Overflow(Narrow))
      else None
    case AtoB =>
      if tooWide then Some(Overflow(Mul))
      else if owed >= U128_LIMIT || paid >= U128_LIMIT then Some(Overflow(Narrow))
      else None
  }

  /** Why a turn with input left, short of the limit, fails, if it does. */
  function TurnFailure(route: Route, c: Cursor): Option<AmmError>
    requires OnCourse(route, c)
  {
    var reach := ReachFailure(route.direction, c.sqrtPrice, c.liquidity, c.remaining);
    if reach.Some? then
      reach
    else if Reach(route.direction, c.sqrtPrice, c.liquidity, c.remaining) == c.sqrtPrice then
      Some(NoProgress(c.remaining))
    else
      TargetIsAhead(route, c);
      var next := Target(route, c);
      var amounts := AmountsFailure(route.direction, c.sqrtPrice, next, c.liquidity);
      if amounts.Some? then
        amounts
      else if c.amountOut + Paid(route.direction, c.sqrtPrice, next, c.liquidity) >= U128_LIMIT then
        Some(Overflow(AccumulateOutput))
      else if CrossesBoundary(route, c) then
        CrossingFailure(route, c, NextBoundary(route, c.tick, c.sqrtPrice).value)
      else
        None
  }

  lemma TargetIsAhead(route: Route, c: Cursor)
    requires OnCourse(route, c)
    requires ReachFailure(route.direction, c.sqrtPrice, c.liquidity, c.remaining).None?
    ensures c.liquidity > 0
    ensures 0 < Reach(route.direction, c.sqrtPrice, c.liquidity, c.remaining) < U128_LIMIT
    ensures 0 < Target(route, c) < U128_LIMIT && Reached(route.direction, Target(route, c), c.sqrtPrice)
  {
    if c.sqrtPrice != route.priceLimit {
      StopIsAhead(route, c);
    }
  }

  lemma PriceFailsExactly(route: Route, c: Cursor)
    requires OnCourse(route, c)
    ensures match ReachFailure(route.direction, c.sqrtPrice, c.liquidity, c.remaining)
      case Some(e) =>
        NextPrice(route.direction, c.sqrtPrice, c.liquidity, c.remaining, StopAt(route, c)) == Err(e)
      case None =>
        && c.liquidity > 0 && Target(route, c) < U128_LIMIT
        && NextPrice(route.direction, c.sqrtPrice, c.liquidity, c.remaining, StopAt(route, c))
           == Ok((Target(route, c), CutShort(route, c)))
  {
    if c.liquidity > 0 {
      if route.direction == BtoA {
        NextSqrtPriceUpExact(c.sqrtPrice, c.liquidity, c.remaining);
      } else {
        NextSqrtPriceDownExact(c.sqrtPrice, c.liquidity, c.remaining);
      }
    }
  }

  /** A turn fails exactly for that reason, whatever the width of its numbers. */
  lemma TurnFailsExactly(route: Route, c: Cursor)
    requires OnCourse(route, c) && c.sqrtPrice != route.priceLimit && c.remaining > 0
    ensures match TurnFailure(route, c)
      case Some(e) => Iterate(route, c) == Err(e)
      case None => Iterate(route, c).Ok?
  {
    PriceFailsExactly(route, c);
    if ReachFailure(route.direction, c.sqrtPrice, c.liquidity, c.remaining).None? {
      TargetIsAhead(route, c);
      StopIsAhead(route, c);
      if route.direction == BtoA {
        OwedUpExact(c.sqrtPrice, Target(route, c), c.liquidity);
        PaidUpExact(c.sqrtPrice, Target(route, c), c.liquidity);
      } else {
        OwedDownExact(c.sqrtPrice, Target(route, c), c.liquidity);
        PaidDownExact(c.sqrtPrice, Target(route, c), c.liquidity);
      }
    }
  }

  /** With 64-bit input and liquidity fewer things can go wrong. */
  function BoundedFailure(route: Route, c: Cursor): Option<AmmError>
    requires c.sqrtPrice > 0
  {
    if c.liquidity == 0 then
      Some(ZeroLiquidity)
    else
      var reach := Reach(route.direction, c.sqrtPrice, c.liquidity, c.remaining);
      if reach >= U128_LIMIT then
        Some(Overflow(Operation.NextSqrtPriceUp))
      else if reach == c.sqrtPrice then
        Some(NoProgress(c.remaining))
      else if CrossesBoundary(route, c) then
        CrossingFailure(route, c, NextBoundary(route, c.tick, c.sqrtPrice).value)
      else
        None
  }

  lemma BoundedReach(route: Route, c: Cursor)
    requires OnCourse(route, c) && c.remaining < Q64 && 0 < c.liquidity < Q64
    ensures ReachFailure(route.direction, c.sqrtPrice, c.liquidity, c.remaining)
         == if Reach(route.direction, c.sqrtPrice, c.liquidity, c.remaining) >= U128_LIMIT
            then Some(Overflow(Operation.NextSqrtPriceUp)) else None
  {
    if route.direction == BtoA {
      QuotientLe(c.remaining * Q64, c.liquidity);
    } else {
      DownFits(c.sqrtPrice, c.liquidity, c.remaining);
    }
  }

  lemma BoundedTurn(route: Route, from: U128, c: Cursor)
    requires OnCourse(route, c) && OutputBounded(route, from, c) && c.sqrtPrice != route.priceLimit
    requires 0 < c.remaining < Q64 && c.liquidity < Q64
    ensures TurnFailure(route, c) == BoundedFailure(route, c)
  {
    if c.liquidity > 0 {
      BoundedReach(route, c);
      if Reach(route.direction, c.sqrtPrice, c.liquidity, c.remaining) < U128_LIMIT {
        var next := Target(route, c);
        TargetIsAhead(route, c);
        StepFits(route.direction, c.sqrtPrice, next, c.liquidity);
        if route.direction == BtoA {
          OwedUpExact(c.sqrtPrice, next, c.liquidity);
          PaidUpExact(c.sqrtPrice, next, c.liquidity);
        } else {
          OwedDownExact(c.sqrtPrice, next, c.liquidity);
          PaidDownExact(c.sqrtPrice, next, c.liquidity);
        }
        OutputStaysBounded(route, from, c, next);
      }
    }
  }

  // ---------- a run ----------

  /** The run from the first cursor comes by the second with input left, short of the limit. */
  ghost predicate Meets(route: Route, c: Cursor, d: Cursor)
    decreases route.maxCrossings - c.crossings
  {
    && c.remaining > 0 && c.sqrtPrice != route.priceLimit
    && (c == d
        || (Iterate(route, c).Ok? && Iterate(route, c).value.More? && Meets(route, Iterate(route, c).value.cursor, d)))
  }

  ghost predicate FailsAt(route: Route, c: Cursor, d: Cursor, e: AmmError) {
    Meets(route, c, d) && OnCourse(route, d) && TurnFailure(route, d) == Some(e)
  }

  /** A run fails with an error exactly if some turn it comes to fails for that reason. */
  lemma {:induction false} WalkFailsExactly(route: Route, c: Cursor, e: AmmError)
    requires OnCourse(route, c)
    ensures Walk(route, c) == Err(e) <==> exists d :: FailsAt(route, c, d, e)
    decreases route.maxCrossings - c.crossings
  {
    if c.remaining > 0 && c.sqrtPrice != route.priceLimit {
      TurnFailsExactly(route, c);
      assert FailsAt(route, c, c, e) <==> Iterate(route, c) == Err(e);
      if Iterate(route, c).Ok? && Iterate(route, c).value.More? {
        var next := Iterate(route, c).value.cursor;
        IterateExact(route, c);
        WalkFailsExactly(route, next, e);
        assert forall d | d != c :: FailsAt(route, c, d, e) <==> FailsAt(route, next, d, e);
        assert !FailsAt(route, next, c, e);
      } else {
        assert forall d | d != c :: !FailsAt(route, c, d, e);
      }
    }
  }

  // ---------- a swap ----------

  /** Why a swap is refused before its first turn, if it is. */
  function UpFrontFailure(route: Route, state: PoolState): Option<AmmError> {
    if state.sqrtPrice == 0 then Some(InvalidSqrtPrice(0))
    else if state.liquidity == 0 then Some(ZeroLiquidity)
    else if Beyond(route.direction, state.sqrtPrice, route.priceLimit) then
      Some(UnreachablePriceLimit(state.sqrtPrice, route.priceLimit))
    else if state.feeRate >= FEE_DENOMINATOR then Some(InvalidFeeRate(state.feeRate))
    else None
  }

  /** A swap that is refused up front fails with that error. */
  lemma SwapIsRefused(route: Route, state: PoolState, amountIn: U128)
    ensures UpFrontFailure(route, state).Some? ==>
      Swapped(route, state, amountIn) == Err(UpFrontFailure(route, state).value)
  {
  }

  /**
   * Any other swap fails exactly if some turn it comes to fails, with that error; in every other case it
   * succeeds.
   */
  lemma SwapFailsAsItsRun(route: Route, state: PoolState, amountIn: U128, e: AmmError)
    requires UpFrontFailure(route, state).None?
    ensures Swapped(route, state, amountIn) == Err(e) <==>
      exists d :: FailsAt(route, Start(state, NetInput(state, amountIn)), d, e)
  {
    var c := Start(state, NetInput(state, amountIn));
    TakeFeeExact(amountIn, state.feeRate);
    WalkFailsExactly(route, c, e);
    if Walk(route, c).Ok? {
      WalkIsSound(route, state.sqrtPrice, c.remaining, c);
      FeeSplit(TakeFee(amountIn, state.feeRate).value.1, Walk(route, c).value.remaining, c.remaining);
    }
  }

  // ---------- over a built index ----------

  /** The run so far has crossed exactly the nodes passed, one crossing each. */
  ghost predicate InStepAt(route: Route, ix: Index, state: PoolState, c: Cursor) {
    && OnCourse(route, c)
    && Consistent(route.direction, ix.nodes, c.tick, c.sqrtPrice)
    && Reached(route.direction, c.sqrtPrice, state.sqrtPrice)
    && InStep(route.direction, state.sqrtPrice, state.liquidity, state.tick, ix.nodes, c)
    && c.crossings == |c.steps| == |OnTheWay(route.direction, ix.nodes, state.sqrtPrice, c.sqrtPrice)|
  }

  lemma TurnStaysInStep(route: Route, ix: Index, state: PoolState, c: Cursor)
    requires WellBuilt(ix) && route.source == AsSource(ix) && InStepAt(route, ix, state, c)
    requires c.remaining > 0 && c.sqrtPrice != route.priceLimit
    requires Iterate(route, c).Ok? && Iterate(route, c).value.More?
    ensures InStepAt(route, ix, state, Iterate(route, c).value.cursor)
    ensures Iterate(route, c).value.cursor.remaining <= c.remaining
  {
    TurnKeepsInStep(route, ix, state.sqrtPrice, state.liquidity, state.tick, c);
    IterateExact(route, c);
  }

  lemma {:induction false} MetInStep(route: Route, ix: Index, state: PoolState, c: Cursor, d: Cursor)
    requires WellBuilt(ix) && route.source == AsSource(ix) && InStepAt(route, ix, state, c)
    requires Meets(route, c, d)
    ensures InStepAt(route, ix, state, d) && 0 < d.remaining <= c.remaining && d.sqrtPrice != route.priceLimit
    decreases route.maxCrossings - c.crossings
  {
    if c != d {
      TurnStaysInStep(route, ix, state, c);
      IterateExact(route, c);
      MetInStep(route, ix, state, Iterate(route, c).value.cursor, d);
    }
  }

  /** A boundary about to be crossed is one node more on the way, and its net is in force beyond it. */
  lemma BoundaryIsOneMore(route: Route, ix: Index, state: PoolState, c: Cursor)
    requires WellBuilt(ix) && route.source == AsSource(ix) && InStepAt(route, ix, state, c)
    requires c.liquidity > 0 && c.remaining > 0 && c.sqrtPrice != route.priceLimit && CrossesBoundary(route, c)
    ensures var b := NextBoundary(route, c.tick, c.sqrtPrice).value; var next := Target(route, c);
      && Within(route, state.sqrtPrice, next)
      && LiquidityAt(route.direction, ix.nodes, state.sqrtPrice, state.liquidity, next)
         == c.liquidity + Signed(route.direction, b.liquidityNet)
      && |OnTheWay(route.direction, ix.nodes, state.sqrtPrice, next)| == c.crossings + 1
  {
    var next := Target(route, c);
    var n := NodeAhead(route.direction, ix, c.tick).value;
    StopIsAhead(route, c);
    WayOfOneStep(route, ix, c, next);
    BuiltIndexClimbs(ix);
    OnTheWayJoins(route.direction, ix.nodes, state.sqrtPrice, c.sqrtPrice, next);
    var before := OnTheWay(route.direction, ix.nodes, state.sqrtPrice, c.sqrtPrice);
    assert (before + [n])[..|before|] == before;
  }

  /** The nodes between the start and the limit. */
  function NodesToLimit(route: Route, ix: Index, from: nat): seq<TickNode> {
    OnTheWay(route.direction, ix.nodes, from, route.priceLimit)
  }

  lemma WayIsWithinLimit(route: Route, ix: Index, from: nat, to: nat)
    requires WellBuilt(ix) && Within(route, from, to)
    ensures |OnTheWay(route.direction, ix.nodes, from, to)| <= |NodesToLimit(route, ix, from)|
  {
    BuiltIndexClimbs(ix);
    OnTheWayJoins(route.direction, ix.nodes, from, to, route.priceLimit);
  }

  /** The liquidity in force at a price up to the limit. */
  function InForce(route: Route, ix: Index, state: PoolState, to: nat): int {
    LiquidityAt(route.direction, ix.nodes, state.sqrtPrice, state.liquidity, to)
  }

  /** An input no longer moves the price there. */
  predicate Stalls(route: Route, ix: Index, state: PoolState, amount: nat, to: nat) {
    to > 0 && InForce(route, ix, state, to) > 0 &&
      Reach(route.direction, to, InForce(route, ix, state, to), amount) == to
  }

  /** An input would move the price past 128 bits there. */
  predicate Overshoots(route: Route, ix: Index, state: PoolState, amount: nat, to: nat) {
    to > 0 && InForce(route, ix, state, to) > 0 &&
      Reach(route.direction, to, InForce(route, ix, state, to), amount) >= U128_LIMIT
  }

  /** What an error says about the index between the start and the limit. */
  ghost predicate Explained(route: Route, ix: Index, state: PoolState, amountIn: nat, e: AmmError) {
    match e
    case TooManyCrossings(most) =>
      most == route.maxCrossings < |NodesToLimit(route, ix, state.sqrtPrice)|
    case ZeroLiquidity =>
      exists to: nat :: Within(route, state.sqrtPrice, to) && InForce(route, ix, state, to) == 0
    case NoProgress(left) =>
      && route.direction == AtoB && 0 < left <= amountIn
      && exists to: nat :: Within(route, state.sqrtPrice, to) && Stalls(route, ix, state, left, to)
    case Overflow(NextSqrtPriceUp) =>
      && route.direction == BtoA
      && exists to: nat :: Within(route, state.sqrtPrice, to) && Overshoots(route, ix, state, amountIn, to)
    case _ => false
  }

  lemma InStepIsInForce(route: Route, ix: Index, state: PoolState, c: Cursor)
    requires InStepAt(route, ix, state, c)
    ensures Within(route, state.sqrtPrice, c.sqrtPrice) && c.liquidity == InForce(route, ix, state, c.sqrtPrice)
  {
  }

  lemma CrossingFailureIsExplained(route: Route, ix: Index, state: PoolState, amountIn: U64, c: Cursor)
    requires WellBuilt(ix) && route.source == AsSource(ix) && InStepAt(route, ix, state, c)
    requires SoundUpToLimit(route, ix.nodes, state.sqrtPrice, state.liquidity)
    requires c.liquidity > 0 && c.remaining > 0 && c.sqrtPrice != route.priceLimit && CrossesBoundary(route, c)
    ensures var failure := CrossingFailure(route, c, NextBoundary(route, c.tick, c.sqrtPrice).value);
      failure.Some? ==> Explained(route, ix, state, amountIn, failure.value)
  {
    var next := Target(route, c);
    BoundaryIsOneMore(route, ix, state, c);
    WayIsWithinLimit(route, ix, state.sqrtPrice, next);
    assert 0 <= LiquidityAt(route.direction, ix.nodes, state.sqrtPrice, state.liquidity, next) < Q64;
    SoundCrossing(route, c, NextBoundary(route, c.tick, c.sqrtPrice).value);
  }

  /** If what is in force beyond a boundary is a 64-bit number, only the count of crossings can stop it. */
  lemma SoundCrossing(route: Route, c: Cursor, b: Boundary)
    requires 0 <= c.liquidity + Signed(route.direction, b.liquidityNet) < Q64
    ensures CrossingFailure(route, c, b).Some? ==>
      CrossingFailure(route, c, b).value == TooManyCrossings(route.maxCrossings) && c.crossings >= route.maxCrossings
  {
  }

  lemma OvershootsForAll(route: Route, ix: Index, state: PoolState, c: Cursor, amountIn: nat)
    requires InStepAt(route, ix, state, c) && c.liquidity > 0 && c.remaining <= amountIn
    requires Reach(route.direction, c.sqrtPrice, c.liquidity, c.remaining) >= U128_LIMIT
    ensures route.direction == BtoA && Overshoots(route, ix, state, amountIn, c.sqrtPrice)
  {
    InStepIsInForce(route, ix, state, c);
    ReachMonotone(route.direction, c.sqrtPrice, c.liquidity, c.remaining, amountIn);
  }

  /** A turn that is in step fails only for a reason the index shows. */
  lemma TurnFailureIsExplained(route: Route, ix: Index, state: PoolState, amountIn: U64, c: Cursor)
    requires WellBuilt(ix) && route.source == AsSource(ix) && InStepAt(route, ix, state, c)
    requires SoundUpToLimit(route, ix.nodes, state.sqrtPrice, state.liquidity)
    requires 0 < c.remaining <= amountIn && c.sqrtPrice != route.priceLimit
    ensures BoundedFailure(route, c).Some? ==> Explained(route, ix, state, amountIn, BoundedFailure(route, c).value)
  {
    InStepIsInForce(route, ix, state, c);
    if c.liquidity > 0 {
      var reach := Reach(route.direction, c.sqrtPrice, c.liquidity, c.remaining);
      if reach >= U128_LIMIT {
        OvershootsForAll(route, ix, state, c, amountIn);
      } else if reach == c.sqrtPrice {
        StallsExactly(c.sqrtPrice, c.liquidity, c.remaining);
        assert Stalls(route, ix, state, c.remaining, c.sqrtPrice);
      } else if CrossesBoundary(route, c) {
        CrossingFailureIsExplained(route, ix, state, amountIn, c);
      }
    }
  }

  /** An input is too small to move the price exactly when one unit of price costs more. */
  lemma StallsExactly(from: nat, liquidity: nat, amount: nat)
    requires from > 0 && liquidity > 0
    ensures Reach(BtoA, from, liquidity, amount) == from <==> amount * Q64 < liquidity
    ensures Reach(AtoB, from, liquidity, amount) == from <==> amount * from * (from - 1) < liquidity * Q64
  {
    FloorAdjoint(amount * Q64, liquidity, 1);
    MulLe(0, amount, from);
    var scaled, spent := liquidity * Q64, amount * from;
    CeilAdjoint(scaled * from, scaled + spent, from - 1);
    assert (from - 1) * (scaled + spent) == scaled * from - scaled + spent * (from - 1);
  }

  lemma SetsOutInStep(route: Route, state: PoolState, ix: Index, c: Cursor)
    requires WellBuilt(ix) && route.source == AsSource(ix) && UpFrontFailure(route, state).None?
    requires Consistent(route.direction, ix.nodes, state.tick, state.sqrtPrice)
    requires SoundUpToLimit(route, ix.nodes, state.sqrtPrice, state.liquidity)
    requires c == Start(state, c.remaining)
    ensures InStepAt(route, ix, state, c) && ShallowThroughout(route, c)
    ensures OutputBounded(route, state.sqrtPrice, c)
  {
    OwedNothing(route.direction, state.sqrtPrice, Q64 - 1);
    NoneOnTheWay(route.direction, ix.nodes, state.sqrtPrice, state.sqrtPrice);
    IndexBoundsLiquidity(route, ix, state.sqrtPrice, state.liquidity, state.tick, c, 1);
  }

  /**
   * Over a built index from an agreeing start, with 64-bit input and liquidity up to the limit, crossing
   * never fails: no net is too large to negate, add or subtract. A swap that is not refused fails only for
   * too many nodes up to the limit, a dry range, going up a price sum that leaves 128 bits, or going down
   * an input too small to move the price.
   */
  lemma SoundIndexFailures(route: Route, state: PoolState, amountIn: U64, ix: Index)
    requires WellBuilt(ix) && route.source == AsSource(ix)
    requires Consistent(route.direction, ix.nodes, state.tick, state.sqrtPrice)
    requires SoundUpToLimit(route, ix.nodes, state.sqrtPrice, state.liquidity)
    requires UpFrontFailure(route, state).None? && Swapped(route, state, amountIn).Err?
    ensures Explained(route, ix, state, amountIn, Swapped(route, state, amountIn).error)
  {
    var c, e := Start(state, NetInput(state, amountIn)), Swapped(route, state, amountIn).error;
    SetsOutInStep(route, state, ix, c);
    FailureIsMet(route, state, amountIn);
    FailureIsExplained(route, ix, state, amountIn, c, e);
  }

  lemma FailureIsMet(route: Route, state: PoolState, amountIn: U64)
    requires UpFrontFailure(route, state).None? && Swapped(route, state, amountIn).Err?
    ensures NetInput(state, amountIn) <= amountIn
    ensures exists d ::
      FailsAt(route, Start(state, NetInput(state, amountIn)), d, Swapped(route, state, amountIn).error)
  {
    TakeFeeExact(amountIn, state.feeRate);
    SwapFailsAsItsRun(route, state, amountIn, Swapped(route, state, amountIn).error);
  }

  /** Bounds on input, liquidity and output hold wherever the run comes by. */
  lemma {:induction false} MetBounded(route: Route, from: U128, c: Cursor, d: Cursor)
    requires OnCourse(route, c) && OutputBounded(route, from, c) && c.remaining < Q64 && ShallowThroughout(route, c)
    requires Meets(route, c, d)
    ensures OnCourse(route, d) && OutputBounded(route, from, d) && d.remaining < Q64 && d.liquidity < Q64
    decreases route.maxCrossings - c.crossings
  {
    if c != d {
      TurnFits(route, from, c);
      IterateExact(route, c);
      MetBounded(route, from, Iterate(route, c).value.cursor, d);
    }
  }

  lemma FailureIsExplained(route: Route, ix: Index, state: PoolState, amountIn: U64, c: Cursor, e: AmmError)
    requires WellBuilt(ix) && route.source == AsSource(ix) && InStepAt(route, ix, state, c)
    requires SoundUpToLimit(route, ix.nodes, state.sqrtPrice, state.liquidity)
    requires OutputBounded(route, state.sqrtPrice, c) && ShallowThroughout(route, c)
    requires c.remaining <= amountIn && exists d :: FailsAt(route, c, d, e)
    ensures Explained(route, ix, state, amountIn, e)
  {
    var d :| FailsAt(route, c, d, e);
    MetInStep(route, ix, state, c, d);
    MetBounded(route, state.sqrtPrice, c, d);
    BoundedTurn(route, state.sqrtPrice, d);
    TurnFailureIsExplained(route, ix, state, amountIn, d);
  }

  /** Nowhere up to the limit less than this is in force. */
  ghost predicate NeverBelow(route: Route, nodes: seq<TickNode>, state: PoolState, least: nat) {
    forall to: nat | Within(route, state.sqrtPrice, to) ::
      least <= LiquidityAt(route.direction, nodes, state.sqrtPrice, state.liquidity, to) < Q64
  }

  /**
   * When a quote goes through: agreeing start inside the grid over a built index, 64-bit input, at every
   * price up to the limit 64-bit liquidity of two units or more, and no more nodes than may be crossed.
   * Going down what is left at some node may be too little to move the price; nothing else can fail.
   */
  lemma QuoteSucceeds(pool: Cetus.CetusClmm, ix: Index, direction: Direction, amountIn: U64)
    requires WellBuilt(ix) && Consistent(direction, ix.nodes, pool.tick, pool.sqrtPrice)
    requires UpFrontFailure(Cetus.RouteOver(ix, direction), pool.State()).None?
    requires NeverBelow(Cetus.RouteOver(ix, direction), ix.nodes, pool.State(), 2)
    requires |NodesToLimit(Cetus.RouteOver(ix, direction), ix, pool.sqrtPrice)| <= Cetus.MAX_TICK_CROSSINGS
    ensures var r := Cetus.Quoted(pool, ix, direction, amountIn);
      r.Ok? || (direction == AtoB && r.error.NoProgress?)
  {
    var route := Cetus.RouteOver(ix, direction);
    if Cetus.Quoted(pool, ix, direction, amountIn).Err? {
      SoundIndexFailures(route, pool.State(), amountIn, ix);
      OnlyOneUnitOverflows(pool, ix, direction, amountIn);
    }
  }
}
