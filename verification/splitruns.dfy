/** Splitting an input into two runs, one after the other, never beats one run with all of it. */
module SplitRuns {
  import opened Wrappers
  import opened Arith
  import opened Checked
  import opened SwapMath
  import opened Swap
  import opened SwapProperties

  /** A new run from where another one ended. */
  function Again(c: Cursor, input: U128): Cursor {
    Cursor(c.sqrtPrice, c.liquidity, c.tick, input, 0, 0, [])
  }

  /** A boundary still ahead stays the next one; one that was not ahead stays ignored. */
  lemma SameBoundary(route: Route, tick: I32, from: U128, mid: U128)
    requires Reached(route.direction, mid, from)
    requires NextBoundary(route, tick, from).Some? ==>
      Beyond(route.direction, NextBoundary(route, tick, from).value.sqrtPrice, mid)
    ensures NextBoundary(route, tick, mid) == NextBoundary(route, tick, from)
  {
  }

  /** A move by way of the price an input reaches costs no more than that input and the rest of the way. */
  lemma ByWayOfReach(direction: Direction, from: nat, to: nat, liquidity: nat, x: nat)
    requires from > 0 && to > 0 && liquidity > 0
    requires Reached(direction, to, Reach(direction, from, liquidity, x))
    ensures var mid := Reach(direction, from, liquidity, x);
      && Reached(direction, to, from)
      && Owed(direction, from, to, liquidity) <= x + Owed(direction, mid, to, liquidity)
      && Paid(direction, from, mid, liquidity) + Paid(direction, mid, to, liquidity)
           <= Paid(direction, from, to, liquidity)
  {
    var mid := Reach(direction, from, liquidity, x);
    Adjoint(direction, from, mid, liquidity, x);
    SplitMove(direction, from, mid, to, liquidity);
  }

  /** The first run has just run out short of its stop; a second one and a whole one face the same stop. */
  ghost predicate FacingOneStop(route: Route, c: Cursor, mid: Cursor, whole: Cursor) {
    && OnCourse(route, c) && OnCourse(route, mid) && c.liquidity > 0
    && c.sqrtPrice != route.priceLimit && mid.sqrtPrice != route.priceLimit
    && mid.sqrtPrice == Reach(route.direction, c.sqrtPrice, c.liquidity, c.remaining)
    && mid.liquidity == c.liquidity && mid.tick == c.tick
    && whole.sqrtPrice == c.sqrtPrice && whole.liquidity == c.liquidity && whole.tick == c.tick
    && whole.remaining >= c.remaining + mid.remaining
    && StopAt(route, mid) == StopAt(route, c)
    && NextBoundary(route, mid.tick, mid.sqrtPrice) == NextBoundary(route, c.tick, c.sqrtPrice)
  }

  /** The whole run gets at least as far, and cuts short where the second one does, with no less left. */
  lemma WholeTurnGetsFarther(route: Route, c: Cursor, mid: Cursor, whole: Cursor)
    requires FacingOneStop(route, c, mid, whole)
    ensures var direction, to := route.direction, Target(route, mid);
      && to > 0 && Target(route, whole) > 0
      && Reached(direction, to, mid.sqrtPrice) && Reached(direction, to, c.sqrtPrice)
      && Reached(direction, Target(route, whole), to)
      && (CutShort(route, mid) ==>
            && CutShort(route, whole)
            && Owed(direction, c.sqrtPrice, to, c.liquidity)
                 <= c.remaining + Owed(direction, mid.sqrtPrice, to, c.liquidity))
  {
    var direction, to := route.direction, Target(route, mid);
    StopIsAhead(route, mid);
    ByWayOfReach(direction, c.sqrtPrice, to, c.liquidity, c.remaining);
    Adjoint(direction, mid.sqrtPrice, to, c.liquidity, mid.remaining);
    Adjoint(direction, c.sqrtPrice, to, c.liquidity, whole.remaining);
  }

  lemma WholeTurnPaysMore(route: Route, c: Cursor, mid: Cursor, whole: Cursor)
    requires FacingOneStop(route, c, mid, whole)
    ensures var direction, to, end := route.direction, Target(route, mid), Target(route, whole);
      && to > 0 && end > 0 && Reached(direction, mid.sqrtPrice, c.sqrtPrice)
      && Reached(direction, to, mid.sqrtPrice) && Reached(direction, end, c.sqrtPrice)
      && Paid(direction, c.sqrtPrice, mid.sqrtPrice, c.liquidity) + Paid(direction, mid.sqrtPrice, to, c.liquidity)
           <= Paid(direction, c.sqrtPrice, end, c.liquidity)
  {
    WholeTurnGetsFarther(route, c, mid, whole);
    var direction, to := route.direction, Target(route, mid);
    ByWayOfReach(direction, c.sqrtPrice, to, c.liquidity, c.remaining);
    FartherMove(direction, c.sqrtPrice, to, Target(route, whole), c.liquidity);
  }

  /** A run, a second one from where it ended, and a run that starts with both inputs. */
  ghost predicate Splits(route: Route, c: Cursor, y: U128, whole: Cursor) {
    && OnCourse(route, c) && Alongside(c, whole) && whole.remaining >= c.remaining + y
    && Walk(route, c).Ok? && Walk(route, whole).Ok?
    && Walk(route, Again(Walk(route, c).value, y)).Ok?
  }

  ghost predicate PaysNoMore(route: Route, c: Cursor, y: U128, whole: Cursor)
    requires Splits(route, c, y, whole)
  {
    var first, all := Walk(route, c).value, Walk(route, whole).value;
    var second := Walk(route, Again(first, y)).value;
    && Reached(route.direction, all.sqrtPrice, second.sqrtPrice)
    && first.amountOut - c.amountOut + second.amountOut <= all.amountOut - whole.amountOut
  }

  /** The first run ends its turn at the limit, or the second has nothing to spend: monotonicity is enough. */
  lemma SecondRunStandsStill(route: Route, c: Cursor, y: U128, whole: Cursor)
    requires Splits(route, c, y, whole)
    requires y == 0 || Walk(route, c).value.sqrtPrice == route.priceLimit
    ensures PaysNoMore(route, c, y, whole)
  {
    WalkMonotone(route, c, whole);
  }

  /** A turn that ends a run short of its stop leaves a second run facing the same stop. */
  lemma FirstRunStopsShort(route: Route, c: Cursor, y: U128, whole: Cursor)
    requires Splits(route, c, y, whole) && c.remaining > 0 && c.sqrtPrice != route.priceLimit
    requires Iterate(route, c).value.Done? && !CutShort(route, c)
    ensures FacingOneStop(route, c, Again(Walk(route, c).value, y), whole)
  {
    IterateExact(route, c);
    StopIsAhead(route, c);
    SameBoundary(route, c.tick, c.sqrtPrice, Walk(route, c).value.sqrtPrice);
  }

  /** The second run's first turn against the whole run's. */
  lemma SecondRunTurns(route: Route, c: Cursor, y: U128, whole: Cursor)
    requires Splits(route, c, y, whole) && c.remaining > 0 && c.sqrtPrice != route.priceLimit && y > 0
    requires Iterate(route, c).value.Done? && !CutShort(route, c)
    ensures PaysNoMore(route, c, y, whole)
  {
    var first := Walk(route, c).value;
    var mid := Again(first, y);
    FirstRunStopsShort(route, c, y, whole);
    WholeTurnGetsFarther(route, c, mid, whole);
    WholeTurnPaysMore(route, c, mid, whole);
    IterateExact(route, c);
    IterateExact(route, mid);
    IterateExact(route, whole);
    var p, q := Iterate(route, mid).value, Iterate(route, whole).value;
    if p.More? {
      WalkMonotone(route, p.cursor, q.cursor);
    } else if q.More? {
      WalkOnlyAdvances(route, q.cursor);
    }
  }

  lemma {:induction false} SplitWalks(route: Route, c: Cursor, y: U128, whole: Cursor)
    requires Splits(route, c, y, whole)
    ensures PaysNoMore(route, c, y, whole)
    decreases route.maxCrossings - c.crossings
  {
    if c.remaining == 0 || c.sqrtPrice == route.priceLimit {
      WalkMonotone(route, Again(c, y), whole);
    } else if Iterate(route, c).value.More? {
      IterateExact(route, c);
      TurnsAlongside(route, c, whole);
      IterateExact(route, whole);
      SplitWalks(route, Iterate(route, c).value.cursor, y, Iterate(route, whole).value.cursor);
    } else if y == 0 || CutShort(route, c) {
      IterateExact(route, c);
      SecondRunStandsStill(route, c, y, whole);
    } else {
      SecondRunTurns(route, c, y, whole);
    }
  }

  /** The pool as a swap leaves it. */
  function After(state: PoolState, r: SwapResult): PoolState {
    PoolState(r.sqrtPriceEnd, r.liquidityEnd, r.tickEnd, state.feeRate)
  }

  /** What a fee leaves of an input. */
  function NetInput(state: PoolState, amountIn: U128): U128
    requires state.feeRate < FEE_DENOMINATOR
  {
    TakeFeeExact(amountIn, state.feeRate);
    TakeFee(amountIn, state.feeRate).value.0
  }

  /** A swap is the walk of its net input. */
  lemma SwapIsWalk(route: Route, state: PoolState, amountIn: U128)
    requires Swapped(route, state, amountIn).Ok?
    ensures state.feeRate < FEE_DENOMINATOR
    ensures var c := Start(state, NetInput(state, amountIn)); var r := Swapped(route, state, amountIn).value;
      && OnCourse(route, c) && Walk(route, c).Ok?
      && r.amountOut == Walk(route, c).value.amountOut && r.sqrtPriceEnd == Walk(route, c).value.sqrtPrice
      && Start(After(state, r), 0) == Again(Walk(route, c).value, 0)
  {
    assert TakeFee(amountIn, state.feeRate).Ok?;
  }

  /**
   * Whatever boundaries the runs cross, whatever the tick source answers and whatever the fee: swapping
   * one input and then another ends no farther and pays no more than one swap whose net input is at least
   * the sum of theirs.
   */
  lemma SplittingARunNeverPaysMore(route: Route, state: PoolState, x: U128, y: U128, both: U128)
    requires Swapped(route, state, x).Ok? && Swapped(route, state, both).Ok?
    requires Swapped(route, After(state, Swapped(route, state, x).value), y).Ok?
    requires state.feeRate < FEE_DENOMINATOR ==> NetInput(state, x) + NetInput(state, y) <= NetInput(state, both)
    ensures var first, whole := Swapped(route, state, x).value, Swapped(route, state, both).value;
      var second := Swapped(route, After(state, first), y).value;
      && Reached(route.direction, whole.sqrtPriceEnd, second.sqrtPriceEnd)
      && first.amountOut + second.amountOut <= whole.amountOut
  {
    var after := After(state, Swapped(route, state, x).value);
    SwapIsWalk(route, state, x);
    SwapIsWalk(route, after, y);
    SwapIsWalk(route, state, both);
    var c := Start(state, NetInput(state, x));
    assert Start(after, NetInput(state, y)) == Again(Walk(route, c).value, NetInput(state, y));
    SplitWalks(route, c, NetInput(state, y), Start(state, NetInput(state, both)));
  }

  /** With a fee the parts can keep one unit more: their fees round down apart. */
  lemma FeesOfPartsRoundApart(x: U128, y: U128, feeRate: U64)
    requires x + y < U128_LIMIT && feeRate < FEE_DENOMINATOR
    ensures TakeFee(x, feeRate).Ok? && TakeFee(y, feeRate).Ok? && TakeFee(x + y, feeRate).Ok?
    ensures var parts := TakeFee(x, feeRate).value.0 + TakeFee(y, feeRate).value.0;
      var whole := TakeFee(x + y, feeRate).value.0;
      && whole <= parts <= whole + 1
      && (x == 1 && y == 1 && feeRate == 500_000 ==> parts == whole + 1)
  {
    TakeFeeExact(x, feeRate);
    TakeFeeExact(y, feeRate);
    TakeFeeExact(x + y, feeRate);
    assert (x + y) * feeRate == x * feeRate + y * feeRate;
  }
}
