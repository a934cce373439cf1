/** Selling what a run bought: a return run from an agreeing start never profits, one from the reported state can. */
module RoundTrips {
  import opened Wrappers
  import opened Arith
  import opened Checked
  import opened SwapMath
  import opened Swap
  import opened SwapProperties
  import opened SwapBounds
  import opened SplitRuns
  import opened TickIndex
  import opened TickIndexProperties
  import opened TickMath
  import opened Crossing
  import Cetus

  // ---------- the way out ----------

  ghost predicate NoneBetween(direction: Direction, nodes: seq<TickNode>, from: nat, to: nat) {
    forall n | n in nodes :: !(Beyond(direction, n.sqrtPrice, from) && Beyond(direction, to, n.sqrtPrice))
  }

  /** The node whose crossing joins two steps. */
  ghost predicate Joins(direction: Direction, n: TickNode, s: Step, next: Step) {
    n.sqrtPrice == s.sqrtPriceEnd && next.liquidity == s.liquidity + Signed(direction, n.liquidityNet)
  }

  ghost predicate JoinedByNode(direction: Direction, nodes: seq<TickNode>, s: Step, next: Step) {
    exists n :: n in nodes && Joins(direction, n, s, next)
  }

  /** Sound steps end to end, each inside one range, with a node crossed between any two. */
  ghost predicate Outbound(direction: Direction, nodes: seq<TickNode>, steps: seq<Step>, from: nat, to: nat) {
    && Trail(direction, steps, from, to)
    && (forall i | 0 <= i < |steps| :: NoneBetween(direction, nodes, steps[i].sqrtPriceStart, steps[i].sqrtPriceEnd))
    && (forall i, j | 0 <= i && j == i + 1 < |steps| :: JoinedByNode(direction, nodes, steps[i], steps[j]))
  }

  /** A trail only leads onwards. */
  lemma {:induction false} TrailLeadsOn(direction: Direction, steps: seq<Step>, from: nat, to: nat)
    requires Trail(direction, steps, from, to)
    ensures Reached(direction, to, from)
    ensures forall i | 0 <= i < |steps| ::
      Reached(direction, steps[i].sqrtPriceStart, from) && Reached(direction, to, steps[i].sqrtPriceEnd)
    decreases |steps|
  {
    if steps != [] {
      var n := |steps| - 1;
      TrailLeadsOn(direction, steps[..n], from, steps[n].sqrtPriceStart);
    }
  }

  /** Between two steps of a swap stands the node crossed there. */
  lemma NodesJoinSteps(
    direction: Direction, nodes: seq<TickNode>, state: PoolState, r: SwapResult, passed: seq<TickNode>)
    requires Crosses(direction, state.liquidity, state.tick, passed, r.steps, r.liquidityEnd, r.tickEnd)
    requires forall n | n in passed :: n in nodes
    ensures forall i, j | 0 <= i && j == i + 1 < |r.steps| :: JoinedByNode(direction, nodes, r.steps[i], r.steps[j])
  {
    forall i, j | 0 <= i && j == i + 1 < |r.steps|
      ensures JoinedByNode(direction, nodes, r.steps[i], r.steps[j])
    {
      assert passed[..j][..i] == passed[..i];
      assert passed[i] in passed && Joins(direction, passed[i], r.steps[i], r.steps[j]);
    }
  }

  /** A node strictly inside a step would have been passed, and so have ended a step of its own. */
  lemma NothingInsideAStep(
    direction: Direction, nodes: seq<TickNode>, state: PoolState, r: SwapResult, passed: seq<TickNode>, i: nat)
    requires i < |r.steps| && Trail(direction, r.steps, state.sqrtPrice, r.sqrtPriceEnd)
    requires Crosses(direction, state.liquidity, state.tick, passed, r.steps, r.liquidityEnd, r.tickEnd)
    requires forall n :: n in passed <==>
      n in nodes && Passed(direction, state.sqrtPrice, r.sqrtPriceEnd, n.sqrtPrice)
    ensures NoneBetween(direction, nodes, r.steps[i].sqrtPriceStart, r.steps[i].sqrtPriceEnd)
  {
    var s := r.steps[i];
    TrailLeadsOn(direction, r.steps, state.sqrtPrice, r.sqrtPriceEnd);
    forall n | n in nodes && Beyond(direction, n.sqrtPrice, s.sqrtPriceStart)
      ensures !Beyond(direction, s.sqrtPriceEnd, n.sqrtPrice)
    {
      if Beyond(direction, s.sqrtPriceEnd, n.sqrtPrice) {
        assert n in passed;
        var j :| 0 <= j < |passed| && passed[j] == n;
        StepsAreApart(direction, r.steps, state.sqrtPrice, r.sqrtPriceEnd, i, j);
      }
    }
  }

  /** Of two steps of a trail one ends before the other starts. */
  lemma {:induction false} StepsAreApart(
    direction: Direction, steps: seq<Step>, from: nat, to: nat, i: nat, j: nat)
    requires Trail(direction, steps, from, to) && i < |steps| && j < |steps|
    ensures j < i ==> Reached(direction, steps[i].sqrtPriceStart, steps[j].sqrtPriceEnd)
    ensures i < j ==> Reached(direction, steps[j].sqrtPriceEnd, steps[i].sqrtPriceEnd)
    decreases |steps|
  {
    var n := |steps| - 1;
    var front := steps[..n];
    assert Trail(direction, front, from, steps[n].sqrtPriceStart);
    TrailLeadsOn(direction, front, from, steps[n].sqrtPriceStart);
    if i < n && j < n {
      StepsAreApart(direction, front, from, steps[n].sqrtPriceStart, i, j);
    }
  }

  lemma CrossingsAreOutbound(
    direction: Direction, nodes: seq<TickNode>, state: PoolState, r: SwapResult, passed: seq<TickNode>)
    requires Trail(direction, r.steps, state.sqrtPrice, r.sqrtPriceEnd)
    requires Crosses(direction, state.liquidity, state.tick, passed, r.steps, r.liquidityEnd, r.tickEnd)
    requires forall n :: n in passed <==>
      n in nodes && Passed(direction, state.sqrtPrice, r.sqrtPriceEnd, n.sqrtPrice)
    ensures Outbound(direction, nodes, r.steps, state.sqrtPrice, r.sqrtPriceEnd)
  {
    NodesJoinSteps(direction, nodes, state, r, passed);
    forall i | 0 <= i < |r.steps|
      ensures NoneBetween(direction, nodes, r.steps[i].sqrtPriceStart, r.steps[i].sqrtPriceEnd)
    {
      NothingInsideAStep(direction, nodes, state, r, passed, i);
    }
  }

  /** The steps of a swap from an agreeing start over a built index are such. */
  lemma SwapIsOutbound(route: Route, state: PoolState, amountIn: U128, ix: Index)
    requires WellBuilt(ix) && route.source == AsSource(ix)
    requires Consistent(route.direction, ix.nodes, state.tick, state.sqrtPrice)
    requires Swapped(route, state, amountIn).Ok?
    ensures var r := Swapped(route, state, amountIn).value;
      Outbound(route.direction, ix.nodes, r.steps, state.sqrtPrice, r.sqrtPriceEnd)
  {
    var r := Swapped(route, state, amountIn).value;
    SwapIsSound(route, state, amountIn);
    SwapCrossesExactly(route, state, amountIn, ix);
    assert r.sqrtPriceStart == state.sqrtPrice;
    CrossingsAreOutbound(route.direction, ix.nodes, state, r,
                         OnTheWay(route.direction, ix.nodes, state.sqrtPrice, r.sqrtPriceEnd));
  }

  // ---------- the way back ----------

  /** The way back stands at the end of the way out, in the range of its last step, with no more than it bought. */
  ghost predicate TurnedBack(back: Route, ix: Index, steps: seq<Step>, from: nat, c: Cursor) {
    && WellBuilt(ix) && back.source == AsSource(ix) && OnCourse(back, c)
    && Outbound(Opposite(back.direction), ix.nodes, steps, from, c.sqrtPrice)
    && c.remaining <= SumOut(steps)
    && (steps != [] ==>
          && c.liquidity == steps[|steps| - 1].liquidity
          && Consistent(back.direction, ix.nodes, c.tick, c.sqrtPrice))
  }

  /** On the way back the first boundary is the node the last step started from, if it started from one. */
  lemma BoundaryOnTheWayBack(back: Route, ix: Index, steps: seq<Step>, from: nat, c: Cursor, n: TickNode)
    requires TurnedBack(back, ix, steps, from, c) && |steps| > 1 && n in ix.nodes
    requires n.sqrtPrice == steps[|steps| - 1].sqrtPriceStart
    ensures NextBoundary(back, c.tick, c.sqrtPrice) == Some(AsBoundary(n))
  {
    var direction := back.direction;
    BoundaryIsNearest(back, ix, c.tick, c.sqrtPrice);
    LookupIsNearest(direction, ix, c.tick, c.sqrtPrice);
    var found := NodeAhead(direction, ix, c.tick);
    assert Beyond(direction, n.sqrtPrice, c.sqrtPrice);
    BuiltIndexClimbs(ix);
    PricesFollowTicks(ix.nodes, found.value, n);
    PricesFollowTicks(ix.nodes, n, found.value);
  }

  /** Of the first step's range, no more can be bought back than it takes to return to its start. */
  lemma NeverPastTheStart(back: Direction, s: Step, remaining: nat)
    requires SoundStep(Opposite(back), s) && remaining <= s.amountOut
    ensures Reached(back, s.sqrtPriceStart, Reach(back, s.sqrtPriceEnd, s.liquidity, remaining))
  {
    var reach := Reach(back, s.sqrtPriceEnd, s.liquidity, remaining);
    Adjoint(back, s.sqrtPriceEnd, reach, s.liquidity, remaining);
    if Beyond(back, reach, s.sqrtPriceStart) {
      OvershootCostsMore(Opposite(back), s.sqrtPriceStart, s.sqrtPriceEnd, reach, s.liquidity);
    }
  }

  /** A turn back inside a step's range pays no more than the step took. */
  lemma BackPaysNoMoreThanIn(back: Direction, s: Step, to: nat)
    requires SoundStep(Opposite(back), s) && to > 0
    requires Reached(back, to, s.sqrtPriceEnd) && Reached(back, s.sqrtPriceStart, to)
    ensures Paid(back, s.sqrtPriceEnd, to, s.liquidity) <= s.amountIn
  {
    FartherMove(back, s.sqrtPriceEnd, to, s.sqrtPriceStart, s.liquidity);
    ReverseMove(Opposite(back), s.sqrtPriceStart, s.sqrtPriceEnd, s.liquidity);
  }

  /** Going all the way back over a step costs at least what it paid. */
  lemma BackCostsNoLessThanOut(back: Direction, s: Step)
    requires SoundStep(Opposite(back), s)
    ensures Reached(back, s.sqrtPriceStart, s.sqrtPriceEnd)
    ensures s.amountOut <= Owed(back, s.sqrtPriceEnd, s.sqrtPriceStart, s.liquidity)
  {
    ReverseMove(Opposite(back), s.sqrtPriceStart, s.sqrtPriceEnd, s.liquidity);
  }

  /** A turn back stays inside the last step's range. */
  lemma TurnsBackInside(back: Route, ix: Index, steps: seq<Step>, from: nat, c: Cursor)
    requires TurnedBack(back, ix, steps, from, c) && steps != []
    requires c.remaining > 0 && c.sqrtPrice != back.priceLimit
    ensures var s := steps[|steps| - 1];
      && s.liquidity > 0 && s.sqrtPriceEnd == c.sqrtPrice
      && Target(back, c) > 0 && Reached(back.direction, Target(back, c), c.sqrtPrice)
      && Reached(back.direction, s.sqrtPriceStart, Target(back, c))
  {
    var n := |steps| - 1;
    var s := steps[n];
    assert SoundStep(Opposite(back.direction), s);
    StopIsAhead(back, c);
    if n == 0 {
      assert SumOut(steps) == s.amountOut by {
        assert steps[..0] == [];
      }
      NeverPastTheStart(back.direction, s, c.remaining);
    } else {
      assert JoinedByNode(Opposite(back.direction), ix.nodes, steps[n - 1], s);
      var node :| node in ix.nodes && Joins(Opposite(back.direction), node, steps[n - 1], s);
      BoundaryOnTheWayBack(back, ix, steps, from, c, node);
    }
  }

  /** After crossing back over the last step, the way back stands at the end of the steps before. */
  lemma CrossedBack(back: Route, ix: Index, steps: seq<Step>, from: nat, c: Cursor)
    requires TurnedBack(back, ix, steps, from, c) && |steps| > 1
    requires c.remaining > 0 && c.sqrtPrice != back.priceLimit
    requires Iterate(back, c).Ok? && Iterate(back, c).value.More?
    ensures TurnedBack(back, ix, steps[..|steps| - 1], from, Iterate(back, c).value.cursor)
  {
    var n := |steps| - 1;
    var s, front := steps[n], steps[..n];
    var d := Iterate(back, c).value.cursor;
    assert JoinedByNode(Opposite(back.direction), ix.nodes, steps[n - 1], s);
    var node :| node in ix.nodes && Joins(Opposite(back.direction), node, steps[n - 1], s);
    BoundaryOnTheWayBack(back, ix, steps, from, c, node);
    IterateExact(back, c);
    BackCostsNoLessThanOut(back.direction, s);
    BuiltIndexClimbs(ix);
    CrossingKeepsConsistent(back.direction, ix.nodes, node);
    FrontIsOutbound(Opposite(back.direction), ix.nodes, steps, from, c.sqrtPrice);
  }

  lemma FrontIsOutbound(direction: Direction, nodes: seq<TickNode>, steps: seq<Step>, from: nat, to: nat)
    requires Outbound(direction, nodes, steps, from, to) && |steps| > 1
    ensures Outbound(direction, nodes, steps[..|steps| - 1], from, steps[|steps| - 1].sqrtPriceStart)
  {
  }

  /** The first step crossed back whole leaves nothing to spend. */
  lemma NothingLeftAtTheStart(back: Route, ix: Index, steps: seq<Step>, from: nat, c: Cursor)
    requires TurnedBack(back, ix, steps, from, c) && |steps| == 1
    requires c.remaining > 0 && c.sqrtPrice != back.priceLimit
    requires Iterate(back, c).Ok? && Iterate(back, c).value.More?
    ensures Iterate(back, c).value.cursor.remaining == 0
  {
    var s := steps[0];
    assert steps[..0] == [] && SumOut(steps) == s.amountOut;
    TurnsBackInside(back, ix, steps, from, c);
    IterateExact(back, c);
    BoundaryIsNearest(back, ix, c.tick, c.sqrtPrice);
    LookupIsNearest(back.direction, ix, c.tick, c.sqrtPrice);
    BackCostsNoLessThanOut(back.direction, s);
    var node := NodeAhead(back.direction, ix, c.tick).value;
    assert node.sqrtPrice == Target(back, c) && node in ix.nodes;
    assert NoneBetween(Opposite(back.direction), ix.nodes, s.sqrtPriceStart, s.sqrtPriceEnd);
    assert Target(back, c) == s.sqrtPriceStart;
  }

  /** The way back ends at or short of where the way out began, and returns no more than that took. */
  lemma {:induction false} WayBackNeverProfits(back: Route, ix: Index, steps: seq<Step>, from: nat, c: Cursor)
    requires TurnedBack(back, ix, steps, from, c) && Walk(back, c).Ok?
    ensures var end := Walk(back, c).value;
      Reached(back.direction, from, end.sqrtPrice) && end.amountOut - c.amountOut <= SumIn(steps)
    decreases |steps|
  {
    TrailLeadsOn(Opposite(back.direction), steps, from, c.sqrtPrice);
    if c.remaining > 0 && c.sqrtPrice != back.priceLimit {
      var s := steps[|steps| - 1];
      TurnsBackInside(back, ix, steps, from, c);
      IterateExact(back, c);
      BackPaysNoMoreThanIn(back.direction, s, Target(back, c));
      if Iterate(back, c).value.More? {
        if |steps| > 1 {
          CrossedBack(back, ix, steps, from, c);
          WayBackNeverProfits(back, ix, steps[..|steps| - 1], from, Iterate(back, c).value.cursor);
        } else {
          NothingLeftAtTheStart(back, ix, steps, from, c);
        }
      }
    }
  }

  lemma StandsTurnedBack(route: Route, state: PoolState, ix: Index, r: SwapResult, back: Route, c: Cursor)
    requires WellBuilt(ix) && back.source == AsSource(ix) && back.direction == Opposite(route.direction)
    requires Outbound(route.direction, ix.nodes, r.steps, state.sqrtPrice, r.sqrtPriceEnd)
    requires OnCourse(back, c) && c.sqrtPrice == r.sqrtPriceEnd
    requires c.remaining <= r.amountOut == SumOut(r.steps)
    requires r.steps != [] ==> c.liquidity == r.steps[|r.steps| - 1].liquidity
    requires Consistent(back.direction, ix.nodes, c.tick, c.sqrtPrice)
    ensures TurnedBack(back, ix, r.steps, state.sqrtPrice, c)
  {
    assert Opposite(back.direction) == route.direction;
  }

  /**
   * A whole round trip, any fee, any boundaries crossed: swap from an agreeing start over a built index,
   * then sell at most what that bought from the price and the range it ended in, at a tick that agrees for
   * the way back. That ends at or short of the first start, and returns no more than the first swap
   * consumed.
   */
  lemma RoundTripRunNeverProfits(
    route: Route, state: PoolState, amountIn: U128, ix: Index, back: Route, turned: PoolState, sold: U128,
    r: SwapResult, b: SwapResult)
    requires WellBuilt(ix) && route.source == AsSource(ix) && back.source == AsSource(ix)
    requires back.direction == Opposite(route.direction)
    requires Consistent(route.direction, ix.nodes, state.tick, state.sqrtPrice)
    requires Consistent(back.direction, ix.nodes, turned.tick, turned.sqrtPrice)
    requires Swapped(route, state, amountIn) == Ok(r) && Swapped(back, turned, sold) == Ok(b)
    requires turned.sqrtPrice == r.sqrtPriceEnd && sold <= r.amountOut
    requires r.steps != [] ==> turned.liquidity == r.steps[|r.steps| - 1].liquidity
    ensures Reached(back.direction, state.sqrtPrice, b.sqrtPriceEnd)
    ensures b.amountOut <= SumIn(r.steps) <= amountIn
  {
    SwapIsOutbound(route, state, amountIn, ix);
    SwapIsSound(route, state, amountIn);
    SwapConserves(route, state, amountIn);
    SwapIsWalk(back, turned, sold);
    TakeFeeExact(sold, turned.feeRate);
    var c := Start(turned, NetInput(turned, sold));
    StandsTurnedBack(route, state, ix, r, back, c);
    WayBackNeverProfits(back, ix, r.steps, state.sqrtPrice, c);
  }

  // ---------- from the reported state ----------

  /** Depth doubles at price 1.0: 2^40 units below it, 2^41 above. */
  const DEPTH: U128 := 0x100_0000_0000
  const DOUBLING_NODE: TickNode := TickNode(443_636, [], 0, 18446744073709551616, DEPTH)

  lemma DoublingNodeIsAccepted()
    ensures Built(None, false, [DOUBLING_NODE]).Ok?
    ensures WellBuilt(Built(None, false, [DOUBLING_NODE]).value)
    ensures Built(None, false, [DOUBLING_NODE]).value.nodes == [DOUBLING_NODE]
  {
    PricesAroundOne();
    assert SoundNode(DOUBLING_NODE);
    assert multiset([DOUBLING_NODE]) == multiset{DOUBLING_NODE};
    assert Accepted(multiset{DOUBLING_NODE}, DOUBLING_NODE);
    BuiltExact(None, false, [DOUBLING_NODE]);
    assert SortByTick([DOUBLING_NODE]) == [DOUBLING_NODE];
  }

  lemma AmountsUpToTheNode()
    ensures Owed(BtoA, 18442240474082181120, 18446744073709551616, DEPTH) == 268435456
    ensures Paid(BtoA, 18442240474082181120, 18446744073709551616, DEPTH) == 268501008
  {
  }

  lemma PriceUpFromTheNode()
    ensures Reach(BtoA, 18446744073709551616, 2 * DEPTH, 805306368) == 18453499473150607360
    ensures Paid(BtoA, 18446744073709551616, 18453499473150607360, 2 * DEPTH) == 805011563
  {
  }

  /** Up to the node, and over it. */
  lemma UpOverTheNode(route: Route, c: Cursor)
    requires route.direction == BtoA && route.priceLimit == MAX_SQRT_PRICE && route.maxCrossings == 64
    requires NextBoundary(route, c.tick, c.sqrtPrice) == Some(AsBoundary(DOUBLING_NODE))
    requires c.sqrtPrice == 18442240474082181120 && c.liquidity == DEPTH && c.remaining == 1073741824
    requires c.amountOut == 0 && c.crossings == 0
    ensures Iterate(route, c).Ok? && Iterate(route, c).value.More?
    ensures var d := Iterate(route, c).value.cursor;
      && d.sqrtPrice == 18446744073709551616 && d.liquidity == 2 * DEPTH && d.tick == 0 && d.crossings == 1
      && d.remaining == 805306368 && d.amountOut == 268501008
  {
    var next: U128 := 18446744073709551616;
    NextPriceUpFits(c.sqrtPrice, c.liquidity, c.remaining, next);
    NextPriceUpExact(c.sqrtPrice, c.liquidity, c.remaining, next);
    AmountsUpToTheNode();
    StepFits(BtoA, c.sqrtPrice, next, c.liquidity);
    OwedUpExact(c.sqrtPrice, next, c.liquidity);
    PaidUpExact(c.sqrtPrice, next, c.liquidity);
  }

  /** From the node on, until the input is used up. */
  lemma UpFromTheNode(route: Route, c: Cursor)
    requires route.direction == BtoA && route.priceLimit == MAX_SQRT_PRICE
    requires NextBoundary(route, c.tick, c.sqrtPrice).None?
    requires c.sqrtPrice == 18446744073709551616 && c.liquidity == 2 * DEPTH
    requires c.remaining == 805306368 && c.amountOut == 268501008
    ensures Iterate(route, c).Ok? && Iterate(route, c).value.Done?
    ensures var d := Iterate(route, c).value.cursor;
      && d.sqrtPrice == 18453499473150607360 && d.liquidity == c.liquidity && d.tick == c.tick
      && d.remaining == 0 && d.amountOut == 1073512571
  {
    var next: U128 := 18453499473150607360;
    PriceUpFromTheNode();
    NextPriceUpFits(c.sqrtPrice, c.liquidity, c.remaining, MAX_SQRT_PRICE);
    NextPriceUpExact(c.sqrtPrice, c.liquidity, c.remaining, MAX_SQRT_PRICE);
    StepFits(BtoA, c.sqrtPrice, next, c.liquidity);
    OwedUpExact(c.sqrtPrice, next, c.liquidity);
    PaidUpExact(c.sqrtPrice, next, c.liquidity);
  }

  lemma PriceDownPastTheNode()
    ensures Reach(AtoB, 18453499473150607360, 2 * DEPTH, 1073512571) == 18444491998992488650
    ensures Paid(AtoB, 18453499473150607360, 18444491998992488650, 2 * DEPTH) == 1073774595
  {
  }

  /** Down past the node without crossing it. */
  lemma DownPastTheNode(route: Route, c: Cursor)
    requires route.direction == AtoB && route.priceLimit == MIN_SQRT_PRICE
    requires NextBoundary(route, c.tick, c.sqrtPrice).None?
    requires c.sqrtPrice == 18453499473150607360 && c.liquidity == 2 * DEPTH
    requires c.remaining == 1073512571 && c.amountOut == 0
    ensures Iterate(route, c).Ok? && Iterate(route, c).value.Done?
    ensures Iterate(route, c).value.cursor.remaining == 0 && Iterate(route, c).value.cursor.amountOut == 1073774595
  {
    var next: U128 := 18444491998992488650;
    PriceDownPastTheNode();
    NextPriceDownFits(c.sqrtPrice, c.liquidity, c.remaining, MIN_SQRT_PRICE);
    NextPriceDownExact(c.sqrtPrice, c.liquidity, c.remaining, MIN_SQRT_PRICE);
    StepFits(AtoB, c.sqrtPrice, next, c.liquidity);
    OwedDownExact(c.sqrtPrice, next, c.liquidity);
    PaidDownExact(c.sqrtPrice, next, c.liquidity);
  }

  const BELOW_ONE: Cetus.CetusClmm := Cetus.CetusClmm(1, 0, DEPTH, 18442240474082181120, -5)

  /** Both turns up: to the node, and on from it. */
  lemma TwoTurnsUp(ix: Index, route: Route, c: Cursor)
    requires WellBuilt(ix) && ix.nodes == [DOUBLING_NODE] && route == Cetus.RouteOver(ix, BtoA)
    requires c == Cursor(18442240474082181120, DEPTH, -5, 1073741824, 0, 0, [])
    ensures Walk(route, c).Ok?
    ensures var d := Walk(route, c).value;
      && d.sqrtPrice == 18453499473150607360 && d.liquidity == 2 * DEPTH && d.tick == 0
      && d.remaining == 0 && d.amountOut == 1073512571
  {
    NextAboveIsScan(ix, -5);
    NextAboveIsScan(ix, 0);
    assert DOUBLING_NODE in ix.nodes;
    UpOverTheNode(route, c);
    var d := Iterate(route, c).value.cursor;
    UpFromTheNode(route, d);
    assert Walk(route, c) == Walk(route, d);
  }

  lemma QuoteOut(pool: Cetus.CetusClmm, ix: Index)
    requires WellBuilt(ix) && ix.nodes == [DOUBLING_NODE] && pool == BELOW_ONE
    ensures var r := Cetus.Quoted(pool, ix, BtoA, 1073741824);
      && r.Ok? && r.value.amountOut == 1073512571 && r.value.sqrtPriceEnd == 18453499473150607360
      && r.value.liquidityEnd == 2 * DEPTH && r.value.tickEnd == 0
  {
    TakeFeeExact(1073741824, 0);
    TwoTurnsUp(ix, Cetus.RouteOver(ix, BtoA), Start(pool.State(), 1073741824));
  }

  lemma QuoteBack(pool: Cetus.CetusClmm, ix: Index)
    requires WellBuilt(ix) && ix.nodes == [DOUBLING_NODE]
    requires pool == Cetus.CetusClmm(1, 0, 2 * DEPTH, 18453499473150607360, 0)
    ensures var r := Cetus.Quoted(pool, ix, AtoB, 1073512571);
      r.Ok? && r.value.amountOut == 1073774595
  {
    TakeFeeExact(1073512571, 0);
    NextBelowIsScan(ix, 0);
    assert DOUBLING_NODE in ix.nodes;
    DownPastTheNode(Cetus.RouteOver(ix, AtoB), Start(pool.State(), 1073512571));
  }

  /**
   * Quoting back from the state a quote reports can profit: the reported tick is the node crossed, which
   * the way down from above its price then misses. Selling 1073741824 B and then the A that buys returns
   * 32771 B more than were sold, although the way out starts agreeing.
   */
  lemma ReturnFromReportedStateProfits()
    ensures Built(None, false, [DOUBLING_NODE]).Ok?
    ensures var ix := Built(None, false, [DOUBLING_NODE]).value;
      var out := Cetus.Quoted(BELOW_ONE, ix, BtoA, 1073741824);
      && Consistent(BtoA, ix.nodes, BELOW_ONE.tick, BELOW_ONE.sqrtPrice) && out.Ok?
      && var r := out.value;
      var reported := Cetus.CetusClmm(1, 0, r.liquidityEnd, r.sqrtPriceEnd, r.tickEnd);
      var back := Cetus.Quoted(reported, ix, AtoB, r.amountOut);
      && !Consistent(AtoB, ix.nodes, reported.tick, reported.sqrtPrice)
      && back.Ok? && back.value.amountOut == 1073741824 + 32771
  {
    DoublingNodeIsAccepted();
    var ix := Built(None, false, [DOUBLING_NODE]).value;
    QuoteOut(BELOW_ONE, ix);
    QuoteBack(Cetus.CetusClmm(1, 0, 2 * DEPTH, 18453499473150607360, 0), ix);
    assert DOUBLING_NODE in ix.nodes;
  }
}
