/** Which ticks a swap crosses when its starting tick and price do not agree: exactly which it misses. */
module MissedTicks {
  import opened Wrappers
  import opened Checked
  import opened SwapMath
  import opened Swap
  import opened SwapProperties
  import opened SwapBounds
  import opened TickIndex
  import opened TickIndexProperties
  import opened TickMath
  import opened Crossing
  import Cetus

  predicate IndexBeyond(direction: Direction, index: int, tick: int) {
    match direction
    case BtoA => index > tick
    case AtoB => index < tick
  }

  /** One unit short of a price. */
  function Short(direction: Direction, price: U128): nat
    requires price > 0
  {
    if direction == BtoA then price - 1 else price + 1
  }

  /** The nodes a run meets: those from its first boundary on, or none if it starts with no boundary. */
  ghost function Met(route: Route, ix: Index, state: PoolState, end: nat): seq<TickNode> {
    var first := NextBoundary(route, state.tick, state.sqrtPrice);
    if first.None? || first.value.sqrtPrice == 0 then []
    else OnTheWay(route.direction, ix.nodes, Short(route.direction, first.value.sqrtPrice), end)
  }

  /** The first boundary of a run, wherever it starts, is the nearest node beyond its tick. */
  lemma FirstBoundary(route: Route, ix: Index, tick: I32, price: U128)
    requires WellBuilt(ix) && route.source == AsSource(ix) && NextBoundary(route, tick, price).Some?
    ensures var b := NextBoundary(route, tick, price).value; var found := NodeAhead(route.direction, ix, tick);
      && found.Some? && found.value in ix.nodes && b == AsBoundary(found.value) && b.sqrtPrice > 0
      && IndexBeyond(route.direction, found.value.index, tick)
      && (forall m | m in ix.nodes && IndexBeyond(route.direction, m.index, tick) ::
            !IndexBeyond(route.direction, found.value.index, m.index))
  {
    BuiltIndexClimbs(ix);
    NextAboveIsScan(ix, tick);
    NextBelowIsScan(ix, tick);
  }

  /** A run meets exactly the nodes it passes whose tick lies beyond its starting tick, if it has a boundary at all. */
  lemma MetExactly(route: Route, ix: Index, state: PoolState, end: nat)
    requires WellBuilt(ix) && route.source == AsSource(ix)
    ensures forall n :: n in Met(route, ix, state, end) <==>
      && NextBoundary(route, state.tick, state.sqrtPrice).Some?
      && n in ix.nodes && Passed(route.direction, state.sqrtPrice, end, n.sqrtPrice)
      && IndexBeyond(route.direction, n.index, state.tick)
  {
    var first := NextBoundary(route, state.tick, state.sqrtPrice);
    if first.Some? {
      FirstBoundary(route, ix, state.tick, state.sqrtPrice);
      BuiltIndexClimbs(ix);
      var f := NodeAhead(route.direction, ix, state.tick).value;
      OnTheWayIn(route.direction, ix.nodes, Short(route.direction, f.sqrtPrice), end);
      forall n | n in ix.nodes
        ensures Passed(route.direction, Short(route.direction, f.sqrtPrice), end, n.sqrtPrice) <==>
          && Passed(route.direction, state.sqrtPrice, end, n.sqrtPrice)
          && IndexBeyond(route.direction, n.index, state.tick)
      {
        PricesFollowTicks(ix.nodes, n, f);
        PricesFollowTicks(ix.nodes, f, n);
      }
    }
  }

  /** From one unit short of a node to its price there is that node only, and nothing before it. */
  lemma AroundOneNode(direction: Direction, ix: Index, f: TickNode, to: nat)
    requires WellBuilt(ix) && f in ix.nodes && f.sqrtPrice > 0
    ensures OnTheWay(direction, ix.nodes, Short(direction, f.sqrtPrice), f.sqrtPrice) == [f]
    ensures Beyond(direction, f.sqrtPrice, to) ==>
      OnTheWay(direction, ix.nodes, Short(direction, f.sqrtPrice), to) == []
  {
    BuiltIndexClimbs(ix);
    var short := Short(direction, f.sqrtPrice);
    forall m | m in ix.nodes && Passed(direction, short, f.sqrtPrice, m.sqrtPrice)
      ensures m == f
    {
      PricesFollowTicks(ix.nodes, m, f);
      PricesFollowTicks(ix.nodes, f, m);
    }
    OneOnTheWay(direction, ix.nodes, short, f.sqrtPrice, f);
    if Beyond(direction, f.sqrtPrice, to) {
      NoneOnTheWay(direction, ix.nodes, short, to);
    }
  }

  /** A turn that does not cross its boundary stops before it. */
  lemma StopsBefore(route: Route, c: Cursor)
    requires OnCourse(route, c) && c.liquidity > 0 && c.sqrtPrice != route.priceLimit
    requires NextBoundary(route, c.tick, c.sqrtPrice).Some? && !CrossesBoundary(route, c)
    ensures Beyond(route.direction, NextBoundary(route, c.tick, c.sqrtPrice).value.sqrtPrice, Target(route, c))
  {
  }

  /** A first turn that goes on has crossed the first boundary, and from there tick and price agree. */
  lemma FirstTurnLands(route: Route, ix: Index, c: Cursor, f: TickNode)
    requires WellBuilt(ix) && f in ix.nodes && f.sqrtPrice > 0 && OnCourse(route, c)
    requires c.remaining > 0 && c.sqrtPrice != route.priceLimit && c.steps == []
    requires NextBoundary(route, c.tick, c.sqrtPrice) == Some(AsBoundary(f))
    requires Iterate(route, c).Ok? && Iterate(route, c).value.More?
    ensures var d := Iterate(route, c).value.cursor; var short := Short(route.direction, f.sqrtPrice);
      && d.sqrtPrice == f.sqrtPrice && d.tick == f.index && |d.steps| == 1
      && OnTheWay(route.direction, ix.nodes, short, d.sqrtPrice) == [f]
      && InStep(route.direction, short, c.liquidity, c.tick, ix.nodes, d)
  {
    TurnShape(route, c);
    var d := Iterate(route, c).value.cursor;
    var s := d.steps[0];
    assert d.steps == [] + [s];
    AroundOneNode(route.direction, ix, f, d.sqrtPrice);
    CrossesOneMore(route.direction, c.liquidity, c.tick, [], f, [], s, c.liquidity, c.tick);
    assert [] + [f] == [f];
  }

  /** A first turn that ends the run has crossed nothing. */
  lemma FirstTurnStops(route: Route, ix: Index, c: Cursor, f: TickNode)
    requires WellBuilt(ix) && f in ix.nodes && f.sqrtPrice > 0 && OnCourse(route, c)
    requires c.remaining > 0 && c.sqrtPrice != route.priceLimit && c.steps == []
    requires NextBoundary(route, c.tick, c.sqrtPrice) == Some(AsBoundary(f))
    requires Iterate(route, c).Ok? && Iterate(route, c).value.Done?
    ensures var d := Iterate(route, c).value.cursor;
      InStep(route.direction, Short(route.direction, f.sqrtPrice), c.liquidity, c.tick, ix.nodes, d)
  {
    TurnShape(route, c);
    var d := Iterate(route, c).value.cursor;
    var s := d.steps[0];
    assert d.steps == [] + [s];
    StopsBefore(route, c);
    AroundOneNode(route.direction, ix, f, d.sqrtPrice);
    CrossesNoMore(route.direction, c.liquidity, c.tick, [], [], s, c.liquidity, c.tick);
  }

  lemma LandedOnNode(direction: Direction, ix: Index, f: TickNode)
    requires WellBuilt(ix) && f in ix.nodes
    ensures Consistent(direction, ix.nodes, f.index, f.sqrtPrice)
  {
    BuiltIndexClimbs(ix);
    CrossingKeepsConsistent(direction, ix.nodes, f);
  }

  lemma RunWithBoundary(route: Route, ix: Index, c: Cursor, f: TickNode)
    requires WellBuilt(ix) && route.source == AsSource(ix) && f in ix.nodes && f.sqrtPrice > 0 && OnCourse(route, c)
    requires c.remaining > 0 && c.sqrtPrice != route.priceLimit && c.steps == []
    requires NextBoundary(route, c.tick, c.sqrtPrice) == Some(AsBoundary(f)) && Walk(route, c).Ok?
    ensures InStep(route.direction, Short(route.direction, f.sqrtPrice), c.liquidity, c.tick, ix.nodes,
                   Walk(route, c).value)
  {
    if Iterate(route, c).value.More? {
      FirstTurnLands(route, ix, c, f);
      IterateExact(route, c);
      LandedOnNode(route.direction, ix, f);
      WalkCrossesExactly(route, ix, Short(route.direction, f.sqrtPrice), c.liquidity, c.tick,
                         Iterate(route, c).value.cursor);
    } else {
      FirstTurnStops(route, ix, c, f);
    }
  }

  /**
   * A successful swap over a built index crosses exactly the nodes it meets, whether or not its starting
   * tick agrees with its starting price.
   */
  lemma SwapCrossesWhatItMeets(route: Route, state: PoolState, amountIn: U128, ix: Index)
    requires WellBuilt(ix) && route.source == AsSource(ix)
    requires Swapped(route, state, amountIn).Ok?
    ensures var r := Swapped(route, state, amountIn).value;
      Crosses(route.direction, state.liquidity, state.tick, Met(route, ix, state, r.sqrtPriceEnd),
              r.steps, r.liquidityEnd, r.tickEnd)
  {
    var c := Start(state, TakeFee(amountIn, state.feeRate).value.0);
    var end := Walk(route, c).value.sqrtPrice;
    var first := NextBoundary(route, state.tick, state.sqrtPrice);
    if first.Some? {
      FirstBoundary(route, ix, state.tick, state.sqrtPrice);
    }
    if c.remaining == 0 || c.sqrtPrice == route.priceLimit {
      if first.Some? {
        NoneOnTheWay(route.direction, ix.nodes, Short(route.direction, first.value.sqrtPrice), end);
      }
    } else if first.Some? {
      RunWithBoundary(route, ix, c, NodeAhead(route.direction, ix, state.tick).value);
    } else {
      TurnShape(route, c);
      assert Iterate(route, c).value.Done?;
    }
  }

  /**
   * So a passed tick is missed exactly when it does not lie beyond the starting tick, or when the nearest
   * one that does was not ahead of the starting price. Going down from above the price of a tick that is
   * the starting tick itself, that tick is missed.
   */
  lemma MissedExactlyWhen(route: Route, state: PoolState, amountIn: U128, ix: Index, n: TickNode)
    requires WellBuilt(ix) && route.source == AsSource(ix) && Swapped(route, state, amountIn).Ok? && n in ix.nodes
    requires Passed(route.direction, state.sqrtPrice, Swapped(route, state, amountIn).value.sqrtPriceEnd, n.sqrtPrice)
    ensures n !in Met(route, ix, state, Swapped(route, state, amountIn).value.sqrtPriceEnd) <==>
      NextBoundary(route, state.tick, state.sqrtPrice).None? || !IndexBeyond(route.direction, n.index, state.tick)
  {
    MetExactly(route, ix, state, Swapped(route, state, amountIn).value.sqrtPriceEnd);
  }

  // ---------- a quote that misses a tick ----------

  const OWN_NODE: TickNode := TickNode(443_636, [], 0, 18446744073709551616, 1)

  lemma OwnNodeIsAccepted()
    ensures Built(None, false, [OWN_NODE]).Ok?
    ensures WellBuilt(Built(None, false, [OWN_NODE]).value)
    ensures Built(None, false, [OWN_NODE]).value.nodes == [OWN_NODE]
  {
    PricesAroundOne();
    assert SoundNode(OWN_NODE);
    assert multiset([OWN_NODE]) == multiset{OWN_NODE};
    assert Accepted(multiset{OWN_NODE}, OWN_NODE);
    BuiltExact(None, false, [OWN_NODE]);
    assert SortByTick([OWN_NODE]) == [OWN_NODE];
  }

  const ABOVE_OWN: Cetus.CetusClmm := Cetus.CetusClmm(1, 0, 0x8000_0000_0000_0000, 18446744073709551618, 0)

  /** One turn of the quote: with no boundary below tick 0, it runs to the price its input reaches. */
  lemma OneTurnDown(ix: Index, pool: Cetus.CetusClmm)
    requires WellBuilt(ix) && ix.nodes == [OWN_NODE] && pool == ABOVE_OWN
    ensures var r := Cetus.Quoted(pool, ix, AtoB, 2);
      r.Ok? && r.value.sqrtPriceEnd == 18446744073709551615 && r.value.liquidityEnd == pool.liquidity
  {
    TakeFeeExact(2, 0);
    NextBelowIsScan(ix, 0);
    assert OWN_NODE in ix.nodes;
    OneTurnToward(Cetus.RouteOver(ix, AtoB), Start(pool.State(), 2));
  }

  lemma OneTurnToward(route: Route, c: Cursor)
    requires route.direction == AtoB && route.priceLimit == MIN_SQRT_PRICE
    requires c == Start(ABOVE_OWN.State(), 2) && NextBoundary(route, c.tick, c.sqrtPrice).None?
    ensures Iterate(route, c).Ok? && Iterate(route, c).value.Done?
    ensures var d := Iterate(route, c).value.cursor;
      d.sqrtPrice == 18446744073709551615 && d.liquidity == c.liquidity && d.remaining == 0
  {
    NextPriceDownFits(c.sqrtPrice, c.liquidity, 2, MIN_SQRT_PRICE);
    NextPriceDownExact(c.sqrtPrice, c.liquidity, 2, MIN_SQRT_PRICE);
    StepFits(AtoB, c.sqrtPrice, 18446744073709551615, c.liquidity);
    OwedDownExact(c.sqrtPrice, 18446744073709551615, c.liquidity);
    PaidDownExact(c.sqrtPrice, 18446744073709551615, c.liquidity);
    PaidFits(AtoB, c.sqrtPrice, 18446744073709551615, c.liquidity);
  }

  /**
   * A pool just above the price of its own tick, which is initialised and validly so: a quote down to
   * below that price passes the tick and leaves its liquidity in force.
   */
  lemma OwnTickIsMissedGoingDown()
    ensures Built(None, false, [OWN_NODE]).Ok?
    ensures var ix := Built(None, false, [OWN_NODE]).value;
      var r := Cetus.Quoted(ABOVE_OWN, ix, AtoB, 2);
      && FloorTick(ABOVE_OWN.sqrtPrice) == ABOVE_OWN.tick && r.Ok?
      && Passed(AtoB, ABOVE_OWN.sqrtPrice, r.value.sqrtPriceEnd, OWN_NODE.sqrtPrice)
      && r.value.liquidityEnd == ABOVE_OWN.liquidity
  {
    OwnNodeIsAccepted();
    OneTurnDown(Built(None, false, [OWN_NODE]).value, ABOVE_OWN);
    PricesAroundOne();
    FloorTickIs(ABOVE_OWN.sqrtPrice, 0);
  }
}
