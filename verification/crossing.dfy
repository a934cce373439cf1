/** Which ticks a swap over a built index crosses: exactly the initialised ones the price passes. */
module Crossing {
  import opened Wrappers
  import opened Checked
  import opened SwapMath
  import opened Swap
  import opened SwapProperties
  import opened TickIndex
  import opened TickIndexProperties
  import opened TickMath

  /** Ticks and stored prices both strictly increase. */
  ghost predicate Climbs(nodes: seq<TickNode>) {
    forall i, j | 0 <= i < j < |nodes| ::
      nodes[i].index < nodes[j].index && nodes[i].sqrtPrice < nodes[j].sqrtPrice
  }

  /** In a built index the stored prices strictly increase with the tick, tolerance and all. */
  lemma BuiltIndexClimbs(ix: Index)
    requires WellBuilt(ix)
    ensures Climbs(ix.nodes)
    ensures forall n | n in ix.nodes :: n.sqrtPrice > 0
  {
    forall i, j | 0 <= i < j < |ix.nodes|
      ensures ix.nodes[i].sqrtPrice < ix.nodes[j].sqrtPrice
    {
      StoredPricesIncrease(ix.nodes[i].index, ix.nodes[j].index, ix.nodes[i].sqrtPrice, ix.nodes[j].sqrtPrice);
    }
    forall n | n in ix.nodes
      ensures n.sqrtPrice > 0
    {
      PriceAtLeastMin(n.index);
    }
  }

  /** The price passes a tick's price, or lands on it. */
  predicate Passed(direction: Direction, from: nat, to: nat, price: nat) {
    Beyond(direction, price, from) && Reached(direction, to, price)
  }

  /** A way with a lower node put in its place, if that is on the way too. */
  function WithLower(direction: Direction, hit: bool, n: TickNode, way: seq<TickNode>): seq<TickNode> {
    if !hit then way else if direction == BtoA then [n] + way else way + [n]
  }

  /** The nodes passed between two prices, in order of travel. */
  function OnTheWay(direction: Direction, nodes: seq<TickNode>, from: nat, to: nat): seq<TickNode> {
    if nodes == [] then
      []
    else
      WithLower(direction, Passed(direction, from, to, nodes[0].sqrtPrice), nodes[0],
                OnTheWay(direction, nodes[1..], from, to))
  }

  function Signed(direction: Direction, net: int): int {
    if direction == BtoA then net else -net
  }

  /** The liquidity change of crossing some nodes in a direction. */
  function NetOf(direction: Direction, nodes: seq<TickNode>): int {
    if nodes == [] then 0
    else NetOf(direction, nodes[..|nodes| - 1]) + Signed(direction, nodes[|nodes| - 1].liquidityNet)
  }

  /** The pool's tick tells apart the ticks ahead from those behind exactly as its price does. */
  ghost predicate Consistent(direction: Direction, nodes: seq<TickNode>, tick: int, price: nat) {
    match direction
    case BtoA => forall n | n in nodes :: n.index > tick <==> n.sqrtPrice > price
    case AtoB => forall n | n in nodes :: n.index < tick <==> n.sqrtPrice < price
  }

  // ---------- the filter ----------

  lemma {:induction false} NoneOnTheWay(direction: Direction, nodes: seq<TickNode>, from: nat, to: nat)
    requires forall n | n in nodes :: !Passed(direction, from, to, n.sqrtPrice)
    ensures OnTheWay(direction, nodes, from, to) == []
  {
    if nodes != [] {
      NoneOnTheWay(direction, nodes[1..], from, to);
    }
  }

  lemma {:induction false} OneOnTheWay(direction: Direction, nodes: seq<TickNode>, from: nat, to: nat, n: TickNode)
    requires Climbs(nodes) && n in nodes && Passed(direction, from, to, n.sqrtPrice)
    requires forall m | m in nodes && Passed(direction, from, to, m.sqrtPrice) :: m == n
    ensures OnTheWay(direction, nodes, from, to) == [n]
  {
    var rest := nodes[1..];
    if nodes[0] == n {
      forall m | m in rest
        ensures !Passed(direction, from, to, m.sqrtPrice)
      {
        assert m.sqrtPrice > n.sqrtPrice;
      }
      NoneOnTheWay(direction, rest, from, to);
    } else {
      assert n in rest;
      OneOnTheWay(direction, rest, from, to, n);
    }
  }

  lemma {:induction false} OnTheWayIn(direction: Direction, nodes: seq<TickNode>, from: nat, to: nat)
    ensures forall n ::
      n in OnTheWay(direction, nodes, from, to) <==> n in nodes && Passed(direction, from, to, n.sqrtPrice)
  {
    if nodes != [] {
      OnTheWayIn(direction, nodes[1..], from, to);
    }
  }

  /** Prepending a node in front of two ways, the second of which it does not touch unless the first is empty. */
  lemma JoinAround(direction: Direction, nodes: seq<TickNode>, from: nat, mid: nat, to: nat)
    requires nodes != [] && Climbs(nodes) && Reached(direction, mid, from) && Reached(direction, to, mid)
    ensures direction == BtoA && Beyond(direction, nodes[0].sqrtPrice, mid) ==>
      OnTheWay(direction, nodes[1..], from, mid) == []
    ensures direction == AtoB && !Beyond(direction, nodes[0].sqrtPrice, mid) ==>
      OnTheWay(direction, nodes[1..], mid, to) == []
  {
    var rest := nodes[1..];
    assert forall n | n in rest :: n.sqrtPrice > nodes[0].sqrtPrice;
    if direction == BtoA && Beyond(direction, nodes[0].sqrtPrice, mid) {
      NoneOnTheWay(direction, rest, from, mid);
    }
    if direction == AtoB && !Beyond(direction, nodes[0].sqrtPrice, mid) {
      NoneOnTheWay(direction, rest, mid, to);
    }
  }

  lemma PassedEitherSide(direction: Direction, from: nat, mid: nat, to: nat, p: nat)
    requires Reached(direction, mid, from) && Reached(direction, to, mid)
    ensures Passed(direction, from, to, p) <==> Passed(direction, from, mid, p) || Passed(direction, mid, to, p)
    ensures Passed(direction, from, mid, p) ==> !Beyond(direction, p, mid)
    ensures Passed(direction, mid, to, p) ==> Beyond(direction, p, mid)
  {
  }

  /** The way from one price to another by way of a third is one way after the other. */
  lemma {:induction false} OnTheWayJoins(direction: Direction, nodes: seq<TickNode>, from: nat, mid: nat, to: nat)
    requires Climbs(nodes) && Reached(direction, mid, from) && Reached(direction, to, mid)
    ensures OnTheWay(direction, nodes, from, to)
         == OnTheWay(direction, nodes, from, mid) + OnTheWay(direction, nodes, mid, to)
  {
    if nodes != [] {
      var rest, p := nodes[1..], nodes[0].sqrtPrice;
      assert Climbs(rest);
      OnTheWayJoins(direction, rest, from, mid, to);
      JoinAround(direction, nodes, from, mid, to);
      PassedEitherSide(direction, from, mid, to, p);
      JoinLower(direction, Passed(direction, from, mid, p), Passed(direction, mid, to, p), nodes[0],
                OnTheWay(direction, rest, from, mid), OnTheWay(direction, rest, mid, to));
    }
  }

  lemma JoinLower(direction: Direction, first: bool, second: bool, n: TickNode, a: seq<TickNode>, b: seq<TickNode>)
    requires !(first && second)
    requires direction == BtoA && second ==> a == []
    requires direction == AtoB && first ==> b == []
    ensures WithLower(direction, first || second, n, a + b)
         == WithLower(direction, first, n, a) + WithLower(direction, second, n, b)
  {
  }

  // ---------- the boundary a swap meets ----------

  /** n is the first node the price meets. */
  ghost predicate IsNearestAhead(direction: Direction, nodes: seq<TickNode>, price: nat, n: TickNode) {
    && n in nodes && Beyond(direction, n.sqrtPrice, price)
    && forall m | m in nodes && Beyond(direction, m.sqrtPrice, price) :: Reached(direction, m.sqrtPrice, n.sqrtPrice)
  }

  function NodeAhead(direction: Direction, ix: Index, tick: int): Option<TickNode> {
    if direction == BtoA then NextAbove(ix, tick) else NextBelow(ix, tick)
  }

  lemma PricesFollowTicks(nodes: seq<TickNode>, n: TickNode, m: TickNode)
    requires Climbs(nodes) && n in nodes && m in nodes
    ensures n.index < m.index <==> n.sqrtPrice < m.sqrtPrice
    ensures n.index <= m.index <==> n.sqrtPrice <= m.sqrtPrice
  {
  }

  lemma LookupIsNearest(direction: Direction, ix: Index, tick: int, price: nat)
    requires WellBuilt(ix) && Consistent(direction, ix.nodes, tick, price)
    ensures var found := NodeAhead(direction, ix, tick);
      && (found.Some? ==> IsNearestAhead(direction, ix.nodes, price, found.value))
      && (found.None? ==> forall m | m in ix.nodes :: !Beyond(direction, m.sqrtPrice, price))
  {
    BuiltIndexClimbs(ix);
    NextAboveIsScan(ix, tick);
    NextBelowIsScan(ix, tick);
    var found := NodeAhead(direction, ix, tick);
    if found.Some? {
      forall m | m in ix.nodes && Beyond(direction, m.sqrtPrice, price)
        ensures Reached(direction, m.sqrtPrice, found.value.sqrtPrice)
      {
        PricesFollowTicks(ix.nodes, found.value, m);
        PricesFollowTicks(ix.nodes, m, found.value);
      }
    }
  }

  /** A consistent swap sees the nearest node ahead of its price, and sees one whenever there is one. */
  lemma BoundaryIsNearest(route: Route, ix: Index, tick: I32, price: U128)
    requires WellBuilt(ix) && route.source == AsSource(ix)
    requires Consistent(route.direction, ix.nodes, tick, price)
    ensures NextBoundary(route, tick, price) == BoundaryOf(NodeAhead(route.direction, ix, tick))
  {
    LookupIsNearest(route.direction, ix, tick, price);
  }

  /** Landing on a node keeps tick and price consistent. */
  lemma CrossingKeepsConsistent(direction: Direction, nodes: seq<TickNode>, n: TickNode)
    requires Climbs(nodes) && n in nodes
    ensures Consistent(direction, nodes, n.index, n.sqrtPrice)
  {
  }

  // ---------- the run ----------

  /** Steps, liquidity and tick are those of crossing these nodes in turn, and at most one step more. */
  ghost predicate Crosses(
    direction: Direction, liquidity: nat, tick: int, passed: seq<TickNode>,
    steps: seq<Step>, liquidityEnd: int, tickEnd: int)
  {
    && liquidityEnd == liquidity + NetOf(direction, passed)
    && tickEnd == (if passed == [] then tick else passed[|passed| - 1].index)
    && |passed| <= |steps| <= |passed| + 1
    && (forall i | 0 <= i < |passed| :: steps[i].crossed && steps[i].sqrtPriceEnd == passed[i].sqrtPrice)
    && (forall i | 0 <= i < |steps| :: steps[i].liquidity == liquidity + NetOf(direction, passed[..i]))
  }

  /** The run so far has crossed exactly the nodes passed. */
  ghost predicate InStep(direction: Direction, from: nat, liquidity: nat, tick: int, nodes: seq<TickNode>, c: Cursor) {
    Crosses(direction, liquidity, tick, OnTheWay(direction, nodes, from, c.sqrtPrice), c.steps, c.liquidity, c.tick)
  }

  lemma CrossesOneMore(direction: Direction, liquidity: nat, tick: int, passed: seq<TickNode>, n: TickNode,
                       steps: seq<Step>, s: Step, liquidityEnd: int, tickEnd: int)
    requires Crosses(direction, liquidity, tick, passed, steps, liquidityEnd, tickEnd) && |steps| == |passed|
    requires s.crossed && s.sqrtPriceEnd == n.sqrtPrice && s.liquidity == liquidityEnd
    ensures Crosses(direction, liquidity, tick, passed + [n], steps + [s],
                    liquidityEnd + Signed(direction, n.liquidityNet), n.index)
  {
    var all := passed + [n];
    assert all[..|passed|] == passed;
    assert forall i | 0 <= i <= |passed| :: all[..i] == passed[..i];
    assert passed[..|passed|] == passed;
  }

  lemma CrossesNoMore(direction: Direction, liquidity: nat, tick: int, passed: seq<TickNode>,
                      steps: seq<Step>, s: Step, liquidityEnd: int, tickEnd: int)
    requires Crosses(direction, liquidity, tick, passed, steps, liquidityEnd, tickEnd) && |steps| == |passed|
    requires s.liquidity == liquidityEnd
    ensures Crosses(direction, liquidity, tick, passed, steps + [s], liquidityEnd, tickEnd)
  {
    assert passed[..|passed|] == passed;
  }

  /** Up to the next stop there is exactly the boundary, if the step reaches it, and nothing otherwise. */
  lemma WayOfOneStep(route: Route, ix: Index, c: Cursor, next: nat)
    requires WellBuilt(ix) && route.source == AsSource(ix) && OnCourse(route, c)
    requires Consistent(route.direction, ix.nodes, c.tick, c.sqrtPrice)
    requires c.liquidity > 0 && c.remaining > 0 && c.sqrtPrice != route.priceLimit && next == Target(route, c)
    ensures var found := NodeAhead(route.direction, ix, c.tick);
      && (CrossesBoundary(route, c) ==>
            && found.Some? && found.value in ix.nodes && found.value.sqrtPrice == next
            && NextBoundary(route, c.tick, c.sqrtPrice) == Some(AsBoundary(found.value))
            && OnTheWay(route.direction, ix.nodes, c.sqrtPrice, next) == [found.value])
      && (!CrossesBoundary(route, c) ==> OnTheWay(route.direction, ix.nodes, c.sqrtPrice, next) == [])
  {
    var found := NodeAhead(route.direction, ix, c.tick);
    BuiltIndexClimbs(ix);
    BoundaryIsNearest(route, ix, c.tick, c.sqrtPrice);
    LookupIsNearest(route.direction, ix, c.tick, c.sqrtPrice);
    StopIsAhead(route, c);
    if CrossesBoundary(route, c) {
      forall m | m in ix.nodes && Passed(route.direction, c.sqrtPrice, next, m.sqrtPrice)
        ensures m == found.value
      {
        PricesFollowTicks(ix.nodes, m, found.value);
        PricesFollowTicks(ix.nodes, found.value, m);
      }
      OneOnTheWay(route.direction, ix.nodes, c.sqrtPrice, next, found.value);
    } else {
      NoneOnTheWay(route.direction, ix.nodes, c.sqrtPrice, next);
    }
  }

  /** The shape of one turn, amounts aside. */
  lemma TurnShape(route: Route, c: Cursor)
    requires OnCourse(route, c) && c.remaining > 0 && c.sqrtPrice != route.priceLimit && Iterate(route, c).Ok?
    ensures c.liquidity > 0
    ensures var d := Iterate(route, c).value.cursor;
      && d.sqrtPrice == Target(route, c) && Beyond(route.direction, d.sqrtPrice, c.sqrtPrice)
      && |d.steps| == |c.steps| + 1 && d.steps == c.steps + [d.steps[|c.steps|]]
      && var s := d.steps[|c.steps|];
      && s.liquidity == c.liquidity && s.sqrtPriceEnd == d.sqrtPrice && s.crossed == CutShort(route, c)
      && (Iterate(route, c).value.More? <==> CrossesBoundary(route, c))
      && (Iterate(route, c).value.Done? ==> d.tick == c.tick && d.liquidity == c.liquidity)
      && (Iterate(route, c).value.More? ==>
            var b := NextBoundary(route, c.tick, c.sqrtPrice).value;
            d.tick == b.tick && d.liquidity == c.liquidity + Signed(route.direction, b.liquidityNet))
  {
    IterateExact(route, c);
  }

  /** One turn keeps the run in step with the nodes passed. */
  lemma TurnKeepsInStep(route: Route, ix: Index, from: nat, liquidity: nat, tick: int, c: Cursor)
    requires WellBuilt(ix) && route.source == AsSource(ix) && OnCourse(route, c)
    requires Consistent(route.direction, ix.nodes, c.tick, c.sqrtPrice)
    requires c.remaining > 0 && c.sqrtPrice != route.priceLimit && Iterate(route, c).Ok?
    requires Reached(route.direction, c.sqrtPrice, from)
    requires InStep(route.direction, from, liquidity, tick, ix.nodes, c)
    requires |c.steps| == |OnTheWay(route.direction, ix.nodes, from, c.sqrtPrice)|
    ensures var d := Iterate(route, c).value.cursor;
      && Reached(route.direction, d.sqrtPrice, from)
      && InStep(route.direction, from, liquidity, tick, ix.nodes, d)
      && (Iterate(route, c).value.More? ==>
            && Consistent(route.direction, ix.nodes, d.tick, d.sqrtPrice)
            && |d.steps| == |OnTheWay(route.direction, ix.nodes, from, d.sqrtPrice)|)
  {
    TurnShape(route, c);
    var d := Iterate(route, c).value.cursor;
    var before := OnTheWay(route.direction, ix.nodes, from, c.sqrtPrice);
    var s := d.steps[|c.steps|];
    assert OnTheWay(route.direction, ix.nodes, from, d.sqrtPrice)
        == before + OnTheWay(route.direction, ix.nodes, c.sqrtPrice, d.sqrtPrice) by {
      BuiltIndexClimbs(ix);
      OnTheWayJoins(route.direction, ix.nodes, from, c.sqrtPrice, d.sqrtPrice);
    }
    WayOfOneStep(route, ix, c, d.sqrtPrice);
    if Iterate(route, c).value.More? {
      var n := NodeAhead(route.direction, ix, c.tick).value;
      assert Consistent(route.direction, ix.nodes, n.index, n.sqrtPrice) by {
        BuiltIndexClimbs(ix);
        CrossingKeepsConsistent(route.direction, ix.nodes, n);
      }
      CrossesOneMore(route.direction, liquidity, tick, before, n, c.steps, s, c.liquidity, c.tick);
    } else {
      CrossesNoMore(route.direction, liquidity, tick, before, c.steps, s, c.liquidity, c.tick);
      assert before + [] == before;
    }
  }

  lemma {:induction false} WalkCrossesExactly(route: Route, ix: Index, from: nat, liquidity: nat, tick: int, c: Cursor)
    requires WellBuilt(ix) && route.source == AsSource(ix) && OnCourse(route, c)
    requires Consistent(route.direction, ix.nodes, c.tick, c.sqrtPrice)
    requires Reached(route.direction, c.sqrtPrice, from)
    requires InStep(route.direction, from, liquidity, tick, ix.nodes, c)
    requires |c.steps| == |OnTheWay(route.direction, ix.nodes, from, c.sqrtPrice)|
    requires Walk(route, c).Ok?
    ensures InStep(route.direction, from, liquidity, tick, ix.nodes, Walk(route, c).value)
    decreases route.maxCrossings - c.crossings
  {
    if c.remaining > 0 && c.sqrtPrice != route.priceLimit {
      TurnKeepsInStep(route, ix, from, liquidity, tick, c);
      IterateExact(route, c);
      if Iterate(route, c).value.More? {
        WalkCrossesExactly(route, ix, from, liquidity, tick, Iterate(route, c).value.cursor);
      }
    }
  }

  /**
   * A successful swap over a built index from a consistent start crosses exactly the initialised ticks
   * whose price lies after the start and up to the end, one step each and in order. Every step uses the
   * start liquidity plus the nets crossed before it; the end liquidity has them all; and the reported
   * tick is the last one crossed, or the starting one.
   */
  lemma SwapCrossesExactly(route: Route, state: PoolState, amountIn: U128, ix: Index)
    requires WellBuilt(ix) && route.source == AsSource(ix)
    requires Consistent(route.direction, ix.nodes, state.tick, state.sqrtPrice)
    requires Swapped(route, state, amountIn).Ok?
    ensures var r := Swapped(route, state, amountIn).value;
      var passed := OnTheWay(route.direction, ix.nodes, r.sqrtPriceStart, r.sqrtPriceEnd);
      && (forall n :: n in passed <==>
            n in ix.nodes && Passed(route.direction, r.sqrtPriceStart, r.sqrtPriceEnd, n.sqrtPrice))
      && Crosses(route.direction, state.liquidity, state.tick, passed, r.steps, r.liquidityEnd, r.tickEnd)
  {
    var c := Start(state, TakeFee(amountIn, state.feeRate).value.0);
    NoneOnTheWay(route.direction, ix.nodes, state.sqrtPrice, state.sqrtPrice);
    assert InStep(route.direction, state.sqrtPrice, state.liquidity, state.tick, ix.nodes, c);
    WalkCrossesExactly(route, ix, state.sqrtPrice, state.liquidity, state.tick, c);
    OnTheWayIn(route.direction, ix.nodes, state.sqrtPrice, Walk(route, c).value.sqrtPrice);
  }
}
