/** What every successful swap satisfies, whatever its tick source answers. */
module SwapProperties {
  import opened Wrappers
  import opened Arith
  import opened Checked
  import opened SwapMath
  import opened Swap

  // ---------- one turn of the loop, exactly ----------

  /** The price is a price and has not passed the limit. */
  predicate OnCourse(route: Route, c: Cursor) {
    c.sqrtPrice > 0 && Reached(route.direction, route.priceLimit, c.sqrtPrice)
  }

  /** Where the step must stop: the next boundary or the limit. */
  function StopAt(route: Route, c: Cursor): U128 {
    StepLimit(route, NextBoundary(route, c.tick, c.sqrtPrice))
  }

  /** Whether the remaining input reaches the stop. */
  predicate CutShort(route: Route, c: Cursor)
    requires c.sqrtPrice > 0 && c.liquidity > 0
  {
    Reached(route.direction, Reach(route.direction, c.sqrtPrice, c.liquidity, c.remaining), StopAt(route, c))
  }

  function Target(route: Route, c: Cursor): nat
    requires c.sqrtPrice > 0 && c.liquidity > 0
  {
    if CutShort(route, c) then StopAt(route, c)
    else Reach(route.direction, c.sqrtPrice, c.liquidity, c.remaining)
  }

  /** A step that stops at a boundary rather than at the limit of the swap. */
  predicate CrossesBoundary(route: Route, c: Cursor)
    requires c.sqrtPrice > 0 && c.liquidity > 0
  {
    var boundary := NextBoundary(route, c.tick, c.sqrtPrice);
    CutShort(route, c) && boundary.Some? && boundary.value.sqrtPrice == StopAt(route, c)
  }

  lemma NextPriceUpExact(sqrtPrice: U128, liquidity: U128, amount: U128, limit: U128)
    requires sqrtPrice > 0 && NextPrice(BtoA, sqrtPrice, liquidity, amount, limit).Ok?
    ensures liquidity > 0
    ensures var p := Reach(BtoA, sqrtPrice, liquidity, amount);
      NextPrice(BtoA, sqrtPrice, liquidity, amount, limit).value == if p >= limit then (limit, true) else (p, false)
  {
    if liquidity > 0 {
      NextSqrtPriceUpExact(sqrtPrice, liquidity, amount);
    }
  }

  lemma NextPriceDownExact(sqrtPrice: U128, liquidity: U128, amount: U128, limit: U128)
    requires sqrtPrice > 0 && NextPrice(AtoB, sqrtPrice, liquidity, amount, limit).Ok?
    ensures liquidity > 0
    ensures var p := Reach(AtoB, sqrtPrice, liquidity, amount);
      NextPrice(AtoB, sqrtPrice, liquidity, amount, limit).value == if p <= limit then (limit, true) else (p, false)
  {
    if liquidity > 0 {
      NextSqrtPriceDownExact(sqrtPrice, liquidity, amount);
    }
  }

  /** A number too wide for 128 bits is refused. */
  function Narrowed(v: nat): Amm<U128> {
    if v >= U128_LIMIT then Err(Overflow(Narrow)) else Ok(v)
  }

  lemma OwedUpExact(from: U128, to: U128, liquidity: U128)
    requires 0 < from <= to
    ensures DeltaB(from, to, liquidity, true) == Narrowed(Owed(BtoA, from, to, liquidity))
  {
    DeltaBExact(from, to, liquidity, true);
  }

  lemma PaidUpExact(from: U128, to: U128, liquidity: U128)
    requires 0 < from <= to
    ensures DeltaA(from, to, liquidity, false) ==
      if liquidity * Q64 * (to - from) >= U256_LIMIT then Err(Overflow(Mul))
      else Narrowed(Paid(BtoA, from, to, liquidity))
  {
    DeltaAExact(from, to, liquidity, false);
  }

  lemma OwedDownExact(from: U128, to: U128, liquidity: U128)
    requires 0 < to <= from
    ensures DeltaA(to, from, liquidity, true) ==
      if liquidity * Q64 * (from - to) >= U256_LIMIT then Err(Overflow(Mul))
      else Narrowed(Owed(AtoB, from, to, liquidity))
  {
    DeltaAExact(to, from, liquidity, true);
  }

  lemma PaidDownExact(from: U128, to: U128, liquidity: U128)
    requires 0 < to <= from
    ensures DeltaB(to, from, liquidity, false) == Narrowed(Paid(AtoB, from, to, liquidity))
  {
    DeltaBExact(to, from, liquidity, false);
  }

  /** A step's stop lies strictly ahead and within the limit, unless the price is at the limit already. */
  lemma StopIsAhead(route: Route, c: Cursor)
    requires OnCourse(route, c) && c.sqrtPrice != route.priceLimit
    ensures Beyond(route.direction, StopAt(route, c), c.sqrtPrice)
    ensures Reached(route.direction, route.priceLimit, StopAt(route, c))
  {
  }

  /** d is c after one step: farther, within the limit, at the exact price and for the exact amounts. */
  ghost predicate Stepped(route: Route, c: Cursor, d: Cursor) {
    && c.sqrtPrice > 0 && c.liquidity > 0 && c.remaining > 0
    && var next, cut := Target(route, c), CutShort(route, c);
    && d.sqrtPrice == next > 0
    && Beyond(route.direction, next, c.sqrtPrice)
    && Reached(route.direction, route.priceLimit, next)
    && var owed, out := Owed(route.direction, c.sqrtPrice, next, c.liquidity),
                        Paid(route.direction, c.sqrtPrice, next, c.liquidity);
    && owed <= c.remaining
    && d.remaining == c.remaining - (if cut then owed else c.remaining)
    && d.amountOut == c.amountOut + out
    && d.steps == c.steps + [Step(c.remaining - d.remaining, out, c.sqrtPrice, next, c.liquidity, cut)]
  }

  /**
   * One successful turn. It takes a step that never costs more than the input left, so the clamp of
   * what is consumed never bites; it goes on exactly when the step stops at a boundary.
   */
  lemma IterateExact(route: Route, c: Cursor)
    requires OnCourse(route, c) && c.remaining > 0 && c.sqrtPrice != route.priceLimit
    requires Iterate(route, c).Ok?
    ensures var d := Iterate(route, c).value.cursor;
      && Stepped(route, c, d)
      && (Iterate(route, c).value.More? <==> CrossesBoundary(route, c))
      && (Iterate(route, c).value.Done? ==>
            d.tick == c.tick && d.liquidity == c.liquidity && d.crossings == c.crossings)
      && (Iterate(route, c).value.More? ==>
            var b := NextBoundary(route, c.tick, c.sqrtPrice).value;
            && d.tick == b.tick && d.sqrtPrice == b.sqrtPrice
            && d.crossings == c.crossings + 1 <= route.maxCrossings
            && d.liquidity == c.liquidity + (if route.direction == BtoA then b.liquidityNet else -b.liquidityNet))
  {
    var limit := StopAt(route, c);
    StopIsAhead(route, c);
    if route.direction == BtoA {
      NextPriceUpExact(c.sqrtPrice, c.liquidity, c.remaining, limit);
      OwedUpExact(c.sqrtPrice, Target(route, c), c.liquidity);
      PaidUpExact(c.sqrtPrice, Target(route, c), c.liquidity);
    } else {
      NextPriceDownExact(c.sqrtPrice, c.liquidity, c.remaining, limit);
      OwedDownExact(c.sqrtPrice, Target(route, c), c.liquidity);
      PaidDownExact(c.sqrtPrice, Target(route, c), c.liquidity);
    }
    var next := Target(route, c);
    Adjoint(route.direction, c.sqrtPrice, next, c.liquidity, c.remaining);
  }

  // ---------- the steps of a run ----------

  function SumIn(steps: seq<Step>): nat {
    if steps == [] then 0 else SumIn(steps[..|steps| - 1]) + steps[|steps| - 1].amountIn
  }

  function SumOut(steps: seq<Step>): nat {
    if steps == [] then 0 else SumOut(steps[..|steps| - 1]) + steps[|steps| - 1].amountOut
  }

  /**
   * A step moves the price strictly in the direction of the swap, pays exactly the floor of the exact
   * fraction, and takes exactly the ceiling if it stops at a target; otherwise it takes all that is
   * left and stops at the farthest price that pays for.
   */
  ghost predicate SoundStep(direction: Direction, s: Step) {
    && s.liquidity > 0 && s.sqrtPriceStart > 0 && s.sqrtPriceEnd > 0
    && Beyond(direction, s.sqrtPriceEnd, s.sqrtPriceStart)
    && s.amountOut == Paid(direction, s.sqrtPriceStart, s.sqrtPriceEnd, s.liquidity)
    && Owed(direction, s.sqrtPriceStart, s.sqrtPriceEnd, s.liquidity) <= s.amountIn
    && (s.crossed ==> s.amountIn == Owed(direction, s.sqrtPriceStart, s.sqrtPriceEnd, s.liquidity))
    && (!s.crossed ==> s.sqrtPriceEnd == Reach(direction, s.sqrtPriceStart, s.liquidity, s.amountIn))
  }

  /** Sound steps that lead from one price to another without a gap; only the last may run out of input. */
  ghost predicate Trail(direction: Direction, steps: seq<Step>, from: nat, to: nat) {
    && (forall i | 0 <= i < |steps| :: SoundStep(direction, steps[i]))
    && (forall i | 0 <= i < |steps| - 1 :: steps[i].crossed)
    && (forall i, j | 0 <= i && j == i + 1 < |steps| :: steps[i].sqrtPriceEnd == steps[j].sqrtPriceStart)
    && (if steps == [] then from == to else steps[0].sqrtPriceStart == from && steps[|steps| - 1].sqrtPriceEnd == to)
  }

  /** The books of a run balance: inputs and the remainder make up the total, outputs the amount out. */
  ghost predicate Balanced(c: Cursor, total: nat) {
    SumIn(c.steps) + c.remaining == total && SumOut(c.steps) == c.amountOut
  }

  /** What holds each time the loop is about to take a turn. */
  ghost predicate Underway(route: Route, from: nat, total: nat, c: Cursor) {
    && OnCourse(route, c)
    && Trail(route.direction, c.steps, from, c.sqrtPrice)
    && (forall i | 0 <= i < |c.steps| :: c.steps[i].crossed)
    && Balanced(c, total)
    && |c.steps| == c.crossings <= route.maxCrossings
  }

  lemma StepExtends(route: Route, from: nat, total: nat, c: Cursor, d: Cursor)
    requires Underway(route, from, total, c) && Stepped(route, c, d)
    ensures Trail(route.direction, d.steps, from, d.sqrtPrice) && Balanced(d, total)
    ensures |d.steps| == |c.steps| + 1
  {
    var last := d.steps[|c.steps|];
    assert d.steps[..|c.steps|] == c.steps;
    if !last.crossed {
      Adjoint(route.direction, c.sqrtPrice, d.sqrtPrice, c.liquidity, c.remaining);
    }
    assert SoundStep(route.direction, last);
    assert forall i | 0 <= i < |c.steps| :: d.steps[i] == c.steps[i];
  }

  /** The loop invariant holds on every turn, so the end of a run has all of it. */
  lemma {:induction false} WalkIsSound(route: Route, from: nat, total: nat, c: Cursor)
    requires Underway(route, from, total, c) && Walk(route, c).Ok?
    ensures var d := Walk(route, c).value;
      && OnCourse(route, d)
      && Trail(route.direction, d.steps, from, d.sqrtPrice)
      && Balanced(d, total)
      && |d.steps| <= route.maxCrossings + 1
      && (d.remaining == 0 || d.sqrtPrice == route.priceLimit)
    decreases route.maxCrossings - c.crossings
  {
    if c.remaining > 0 && c.sqrtPrice != route.priceLimit {
      IterateExact(route, c);
      var progress := Iterate(route, c).value;
      StepExtends(route, from, total, c, progress.cursor);
      if progress.More? {
        WalkIsSound(route, from, total, progress.cursor);
      }
    }
  }

  /**
   * Every successful swap, over any tick source: its steps are contiguous, strictly monotone and
   * exactly priced, they never pass the limit, there is at most one more of them than allowed
   * crossings, and they end with the input consumed or exactly at the limit.
   */
  lemma SwapIsSound(route: Route, state: PoolState, amountIn: U128)
    requires Swapped(route, state, amountIn).Ok?
    ensures var r := Swapped(route, state, amountIn).value;
      && r.amountIn == amountIn && r.sqrtPriceStart == state.sqrtPrice
      && r.tickStart == state.tick && r.liquidityStart == state.liquidity
      && Trail(route.direction, r.steps, state.sqrtPrice, r.sqrtPriceEnd)
      && Reached(route.direction, route.priceLimit, r.sqrtPriceEnd)
      && |r.steps| <= route.maxCrossings + 1
      && (r.inputConsumed || r.sqrtPriceEnd == route.priceLimit)
      && SumOut(r.steps) == r.amountOut
  {
    var net := TakeFee(amountIn, state.feeRate).value.0;
    WalkIsSound(route, state.sqrtPrice, net, Start(state, net));
  }

  /** The refund of a fee is proportional to the unused input, rounded down; what is kept is rounded up. */
  lemma FeeSplit(fee: U128, remaining: U128, netInput: U128)
    requires remaining <= netInput
    ensures netInput == 0 ==> FeeCharged(fee, remaining, netInput) == Ok(fee)
    ensures netInput > 0 ==>
      && var refund := fee * remaining / netInput;
      && 0 <= refund <= fee && FeeCharged(fee, remaining, netInput) == Ok(fee - refund)
      && fee * (netInput - remaining) >= 0
      && fee - refund == CeilDiv(fee * (netInput - remaining), netInput)
  {
    if netInput > 0 {
      ProductFits(fee, remaining);
      var refund := fee * remaining / netInput;
      MulLe(remaining, netInput, fee);
      SwapFactors(remaining, fee, 1);
      assert fee * remaining <= fee * netInput;
      FloorAdjoint(fee * remaining, netInput, refund);
      MulCancelLe(refund, fee, netInput);
      MulDivIsExact(fee, remaining, netInput, false);
      ComplementRoundsUp(fee, remaining, netInput);
      if remaining == 0 {
        FloorIsUnique(0, netInput, 0);
      }
    }
  }

  lemma ComplementRoundsUp(whole: nat, part: nat, d: nat)
    requires d > 0 && part <= d
    ensures whole * (d - part) >= 0
    ensures whole * part / d <= whole
    ensures whole - whole * part / d == CeilDiv(whole * (d - part), d)
  {
    MulLe(0, whole, d - part);
    MulLe(part, d, whole);
    var f := whole * part / d;
    FloorAdjoint(whole * part, d, f);
    FloorAdjoint(whole * part, d, f + 1);
    MulCancelLe(f, whole, d);
    TimesDifference(d, whole, f);
    TimesDifference(whole, d, part);
    TimesDifference(d, f, -1);
    CeilOfRest(whole * d, whole * part, d, f * d, whole - f);
  }

  /** With the floor's multiple known, so is the ceiling of what is left. */
  lemma CeilOfRest(all: nat, taken: nat, d: nat, multiple: nat, k: nat)
    requires d > 0 && multiple <= taken < multiple + d && taken <= all && k * d == all - multiple
    ensures CeilDiv(all - taken, d) == k
  {
    CeilAdjoint(all - taken, d, k);
    if k > 0 {
      TimesDifference(d, k, 1);
      CeilAdjoint(all - taken, d, k - 1);
    }
  }

  lemma TimesDifference(a: nat, b: int, c: int)
    ensures a * (b - c) == a * b - a * c == (b - c) * a
  {
  }

  /**
   * Conservation: what the steps took plus what is left is the net input; the fee charged is the full
   * fee's share of the input consumed, rounded up; and consumed, fee and refund add up to the input.
   */
  lemma SwapConserves(route: Route, state: PoolState, amountIn: U128)
    requires Swapped(route, state, amountIn).Ok?
    ensures TakeFee(amountIn, state.feeRate).Ok?
    ensures var r := Swapped(route, state, amountIn).value;
      var (net, fee) := TakeFee(amountIn, state.feeRate).value;
      var consumed := SumIn(r.steps);
      && consumed <= net && net + fee == amountIn
      && (r.inputConsumed <==> consumed == net)
      && (net > 0 ==> fee * consumed >= 0 && r.fee == CeilDiv(fee * consumed, net))
      && (net == 0 ==> r.fee == fee)
      && var refund := (net - consumed) + (fee - r.fee);
      && refund >= 0 && consumed + r.fee + refund == amountIn
      && (r.inputConsumed ==> refund == 0)
  {
    TakeFeeExact(amountIn, state.feeRate);
    var (net, fee) := TakeFee(amountIn, state.feeRate).value;
    WalkIsSound(route, state.sqrtPrice, net, Start(state, net));
    var end := Walk(route, Start(state, net)).value;
    var r := Swapped(route, state, amountIn).value;
    assert r.steps == end.steps && FeeCharged(fee, end.remaining, net) == Ok(r.fee);
    RefundBalances(fee, net, end.remaining, SumIn(r.steps), r.fee);
  }

  lemma RefundBalances(fee: U128, net: U128, remaining: U128, consumed: nat, charged: U128)
    requires consumed + remaining == net && FeeCharged(fee, remaining, net) == Ok(charged)
    ensures net > 0 ==> fee * consumed >= 0 && charged == CeilDiv(fee * consumed, net)
    ensures net == 0 ==> charged == fee
    ensures charged <= fee && (remaining == 0 ==> charged == fee)
  {
    FeeSplit(fee, remaining, net);
    if net > 0 && remaining == 0 {
      FloorIsUnique(0, net, 0);
    }
  }

  // ---------- monotonicity of the whole quote ----------

  /** A run only adds output and never turns back. */
  lemma {:induction false} WalkOnlyAdvances(route: Route, c: Cursor)
    requires OnCourse(route, c) && Walk(route, c).Ok?
    ensures var d := Walk(route, c).value;
      d.sqrtPrice > 0 && c.amountOut <= d.amountOut && Reached(route.direction, d.sqrtPrice, c.sqrtPrice)
    decreases route.maxCrossings - c.crossings
  {
    if c.remaining > 0 && c.sqrtPrice != route.priceLimit {
      IterateExact(route, c);
      if Iterate(route, c).value.More? {
        WalkOnlyAdvances(route, Iterate(route, c).value.cursor);
      }
    }
  }

  /** The two cursors are at one place in one range, and the second has no less left to spend. */
  ghost predicate Alongside(c: Cursor, d: Cursor) {
    c.sqrtPrice == d.sqrtPrice && c.liquidity == d.liquidity && c.tick == d.tick && c.remaining <= d.remaining
  }

  /**
   * One turn of two runs side by side: if the poorer one crosses a boundary, the richer one crosses the
   * same one at the same cost; if it stops short, the richer one gets at least as far for at least as much.
   */
  lemma TurnsAlongside(route: Route, c: Cursor, d: Cursor)
    requires OnCourse(route, c) && Alongside(c, d) && c.remaining > 0 && c.sqrtPrice != route.priceLimit
    requires Iterate(route, c).Ok? && Iterate(route, d).Ok?
    ensures var c', d' := Iterate(route, c).value.cursor, Iterate(route, d).value.cursor;
      && c'.sqrtPrice > 0 && d'.sqrtPrice > 0
      && Reached(route.direction, d'.sqrtPrice, c'.sqrtPrice)
      && c'.amountOut - c.amountOut <= d'.amountOut - d.amountOut
      && (Iterate(route, c).value.More? ==> Iterate(route, d).value.More? && Alongside(c', d'))
  {
    IterateExact(route, c);
    IterateExact(route, d);
    var c', d' := Iterate(route, c).value.cursor, Iterate(route, d).value.cursor;
    ReachMonotone(route.direction, c.sqrtPrice, c.liquidity, c.remaining, d.remaining);
    FartherMove(route.direction, c.sqrtPrice, c'.sqrtPrice, d'.sqrtPrice, c.liquidity);
  }

  lemma {:induction false} WalkMonotone(route: Route, c: Cursor, d: Cursor)
    requires OnCourse(route, c) && Alongside(c, d)
    requires Walk(route, c).Ok? && Walk(route, d).Ok?
    ensures var c', d' := Walk(route, c).value, Walk(route, d).value;
      && c'.amountOut - c.amountOut <= d'.amountOut - d.amountOut
      && d'.sqrtPrice > 0 && Reached(route.direction, d'.sqrtPrice, c'.sqrtPrice)
    decreases route.maxCrossings - c.crossings
  {
    if c.remaining == 0 || c.sqrtPrice == route.priceLimit {
      WalkOnlyAdvances(route, d);
    } else {
      TurnsAlongside(route, c, d);
      IterateExact(route, c);
      IterateExact(route, d);
      var p, q := Iterate(route, c).value, Iterate(route, d).value;
      if p.More? {
        WalkMonotone(route, p.cursor, q.cursor);
      } else if q.More? {
        WalkOnlyAdvances(route, q.cursor);
      }
    }
  }

  /** More input never buys less, and never stops earlier, however many boundaries either run crosses. */
  lemma QuoteIsMonotone(route: Route, state: PoolState, x: U128, y: U128)
    requires x <= y && Swapped(route, state, x).Ok? && Swapped(route, state, y).Ok?
    ensures Swapped(route, state, x).value.amountOut <= Swapped(route, state, y).value.amountOut
    ensures Reached(route.direction, Swapped(route, state, y).value.sqrtPriceEnd,
                    Swapped(route, state, x).value.sqrtPriceEnd)
  {
    TakeFeeMonotone(x, y, state.feeRate);
    var netX, netY := TakeFee(x, state.feeRate).value.0, TakeFee(y, state.feeRate).value.0;
    WalkMonotone(route, Start(state, netX), Start(state, netY));
  }
}
