# Birdai verification model

A Dafny model of the parts of birdai whose correctness is arithmetic or spans many steps, with proofs of what they promise.

- **Pricing.** The directed-rounding integer formulas of a concentrated-liquidity pool, the exact-input swap that walks
  tick boundaries, tick-to-price conversion and its inverse, the validated tick index, and the Cetus quote with its
  test that no tick index is needed (`arith`, `checked`, `swapmath`, `swap`, `swapproperties`, `splitruns`, `swapbounds`,
  `swapdepth`, `swapfailures`, `roundtrips`, `tickmath`, `tickpowers`, `tickindex`, `tickindexproperties`,
  `tickindexerrors`, `crossing`, `missedticks`, `cetus`).
- **Checkpoint state.** Publication of venue objects from checkpoints, removals, and the bounded child index with its
  reverse owner map (`statemanager`, `stateproperties`, `streamproperties`, `checkpointcounts`, `childindex`,
  `childhistory`).
- **Package-aware caches.** The shared version tracker, the layout cache, and the package store under concurrent fetches
  (`packages`, `movelayout`, `layoutregistry`, `layouttransparency`, `layoutuse`, `packagestore`, `resolutionstack`).
- **Flame graphs.** Merging, and building one from bracketed visits with detours through shared pointers (`flamegraph`,
  `arena`, `arenasizes`, `flamegraphbuilder`, `visitshape`, `visitorder`).

Each loop and each method that changes state is a Dafny method proved equal to a specification function: `SwapExactIn`
to `Swapped`, `QuoteExactIn` to `Quoted`, `Ticks.Insert` to `Inserted`, `Publish`, `Remove` and `InsertChild` to
`Published`, `Removed` and `ChildInserted`, `Lookup` to `LookedUp`, `Fetch` to `Fetched`, and so on. The properties are
lemmas about those functions, over all inputs, all tick sources, all runs. Machine integers are subset types with
explicit error results: `U128`, `U256`, `I32`, `I128` and so on, and the 256-bit type refuses to wrap. Fees, amounts and
prices are the source's own integers, not reals.

`dafny verify dfyconfig.toml` checks the whole project.

## What the proofs found

- A downward quote never sees an initialised tick equal to the pool's own tick, because the lookup below is strict, although
  the price passes it whenever it starts above that tick's price. `MissedTicks.OwnTickIsMissedGoingDown` is a concrete pool,
  with the tick the floor tick of its price; `MissedTicks.SwapCrossesWhatItMeets` says exactly what any run crosses, and
  `MissedTicks.MissedExactlyWhen` exactly what it misses. From a start where tick and price agree nothing is missed
  (`Crossing.SwapCrossesExactly`).
- `stays_inside_current_range` can say yes to a quote the tick index changes: going up, the next tick may be stored below
  the tick math, within the tolerance the index accepts. `Cetus.RangeTestCanMissATick` is such a pool;
  `Cetus.TicksMatterExactlyWhenInReach` is the exact condition. Going down the two quotes always agree when it says yes.
- Under the bounds `crates/birdai-amm/src/lib.rs` states, 256 bits suffice and no narrowing fails, but the 128-bit sum of
  price and increment can still overflow: `SwapBounds.ShallowPoolOverflows`, and `SwapBounds.OnlyThePriceSumCanOverflow` for
  the exact condition on the run. Before the swap a caller can check the index: a quote overflows only going up, and only if
  some range between the price and its limit holds exactly one unit of liquidity (`SwapDepth.OnlyOneUnitOverflows`, a case
  of `SwapDepth.DeepIndexNeverOverflows`).
- Every swap either succeeds or fails for a reason stated beforehand: `SwapFailures.SwapIsRefused` and `SwapFailures.SwapFailsAsItsRun` for any swap, and over a
  built index `SwapFailures.SoundIndexFailures`, where no crossing can fail but for the count. Going down, what is left at some
  node can be too little to move the price at all, and the quote is then refused although most of its input was used;
  `SwapFailures.StallsExactly` says when, `SwapFailures.QuoteSucceeds` that nothing else is in the way.
- The factor table is what it is said to be: `TickPowers.PriceIsPower` shows every tick's price to be the square root of
  1.0001 to that tick, rounded down, to within one part in 2^71 of its square, and `TickPowers.FloorTickIsLogarithm` the
  inverse to be the logarithm. No root is needed: squares of prices are rational powers.
- The tick a swap reports going up is the last one crossed, and going back from it that tick is missed. In
  `RoundTrips.ReturnFromReportedStateProfits` quoting back what a quote bought, from the state it reports, returns 32771 units
  more than were put in. From a tick that agrees for the way back a round trip over any number of ticks never profits, fee or
  no fee (`RoundTrips.RoundTripRunNeverProfits`).
- The layout cache is transparent over steps that resolve and store at once. When a newer version is observed between
  resolving and storing, the old layout is recorded under it and then served: `LayoutTransparency.LateStoreIsServedStale`.
  `LayoutTransparency.StoreIsTransparentExactlyWhenTimely` says exactly when a store is harmless. An upgrade nobody observed
  is served around too: `LayoutTransparency.HitIsRightExactlyWhenNothingPublished` says a later hit is right exactly when no
  newer version of a package its layout mentions was published since.
- `next_grid_tick` is documented as the first initialised tick at or above the pool's, on the spacing grid; the code returns
  the first grid tick strictly above it. The two agree exactly when the pool's tick is off the grid
  (`Cetus.DocumentedExactlyOffTheGrid`; spacings above 2^28 can saturate as well), and `Cetus.GridTickOvershootsOnTheGrid`
  is a pool where they do not. The model follows the code.
- The package store returns nothing older than observed as long as its source answers with an object no older than the
  version observed for the id asked. `package_observations` records an upgrade under the original package id
  (crates/birdai-state/src/manager.rs:615-635), and the store fetches the object at that id. For packages upgraded in place,
  as system packages are, the two keep step, and the results of `PackageStore` and `ResolutionStack` that assume it cover
  them. They cover user packages until the first upgrade observed: an upgraded user package is a new object under a new id,
  the object at the original id stays as it was, and the store then keeps it as current, which is the case of
  `PackageStore.LaggingSourceIsServedOn`.

## Model

| member | source | states |
|---|---|---|
| Arith.NestedFloor | crates/birdai-amm/src/swap.rs:58-70 | dividing twice rounding down is dividing once by the product |
| Arith.NestedCeil | crates/birdai-amm/src/swap.rs:58-70 | dividing twice rounding up is dividing once by the product |
| Checked.DivCeilIsExact | crates/birdai-amm/src/checked.rs:103-107 | upward division is the exact ceiling and its increment never overflows |
| Checked.MulDivideTwiceIsExact | crates/birdai-amm/src/swap.rs:58-70 | the two-division formula is one rounding of the exact fraction; it fails only when the product leaves 256 bits or the result 128 |
| SwapMath.TakeFeeExact | crates/birdai-amm/src/swap.rs:27-37 | below the fee denominator the split never fails, the fee is floored, and the net input is the input's share rounded up |
| SwapMath.TakeFeeMonotone | crates/birdai-amm/src/swap.rs:27-37 | a larger input never leaves a smaller net input |
| SwapMath.DeltaAExact | crates/birdai-amm/src/swap.rs:44-71 | the amount of A is the exact fraction rounded once, in either argument order, with exactly its two overflow conditions |
| SwapMath.DeltaBExact | crates/birdai-amm/src/swap.rs:76-93 | the amount of B is the exact fraction rounded once, in either argument order, with exactly its overflow condition |
| SwapMath.NextSqrtPriceUpExact | crates/birdai-amm/src/swap.rs:99-112 | the price after a B input is the price that input reaches, or one of two overflows, each exactly when it must |
| SwapMath.NextSqrtPriceDownExact | crates/birdai-amm/src/swap.rs:121-139 | the price after an A input is the price that input reaches, positive and never behind the start, or one of two overflows, each exactly when it must |
| SwapMath.Adjoint | crates/birdai-amm/src/swap.rs:44-139 | adjoint rounding: a move's rounded-up cost is at most an input exactly when it stops at or before the price that input reaches, so that price is the farthest affordable one |
| SwapMath.ReachMonotone | crates/birdai-amm/src/swap.rs:99-139 | more input reaches at least as far |
| SwapMath.SplitMove | crates/birdai-amm/src/swap.rs:44-93 | reciprocals telescope: a move in two parts costs at least as much and pays at most as much as at once |
| SwapMath.FartherMove | crates/birdai-amm/src/swap.rs:44-93 | moving farther costs and pays at least as much |
| SwapMath.ReverseMove | crates/birdai-amm/src/swap.rs:44-93 | a move never pays more than the reverse move costs, and that costs at most one unit more |
| SwapMath.RoundTripNeverProfits | crates/birdai-amm/src/swap.rs:44-139 | selling an input and then what it bought leaves the price at or short of the start and returns no more than was put in, in both directions |
| SwapMath.SplittingNeverPaysMore | crates/birdai-amm/src/swap.rs:44-139 | splitting one net input into two steps never moves the price farther and never pays more |
| Swap.WalkBoundaries | crates/birdai-amm/src/swap.rs:306-402 | the loop over boundaries, with its error exits, computes the recursive walk; it ends because crossings run out |
| SwapProperties.NextPriceUpExact | crates/birdai-amm/src/swap.rs:232-250 | going up, the step's price is the reached price clamped to the limit, and the flag says whether it was clamped |
| SwapProperties.NextPriceDownExact | crates/birdai-amm/src/swap.rs:232-250 | the same going down |
| SwapProperties.OwedUpExact | crates/birdai-amm/src/swap.rs:340-344 | going up, the amount owed is the exact cost rounded up, refused exactly if it leaves 128 bits |
| SwapProperties.PaidUpExact | crates/birdai-amm/src/swap.rs:340-344 | going up, the output is the exact payout rounded down, refused exactly if its numerator leaves 256 bits or it leaves 128 |
| SwapProperties.OwedDownExact | crates/birdai-amm/src/swap.rs:345-348 | going down, the amount owed is the exact cost rounded up, refused exactly if its numerator leaves 256 bits or it leaves 128 |
| SwapProperties.PaidDownExact | crates/birdai-amm/src/swap.rs:345-348 | going down, the output is the exact payout rounded down, refused exactly if it leaves 128 bits |
| SwapProperties.IterateExact | crates/birdai-amm/src/swap.rs:314-402 | a turn never owes more than the input left, so the clamp to the remaining input never bites; it goes on exactly when it stops at a boundary, whose tick, price and liquidity it then takes |
| SwapProperties.SwapIsSound | crates/birdai-amm/src/swap.rs:314-402 | over any tick source: the call's own input, price, tick and liquidity reported as the start; contiguous, strictly monotone, exactly priced steps within the limit, at most one more than the allowed crossings, ending consumed or at the limit, outputs adding up |
| SwapProperties.FeeSplit | crates/birdai-amm/src/swap.rs:404-418 | the refund is the fee's share of the unused input rounded down, what is kept is the share of the used input rounded up |
| SwapProperties.SwapConserves | crates/birdai-amm/src/swap.rs:301-433 | consumed input, fee charged and refund add up to the input; the fee is the full fee times consumed over net, rounded up; everything consumed means no refund |
| SwapProperties.TurnsAlongside | crates/birdai-amm/src/swap.rs:314-402 | two runs that differ in input only: where the poorer crosses a boundary the richer crosses the same at the same cost, where it stops the richer gets as far for as much |
| SwapProperties.QuoteIsMonotone | crates/birdai-amm/src/swap.rs:276-433 | a larger input never buys less and never stops earlier, whatever boundaries either run crosses |
| SplitRuns.SplitWalks | crates/birdai-amm/src/swap.rs:306-402 | over any tick source, walking one net input and then another from where it ended gets no farther and pays no more than walking both at once, whatever boundaries are crossed |
| SplitRuns.SplittingARunNeverPaysMore | crates/birdai-amm/src/swap.rs:276-433 | the same for whole swaps at any fee, the net inputs of the parts adding up to at most that of the whole |
| SplitRuns.FeesOfPartsRoundApart | crates/birdai-amm/src/swap.rs:27-37 | with a fee, the net inputs of two parts come to that of the sum or one unit more, and for two units at half fee to one more, so the law is about net inputs |
| SwapBounds.NextPriceUpFits | crates/birdai-amm/src/swap.rs:99-112 | with 64-bit liquidity and input a B-in price step fails exactly when the 128-bit price sum overflows, and with that error |
| SwapBounds.NextPriceDownFits | crates/birdai-amm/src/swap.rs:121-139 | with 64-bit liquidity and input an A-in price step never fails |
| SwapBounds.StepFits | crates/birdai-amm/src/swap.rs:340-349 | with 64-bit liquidity no product of a step leaves 256 bits and no amount 128 |
| SwapBounds.OutputStaysBounded | crates/birdai-amm/src/swap.rs:355-356 | telescoping bound: one more step cannot push the accumulated output past 128 bits |
| SwapBounds.OnlyThePriceSumCanOverflow | crates/birdai-amm/src/lib.rs:8-24 | with 64-bit input and liquidity throughout, a swap fails for arithmetic reasons exactly when the price sum of one of its turns overflows |
| SwapBounds.ShallowPoolOverflows | crates/birdai-amm/src/swap.rs:111 | that overflow happens: liquidity 1 and any 64-bit input whose net takes the price sum past 128 bits |
| SwapDepth.RoomForEverySum | crates/birdai-amm/src/swap.rs:99-112 | if the limit plus the input's increment at the least liquidity met fits in 128 bits, no price sum on the way overflows; dry ranges do not matter |
| SwapDepth.DeepIndexNeverOverflows | crates/birdai-amm/src/lib.rs:8-24 | what a caller can check first, over a built index from an agreeing start: 64-bit input, at every price up to the limit liquidity below 2^64 and none or at least a given least, and that room above the limit, rule out every pricing overflow |
| SwapDepth.OnlyOneUnitOverflows | crates/birdai-venue/src/cetus.rs:106-117 | a quote from an agreeing start over a built index, input and liquidity 64-bit, meets a pricing overflow only going up and only if some range up to the limit holds exactly one unit of liquidity |
| SwapFailures.CrossExact | crates/birdai-amm/src/swap.rs:383-397 | a boundary is crossed exactly if a crossing is left, its net has a negation going down and the liquidity with it fits, and then takes its tick and that liquidity; otherwise the first of these to fail is the error |
| SwapFailures.TurnFailsExactly | crates/birdai-amm/src/swap.rs:314-402 | a turn fails exactly if liquidity is zero, the price reached or an amount or the output so far does not fit, the input does not move the price, or its boundary cannot be crossed, each with its own error and in that order |
| SwapFailures.BoundedTurn | crates/birdai-amm/src/lib.rs:8-24 | with 64-bit input and liquidity only four of these remain: zero liquidity, the price sum, no progress, the crossing |
| SwapFailures.WalkFailsExactly | crates/birdai-amm/src/swap.rs:306-402 | a run fails with an error exactly if some turn it comes to does |
| SwapFailures.SwapIsRefused | crates/birdai-amm/src/swap.rs:284-301 | a zero price, zero liquidity, an unreachable limit or an illegal fee is refused up front, in that order |
| SwapFailures.SwapFailsAsItsRun | crates/birdai-amm/src/swap.rs:276-433 | any other swap fails with an error exactly if some turn it comes to does, and succeeds in every other case |
| SwapFailures.StallsExactly | crates/birdai-amm/src/swap.rs:331-338 | an input does not move the price exactly if it is below what one unit of price costs, in either direction |
| SwapFailures.SoundIndexFailures | crates/birdai-amm/src/swap.rs:331-397 | over a built index from an agreeing start, 64-bit input and liquidity up to the limit: no crossing fails on its liquidity; too many crossings only with more nodes up to the limit, zero liquidity only in a dry range, no progress only going down where the input does not move the price, overflow only going up where it moves it past 128 bits |
| SwapFailures.QuoteSucceeds | crates/birdai-venue/src/cetus.rs:106-117 | a quote from an agreeing start goes through if liquidity up to the limit is 64-bit and at least two units and no more nodes stand there than may be crossed, except that going down it may stall |
| RoundTrips.WayBackNeverProfits | crates/birdai-amm/src/swap.rs:306-402 | a run back over the steps of another, from a tick that agrees, ends at or short of where that began and pays no more than it consumed, whatever boundaries are crossed |
| RoundTrips.RoundTripRunNeverProfits | crates/birdai-amm/src/swap.rs:276-433 | whole swaps at any fee: selling at most what a swap from an agreeing start bought, from the price and range it ended in and a tick agreeing for the way back, ends at or short of the start and returns no more than was consumed |
| RoundTrips.ReturnFromReportedStateProfits | crates/birdai-amm/src/swap.rs:422-433 | a concrete quote and the quote back of what it bought from the state it reports, which returns more than was put in; the reported tick does not agree for the way back |
| TickMath.MultiplyFactors | crates/birdai-amm/src/tick.rs:98-104 | the loop over the factor table applies the factor of every set bit, lowest first, and nothing else |
| TickMath.SqrtPriceAtTick | crates/birdai-amm/src/tick.rs:93-113 | the loop, the inversion of positive ticks and the narrowing compute the specified price or the out-of-range error |
| TickMath.RatiosStayApart | crates/birdai-amm/src/tick.rs:98-104 | applying the same remaining factors to two ratios keeps their relative gap, at one unit of error per factor |
| TickMath.NeighboursApart | crates/birdai-amm/src/tick.rs:38-104 | ratios of consecutive magnitudes are apart, across every carry of the bit decomposition |
| TickMath.SqrtPriceIsPrice | crates/birdai-amm/src/tick.rs:93-113 | on the whole grid no operation of the computation overflows and it returns the closed-form price; off it every tick is refused, by name |
| TickMath.GridEnds | crates/birdai-amm/src/tick.rs:160-164 | the published minimum and maximum prices are the computed prices of the ends of the grid |
| TickMath.ToleranceExact | crates/birdai-amm/src/tick.rs:67-87 | a distance is tolerated exactly if it is at most one unit or one part in 2^48 of the computed price |
| TickMath.NeighbourPrices | crates/birdai-amm/src/tick.rs:93-113 | adjacent ticks' prices differ by at least one part in 20010, all truncations included |
| TickMath.PricesIncrease | crates/birdai-amm/src/tick.rs:38-113 | prices strictly increase over the whole grid, any two by more than their two tolerances combined |
| TickMath.StoredPricesIncrease | crates/birdai-tick/src/index.rs:346-364 | prices stored within tolerance are ordered as their ticks |
| TickMath.Bisect | crates/birdai-amm/src/tick.rs:144-157 | inside the grid the bounded search returns the floor tick; the cap of 24 steps never ends it early |
| TickMath.TickAtSqrtPrice | crates/birdai-amm/src/tick.rs:124-158 | zero is refused, every other price gets its floor tick |
| TickMath.FloorTicksOrdered | crates/birdai-amm/src/tick.rs:120-158 | a price has one floor tick, a higher price no lower one |
| TickMath.FloorTickInverts | crates/birdai-amm/src/tick.rs:120-158 | price to tick inverts tick to price on every tick of the grid |
| TickMath.FloorTickMonotone | crates/birdai-amm/src/tick.rs:120-158 | the floor tick is monotone in the price |
| TickMath.FloorTickClamps | crates/birdai-amm/src/tick.rs:129-136 | below and above the grid the floor tick is the end of the grid |
| TickPowers.FirstFactorIsRoot | crates/birdai-amm/src/tick.rs:33-39 | the first factor is the square root of 10000/10001 with 128 fractional bits, rounded down |
| TickPowers.FactorsAreSquares | crates/birdai-amm/src/tick.rs:33-59 | every other factor is the square of the one before it, to within two units |
| TickPowers.PriceIsPower | crates/birdai-amm/src/tick.rs:89-113 | every tick's price is 2^64 times the square root of 1.0001 to that tick, rounded down, to within one part in 2^71 of its square, table, truncations and inversion included |
| TickPowers.FloorTickIsLogarithm | crates/birdai-amm/src/tick.rs:115-158 | inside the grid the tick of a price is the logarithm of its square to the base 1.0001, rounded down, as precisely |
| TickIndexProperties.ScoresRoundTrip | crates/birdai-tick/src/index.rs:41-55 | skip-list keys and ticks encode each other, each conversion undoing the other wherever it is defined |
| TickIndexProperties.InsertedAllExact | crates/birdai-tick/src/index.rs:261-307 | inserting nodes one by one keeps their order and fails exactly on a key that does not encode its tick or one already present |
| TickIndex.Ticks.Validate | crates/birdai-tick/src/index.rs:310-370 | nodes are sorted and both maps rebuilt, then size, links and prices are checked in order; deviations are replaced only on success |
| TickIndex.Ticks.Fill | crates/birdai-tick/src/index.rs:261-266 | filling an empty index gives the specified index or its first error |
| TickIndex.Ticks.ValidateSpacing | crates/birdai-tick/src/index.rs:469-479 | accepted exactly when every tick is on the grid or the spacing is zero; otherwise the first tick off the grid is named |
| TickIndex.New | crates/birdai-tick/src/index.rs:217-233 | builds with the declared size enforced |
| TickIndex.FromChildren | crates/birdai-tick/src/index.rs:240-259 | builds with the declared size only reported, as a skew exactly when it differs |
| TickIndexProperties.CheckPriceExact | crates/birdai-tick/src/index.rs:346-364 | a stored price is accepted exactly within one unit or one part in 2^48 of the computed one, and its deviation is then exact, never saturated |
| TickIndexProperties.BuiltExact | crates/birdai-tick/src/index.rs:261-370 | building succeeds exactly on acceptable nodes of an agreeing size, and yields a strictly tick-ordered array of just those nodes, its two inverse maps, upward links and exact histogram |
| TickIndexProperties.BuildingIgnoresOrder | crates/birdai-tick/src/index.rs:261-370 | neither success nor the index depends on the order of the input |
| TickIndexProperties.HistogramIsExact | crates/birdai-tick/src/index.rs:315-368 | the deviation histogram counts every node once |
| TickIndexErrors.BuildingFailsExactly | crates/birdai-tick/src/index.rs:261-370 | building fails with exactly one error: the first node read whose key is out of range, wrong or repeated; failing that, a declared size that must agree and does not; failing that, the first node in tick order whose link dangles or does not ascend, or whose price is off, each naming the node and the values |
| TickIndexProperties.GetIsScan | crates/birdai-tick/src/index.rs:439-441 | an exact lookup finds the one node of that tick, if any |
| TickIndexProperties.NextAboveIsScan | crates/birdai-tick/src/index.rs:484-489 | equals a linear scan for the lowest tick above |
| TickIndexProperties.NextAtOrBelowIsScan | crates/birdai-tick/src/index.rs:494-499 | equals a linear scan for the highest tick at or below |
| TickIndexProperties.NextBelowIsScan | crates/birdai-tick/src/index.rs:504-509 | equals a linear scan for the highest tick strictly below |
| TickIndexProperties.NearestIsScan | crates/birdai-tick/src/index.rs:446-462 | no node is nearer, and of two equally near the lower is returned |
| TickIndexProperties.LinkWalkClimbs | crates/birdai-tick/src/index.rs:328-344 | a walk along first links only climbs, visits no node twice, and so ends |
| Crossing.BuiltIndexClimbs | crates/birdai-tick/src/index.rs:310-370 | in a built index stored prices strictly increase with the tick |
| Crossing.BoundaryIsNearest | crates/birdai-tick/src/index.rs:536-552 | from an agreeing start the boundary seen is the nearest node ahead of the price, and one is seen whenever there is one |
| Crossing.SwapCrossesExactly | crates/birdai-amm/src/swap.rs:314-402 | from an agreeing start the ticks crossed are exactly those priced after the start and up to the end; each step uses the liquidity in force, the end liquidity has all nets, the end tick is the last crossed |
| MissedTicks.MetExactly | crates/birdai-tick/src/index.rs:536-552 | the nodes a run meets from any start are the passed ones strictly beyond its starting tick, if its first boundary is ahead at all |
| MissedTicks.SwapCrossesWhatItMeets | crates/birdai-amm/src/swap.rs:314-402 | from any start, agreeing or not, a run crosses exactly the nodes it meets, with the liquidity and end tick that gives |
| MissedTicks.MissedExactlyWhen | crates/birdai-amm/src/swap.rs:320-329 | a passed tick is missed exactly when it is not strictly beyond the starting tick or the nearest one was dropped as not ahead |
| MissedTicks.OwnTickIsMissedGoingDown | crates/birdai-tick/src/index.rs:545-551 | a concrete quote passes the price of the pool's own initialised tick and leaves its liquidity in force |
| Cetus.StaysInsideCurrentRange | crates/birdai-venue/src/cetus.rs:140-164 | the range test answers whether start and reached price have the stored tick as floor tick, with its error exits |
| Cetus.RangeTestExact | crates/birdai-venue/src/cetus.rs:140-164 | in both directions the test says yes if and only if the stored tick is the floor tick of both the start and the exact price the net input reaches, and fails only if that price cannot be computed |
| Cetus.RangeTestAnswers | crates/birdai-venue/src/cetus.rs:140-164 | with 64-bit input and liquidity it always answers going down, and going up fails exactly if the price reached leaves 128 bits; a dry pool is answered no |
| Cetus.QuoteNeedsNoTicks | crates/birdai-venue/src/cetus.rs:130-164 | when the test says yes, quoting against any built index equals quoting against the empty one; going up, unless the next tick is stored within reach |
| Cetus.NextTickAtTheMathIsOutOfReach | crates/birdai-venue/src/cetus.rs:130-164 | a next tick stored at or above the tick math is never within reach |
| Cetus.TicksMatterExactlyWhenInReach | crates/birdai-venue/src/cetus.rs:130-164 | going up, the two quotes agree if and only if the next tick is not stored within reach, for every 64-bit input and liquidity and beyond them whenever the quote without ticks succeeds |
| Cetus.RangeTestCanMissATick | crates/birdai-venue/src/cetus.rs:130-164 | a concrete pool and accepted index where the test says yes and the quotes differ |
| Cetus.NextGridTickBoundsTheNextTick | crates/birdai-venue/src/cetus.rs:172-180 | on a spacing-checked index no initialised tick lies strictly between the pool's tick and the next grid tick, the first multiple strictly above |
| Cetus.DocumentedExactlyOffTheGrid | crates/birdai-venue/src/cetus.rs:166-180 | the next grid tick is the first multiple at or above the pool's tick, as documented, if and only if that tick is off the grid and the next multiple fits in 32 bits, as it does for every spacing up to 2^28 |
| Cetus.GridTickOvershootsOnTheGrid | crates/birdai-venue/src/cetus.rs:166-180 | a concrete pool on the grid whose next grid tick is one spacing past the documented one |
| StateManager.GatherInto | crates/birdai-state/src/manager.rs:354-391 | changes are sorted into candidates, removals, children and missing objects, in order |
| StateManager.ResolveTags | crates/birdai-state/src/manager.rs:393-422 | a candidate's tag is kept, with its layout, exactly if it resolves |
| StateManager.DecodeAll | crates/birdai-state/src/manager.rs:424-470 | every candidate with a layout and contents is decoded in order; the others are counted as skipped |
| StateManager.StateManager.IndexChildren | crates/birdai-state/src/manager.rs:565-605 | children of tracked pools' inner UIDs are indexed, parent by parent, and no others |
| StateManager.StateManager.ApplyCheckpoint | crates/birdai-state/src/manager.rs:324-611 | a duplicate changes nothing; otherwise publication, removals, child indexing and commit, in that order |
| StateManager.StateManager.SetTicks | crates/birdai-state/src/manager.rs:270-278 | attaches an index to a tracked venue and changes nothing else |
| StateManager.StateManager.InstallTicks | crates/birdai-state/src/manager.rs:644-663 | attached and returned with its size skew exactly if it builds, lies on the pool's grid and the venue is tracked; otherwise the first of these to fail is reported and nothing changes |
| StateProperties.PublishedIsNewest | crates/birdai-state/src/manager.rs:474-538 | publishing one result leaves a slot the newest of what it held and that result, ticks carried over |
| StateProperties.RemovedAllSlots | crates/birdai-state/src/manager.rs:540-547 | removals untrack exactly the ids removed and leave every other slot as it was |
| StateProperties.OutcomesOfCheckpoint | crates/birdai-state/src/manager.rs:354-470 | a checkpoint's results and removals are exactly those its changes name, whatever their order |
| StateProperties.CheckpointKeepsNewest | crates/birdai-state/src/manager.rs:474-558 | after a checkpoint a removed id is untracked and any other holds the newest of what it held and what was decoded, with that version's content and the earlier ticks |
| StateProperties.NewestShownIsPublished | crates/birdai-state/src/manager.rs:354-538 | the newest version a checkpoint shows of an object it does not remove, if newer than the one held, is what the slot holds after: its tag, its contents decoded under that tag's layout, that layout's fingerprint, the ticks loaded earlier |
| StateProperties.NothingNewerShown | crates/birdai-state/src/manager.rs:354-538 | an object that does not resolve, has no contents, does not decode or is no newer changes no slot |
| StateProperties.ChangeOrderDoesNotMatter | crates/birdai-state/src/manager.rs:359-558 | the resulting slots depend on the set of changes only, not on transaction order or repetition |
| StreamProperties.RedeliveryChangesNothing | crates/birdai-state/src/manager.rs:332-344 | delivering anything at or below a delivered sequence, anywhere in a stream, changes nothing |
| StreamProperties.TrackedIsCreatedMinusRemoved | crates/birdai-state/src/manager.rs:515-547 | over any stream the venues tracked number those created minus those removed |
| CheckpointCounts.CheckpointCounters | crates/birdai-state/src/manager.rs:354-538 | each change to a venue object is counted once: a failure if missing, skipped, undecodable or older than held; unrecognised; created or updated; not at all if the version held |
| CheckpointCounts.IndexedIsGrowth | crates/birdai-state/src/manager.rs:565-605 | the children counted as indexed are those by which the index grows after removals |
| ChildIndex.IndexStaysSound | crates/birdai-state/src/manager.rs:540-608 | over any run with fixed parents and inner UIDs: owner entries name the parent holding the child, no set exceeds the capacity, every indexed parent belongs to a tracked pool |
| ChildIndex.ChildrenAreBounded | crates/birdai-state/src/manager.rs:156-167 | so all children held are at most the capacity times the pools tracked |
| ChildIndex.NamedChildIsHeldOrFull | crates/birdai-state/src/manager.rs:540-608 | a child named under a pool tracked after the checkpoint ends up indexed unless the set is full, even if the same checkpoint deletes it |
| ChildIndex.ChildInsertedSound | crates/birdai-state/src/manager.rs:161-166 | inserting a child keeps owners in step with sets and every set within its capacity |
| ChildHistory.HeldAfterCheckpoint | crates/birdai-state/src/manager.rs:540-608 | after a checkpoint without overflow a pool's set holds exactly the children named in it under that tracked pool and those held before and not removed, themselves or with their pool |
| ChildHistory.IndexIsItsHistory | crates/birdai-state/src/manager.rs:540-608 | over every run with fixed wiring, while no child was dropped for want of room, the index holds exactly the children some checkpoint named under a tracked pool and none since removed |
| Packages.PackageVersions.Observe | crates/birdai-resolve/src/layout.rs:60-73 | the loop over observations updates the tracked versions as specified |
| Packages.ObservedIsMaximum | crates/birdai-resolve/src/layout.rs:58-79 | the live version is a running maximum: at least all held and seen, and one of them |
| Packages.ObservationOrderDoesNotMatter | crates/birdai-resolve/src/layout.rs:58-79 | it depends on which observations were made, not on order or repetition |
| MoveLayout.TagAddressesExact | crates/birdai-resolve/src/layout.rs:286-300 | the collected packages of a type tag are exactly those some struct nested in it names |
| MoveLayout.MentionedExact | crates/birdai-resolve/src/layout.rs:377-390 | the collected packages of a layout are exactly those named at any position: fields, vector elements, variants, type arguments |
| MoveLayout.CollectTypeTag | crates/birdai-resolve/src/layout.rs:286-300 | the recursion over type parameters adds exactly a tag's packages to the set |
| MoveLayout.Collect | crates/birdai-resolve/src/layout.rs:488-506 | the visit of every node adds exactly the packages the layout mentions |
| LayoutRegistry.CollectDependencies | crates/birdai-resolve/src/layout.rs:377-390 | pairs each mentioned package with its live version |
| LayoutRegistry.LayoutRegistry.NotePackages | crates/birdai-resolve/src/layout.rs:249-273 | observations are recorded and all stale entries evicted and counted; nothing happens on none |
| LayoutTransparency.StepKeepsInv | crates/birdai-resolve/src/layout.rs:249-339 | every step keeps each entry resolved and recorded at versions no later than the chain's; every timely step keeps it recorded no later than it was resolved |
| LayoutTransparency.CacheIsTransparent | crates/birdai-resolve/src/layout.rs:304-339 | after any run a lookup returns what uncached resolution returns, if resolution is local to mentioned packages, those are observed up to date and no store was late |
| LayoutTransparency.AtomicLookupsAreTimely | crates/birdai-resolve/src/layout.rs:304-339 | lookups that resolve and store in one step, at versions no older than observed, are never late |
| LayoutTransparency.StoreIsTransparentExactly | crates/birdai-resolve/src/layout.rs:317-334 | with a pending layout's packages observed up to date, the lookup after its store is right exactly if no newer version was observed in between or the upgrade left the layout as it was |
| LayoutTransparency.StoreIsTransparentExactlyWhenTimely | crates/birdai-resolve/src/layout.rs:317-334 | when layouts show every version, exactly if no newer version was observed in between |
| LayoutTransparency.MovedExactlyWhenPublished | crates/birdai-resolve/src/layout.rs:304-339 | over any real steps the chain's version of a package never falls, and rises exactly if one of them published a newer one |
| LayoutTransparency.HitIsRightExactlyWhenNothingPublished | crates/birdai-resolve/src/layout.rs:304-339 | when layouts show every version: after a lookup that resolves at the chain's versions and any steps that leave its entry alone, a hit is right exactly if none of them published a newer version of a package the layout mentions, observed or not |
| LayoutTransparency.HitIsFreshExactlyWhenInTime | crates/birdai-resolve/src/layout.rs:304-339 | when layouts show every version, after any run, late stores included, a hit on packages observed up to date is right exactly if its record is no later than its resolution |
| LayoutTransparency.UpgradedShowsVersions | crates/birdai-resolve/src/layout.rs:304-339 | a resolver that depends on mentioned packages only and shows each of their versions exists |
| LayoutTransparency.LateStoreIsSuperseded | crates/birdai-resolve/src/layout.rs:317-334 | a package mentioned by a layout stored late had moved on the chain past the version resolved from |
| LayoutTransparency.LateStoreIsServedStale | crates/birdai-resolve/src/layout.rs:317-334 | a concrete interleaving after which the cache serves an old layout although everything is observed |
| LayoutTransparency.UnobservedUpgradeIsServedStale | crates/birdai-resolve/src/layout.rs:109-122 | a concrete run with an unobserved upgrade after which the old layout is served |
| LayoutTransparency.NotingDropsExactlyTheMoved | crates/birdai-resolve/src/layout.rs:249-273 | an entry is dropped exactly if a package its layout mentions moved past the recorded version; the rest stay as they were |
| LayoutUse.CountersOfARun | crates/birdai-resolve/src/layout.rs:249-339 | over any run hits are the lookups answered from the cache, misses the others that have a canonical tag, and invalidations the entries evicted |
| LayoutUse.ServedUntilMoved | crates/birdai-resolve/src/layout.rs:304-320 | a cached layout is served over any steps until a newer version is observed of a package it depends on, or its tag is invalidated or stored anew |
| PackageStore.StepKeepsSound | crates/birdai-resolve/src/store.rs:85-103 | a step keeps recorded versions at most the package's, and fetches at least the version read, exactly when the source's answer is fresh enough |
| PackageStore.RecordedNeverExceedsPackage | crates/birdai-resolve/src/store.rs:85-103 | so do all interleavings of fetches and observations |
| PackageStore.FetchIsNeverOlderThanObserved | crates/birdai-resolve/src/store.rs:92-101 | however steps interleave, a fetch never returns a package older than any version observed before it began |
| PackageStore.StepsOfOneFetch | crates/birdai-resolve/src/store.rs:85-103 | the steps of a fetch without interference are the sequential fetch |
| PackageStore.KeptIsServed | crates/birdai-resolve/src/store.rs:92-101 | what a fetch keeps is served to exactly the fetches that have read no newer version |
| PackageStore.LaggingSourceIsServedOn | crates/birdai-resolve/src/store.rs:85-103 | with a source behind what was observed, an old package is kept and served on as current |
| ResolutionStack.StackRunIsRealRun | crates/birdai-resolve/src/store.rs:85-103 | with the layout cache over the package store on one tracker and fetches interleaved step by step, every run is a real run of the layout cache, and no package kept, fetched or returned is newer than published |
| ResolutionStack.ReadsTheChain | crates/birdai-resolve/src/store.rs:85-103 | a package observed up to date and read by a fetch begun no earlier than that is read at the chain's version |
| ResolutionStack.StackIsTransparent | crates/birdai-resolve/src/layout.rs:304-339 | after any run of the two caches, fetches interleaved and nothing stored late, a lookup through both returns what resolution with neither returns, if the packages involved are observed and read up to date |
| ResolutionStack.ObservedStackIsTransparent | crates/birdai-resolve/src/layout.rs:304-339 | in particular whenever every published version has been observed and read since |
| ResolutionStack.StackHitIsRightExactlyWhenInTime | crates/birdai-resolve/src/layout.rs:304-339 | late stores included, when layouts show every version: a hit through both caches on packages observed up to date is right exactly if its record is no later than its resolution |
| FlameGraph.Add | third-party/allocative/src/flamegraph.rs:43-48 | adding all children of another graph, in any order, lays it over this one path by path |
| FlameGraph.AddChild | third-party/allocative/src/flamegraph.rs:51-61 | a child is inserted, or merged into the one of its name, and its total added |
| FlameGraph.MergeIsExact | third-party/allocative/src/flamegraph.rs:43-61 | merging keeps cached child sizes exact at every level and adds total sizes |
| FlameGraph.AddingChildIsExact | third-party/allocative/src/flamegraph.rs:51-61 | adding a child keeps the cached sizes exact and adds its total |
| FlameGraph.MergeAddsPaths | third-party/allocative/src/flamegraph.rs:43-61 | merging adds the sizes path by path |
| FlameGraph.MergeCommutes | third-party/allocative/src/flamegraph.rs:43-61 | exact graphs may be merged in either order |
| Arena.NodeHasOnePath | third-party/allocative/src/flamegraph.rs:248-261 | in the arena a node stands at one path only |
| Arena.GrownIsWellFormed | third-party/allocative/src/flamegraph.rs:248-261 | a new node keeps child ids above their parent's and one parent for each node but the root |
| Arena.EnteringMarks | third-party/allocative/src/flamegraph.rs:441-454 | entering a name accrues size and uniqueness at one path, moves no other, and keeps the arena well formed |
| FlameGraphBuilder.FlameGraphBuilder.Down | third-party/allocative/src/flamegraph.rs:248-261 | moves to the child of a name, made only if absent |
| FlameGraphBuilder.FlameGraphBuilder.Exit | third-party/allocative/src/flamegraph.rs:425-437 | goes up, or out of a shared pointer and up, or out of the root; its assertions cannot fail |
| FlameGraphBuilder.FlameGraphBuilder.EnterShared | third-party/allocative/src/flamegraph.rs:456-479 | a first visit suspends the position and goes to the root; a repeated one accrues the pointer and returns to where it was |
| FlameGraphBuilder.FlameGraphBuilder.VisitAll | third-party/allocative/src/flamegraph.rs:425-479 | every well-bracketed visit ends where it began with all assertions met, and records exactly its entries, shared targets once and at the top |
| FlameGraphBuilder.FlameGraphBuilder.VisitRoots | third-party/allocative/src/flamegraph.rs:358-370 | the same for roots in sequence, shared pointers remembered across them |
| FlameGraphBuilder.FlameGraphBuilder.UpdateSizes | third-party/allocative/src/flamegraph.rs:398-416 | fills in the remainder of every node below one, changes nothing else, and ends because ids only grow |
| FlameGraphBuilder.FlameGraphBuilder.Finish | third-party/allocative/src/flamegraph.rs:372-391 | the three assertions hold, and the graph written is exact and shows each node's remainder |
| ArenaSizes.WriteFlameGraph | third-party/allocative/src/flamegraph.rs:141-174 | the recursion over children writes the arena's flame graph |
| ArenaSizes.GraphShows | third-party/allocative/src/flamegraph.rs:141-174 | that graph shows at each path the positive remainder of the node there, nothing for the root |
| FlameGraphBuilder.RecordedSizeIsSum | third-party/allocative/src/flamegraph.rs:441-468 | the size recorded at a path is the sum of the sizes entered there |
| FlameGraphBuilder.Profile | third-party/allocative/src/flamegraph.rs:358-391 | end to end, the graph of some roots shows at each path the sizes entered there less those entered directly under it, unless unique |
| VisitShape.EntriesStand | third-party/allocative/src/flamegraph.rs:425-479 | what a visit records at a path is what stands there in its shape: nodes whose names lead there, unique if one of them is, and nothing under a shared pointer but what is visited at the top |
| VisitShape.RootsTargetsAreFirstVisits | third-party/allocative/src/flamegraph.rs:456-479 | what a shared pointer points to is visited once for each pointer found in the roots or in another one visited, and for no other |
| VisitShape.ReportIsShape | third-party/allocative/src/flamegraph.rs:358-391 | the graph shows at each path the sizes standing there in roots and targets, less those standing directly under it unless a unique pointer stands there |
| VisitShape.UniqueShowsItself | third-party/allocative/src/flamegraph.rs:446-454 | a unique pointer shows at least its own size, however much is visited inside it |
| VisitOrder.RootOrderDoesNotMatter | third-party/allocative/src/flamegraph.rs:358-391 | with what each shared pointer points to fixed, the graph is the same for any order of the roots |

## Left out

- gRPC and archive routing, retries, batching, fixtures and the command line: input and output.
- Decoding of Move values and layout resolution: opaque functions of the schema in force (`StateManager.Schema`, `LayoutRegistry.Resolver`).
- The error message strings: the overflowing operation is an enumeration, `Checked.Operation`.
- `U256` of move-core-types is not part of this model; the shifts the pricing code makes are by constants 64 and 128, modelled as exact when left-shifting a 128-bit value or 1, and as division when right-shifting. Shifts by other amounts are not modelled.
- Node fields pricing does not read (fee growth, reward growth, points, growth outside) and pool fields other than price, liquidity, tick, fee rate and spacing; `is_priceable` and every floating-point display function.
- Overflow of the `u32` crossing counter: it is refused at `max_crossings` first, except for a limit of 2^32 - 1.
- Cetus.TicksMatterExactlyWhenInReach: nothing is said where input or liquidity pass 64 bits and the quote without ticks itself fails.
- StateManager.StateManager.ApplyCheckpoint: the `UpdateReport` it returns and the package observations it forwards, which repeat the counters of the state and the tracker.
- Atomics and memory ordering, rayon and tokio scheduling; one manager applies checkpoints serially, as its documentation demands.
- Calling `note_packages` from a checkpoint: a delivery carries the schema in force after it.
- Child sets are values in the map of children rather than objects updated through an entry; no two parents share one.
- FlameGraph.Add: a flame graph owns its children, so the merge in place is modelled on values; sizes are unbounded naturals, without `usize` overflow and `isize` saturation.
- FlameGraph.AddChild: as for Add.
- FlameGraphBuilder.FlameGraphBuilder.UpdateSizes: on unbounded integers, so without the saturation of the `isize` subtraction.
- The text output of flame graphs and warnings, and hence the sorting of children, which affects only that text.
- Layout fingerprints (blake3) and the fixed text order of dependencies: dependencies are a map from package to version.
- The classifier, Volo and Navi typing, and the size-reporting implementations of allocative.
