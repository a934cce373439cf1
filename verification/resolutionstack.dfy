/** The layout cache over the package store, both on one version tracker, with fetches interleaved. */
module ResolutionStack {
  import opened Wrappers
  import opened Packages
  import opened MoveLayout
  import opened LayoutRegistry
  import opened LayoutTransparency
  import PackageStore

  /** The two share what was observed: `store.versions` is `layouts.registry.live`. */
  datatype Stack = Stack(layouts: System, store: PackageStore.Store)

  const EMPTY_STACK: Stack := Stack(START, PackageStore.START)

  /** Which fetch delivered each package a resolution reads. */
  type Reads = map<Address, nat>

  /** A read is a fetch of that package that is done and found it. */
  predicate ReadsAreDone(store: PackageStore.Store, readings: Reads) {
    forall a | a in readings ::
      && readings[a] in store.fetches
      && var f := store.fetches[readings[a]];
      f.Done? && f.id == a && f.result.Some?
  }

  /** The versions a resolution reads its packages at; a package it has not read is as good as absent. */
  function ReadVersions(store: PackageStore.Store, readings: Reads): Versions
    requires ReadsAreDone(store, readings)
  {
    map a | a in readings :: store.fetches[readings[a]].result.value.version
  }

  /**
   * Any fetch may move at any time, observations reach both caches, and a layout is resolved from fetches
   * that are done, however long ago.
   */
  datatype Move =
    | Fetching(fetch: PackageStore.Step)
    | Observing(observations: seq<(Address, Version)>, noted: bool)
    | Resolving(worker: nat, tag: StructTag, readings: Reads)
    | LookingUp(tag: StructTag, readings: Reads)
    | Storing(worker: nat)
    | Publishing(package: Address, version: Version)
    | Invalidating(tag: StructTag)

  /** The source answers with a package no older than observed when the fetch began, and no newer than published. */
  ghost predicate Possible(s: Stack, move: Move) {
    match move
    case Fetching(fetch) =>
      && !fetch.Observe? && PackageStore.Fresh(s.store, fetch)
      && (fetch.Answer? && fetch.package.Some? && fetch.worker in s.store.fetches ==>
            fetch.package.value.version <= Live(s.layouts.world, s.store.fetches[fetch.worker].id))
    case Observing(observations, _) => Published(s.layouts.world, observations)
    case Resolving(_, _, readings) => ReadsAreDone(s.store, readings)
    case LookingUp(_, readings) => ReadsAreDone(s.store, readings)
    case Publishing(package, version) => version >= Live(s.layouts.world, package)
    case _ => true
  }

  /** What a move is to the layout cache alone, if it is anything. */
  function Steps(s: Stack, move: Move): seq<Step>
    requires move.Resolving? || move.LookingUp? ==> ReadsAreDone(s.store, move.readings)
  {
    match move
    case Fetching(_) => []
    case Observing(observations, noted) => [if noted then Note(observations) else Observe(observations)]
    case Resolving(worker, tag, readings) => [Resolve(worker, tag, ReadVersions(s.store, readings))]
    case LookingUp(tag, readings) => [Lookup(tag, ReadVersions(s.store, readings))]
    case Storing(worker) => [Store(worker)]
    case Publishing(package, version) => [Publish(package, version)]
    case Invalidating(tag) => [Invalidate(tag)]
  }

  /** And what it is to the package store alone. */
  function StoreAfter(s: Stack, move: Move): PackageStore.Store {
    match move
    case Fetching(fetch) => PackageStore.Next(s.store, fetch)
    case Observing(observations, _) => PackageStore.Next(s.store, PackageStore.Observe(observations))
    case _ => s.store
  }

  ghost function Moved(resolver: Resolver, s: Stack, move: Move): Stack
    requires Possible(s, move)
  {
    Stack(Run(resolver, s.layouts, Steps(s, move)), StoreAfter(s, move))
  }

  ghost predicate AllPossible(resolver: Resolver, s: Stack, moves: seq<Move>)
    decreases |moves|
  {
    moves != [] ==> Possible(s, moves[0]) && AllPossible(resolver, Moved(resolver, s, moves[0]), moves[1..])
  }

  ghost function RunOf(resolver: Resolver, s: Stack, moves: seq<Move>): Stack
    requires AllPossible(resolver, s, moves)
    decreases |moves|
  {
    if moves == [] then s else RunOf(resolver, Moved(resolver, s, moves[0]), moves[1..])
  }

  /** The steps a run of the stack is to the layout cache. */
  ghost function StepsOf(resolver: Resolver, s: Stack, moves: seq<Move>): seq<Step>
    requires AllPossible(resolver, s, moves)
    decreases |moves|
  {
    if moves == [] then []
    else Steps(s, moves[0]) + StepsOf(resolver, Moved(resolver, s, moves[0]), moves[1..])
  }

  // ---------- the store under the cache ----------

  /** No package kept, fetched or returned is newer than the chain's. */
  ghost predicate NoneNewer(world: Versions, store: PackageStore.Store) {
    && (forall id | id in store.cache :: store.cache[id].package.version <= Live(world, id))
    && (forall worker | worker in store.fetches :: FetchNotNewer(world, store.fetches[worker]))
  }

  predicate FetchNotNewer(world: Versions, f: PackageStore.Fetch) {
    && (f.Answered? ==> f.package.version <= Live(world, f.id))
    && (f.Done? && f.result.Some? ==> f.result.value.version <= Live(world, f.id))
  }

  ghost predicate StackInv(s: Stack) {
    && s.store.versions == s.layouts.registry.live
    && PackageStore.Sound(s.store)
    && NoneNewer(s.layouts.world, s.store)
  }

  lemma ReadsNotNewer(s: Stack, readings: Reads)
    requires StackInv(s) && ReadsAreDone(s.store, readings)
    ensures UpTo(ReadVersions(s.store, readings), s.layouts.world)
  {
    var at := ReadVersions(s.store, readings);
    forall p: Address
      ensures Live(at, p) <= Live(s.layouts.world, p)
    {
      if p in readings {
        assert FetchNotNewer(s.layouts.world, s.store.fetches[readings[p]]);
      }
    }
  }

  lemma FetchingKeepsNoneNewer(world: Versions, store: PackageStore.Store, fetch: PackageStore.Step)
    requires NoneNewer(world, store)
    requires fetch.Answer? && fetch.package.Some? && fetch.worker in store.fetches ==>
      fetch.package.value.version <= Live(world, store.fetches[fetch.worker].id)
    ensures NoneNewer(world, PackageStore.Next(store, fetch))
  {
  }

  lemma PublishingKeepsNoneNewer(world: Versions, store: PackageStore.Store, package: Address, version: Version)
    requires NoneNewer(world, store) && version >= Live(world, package)
    ensures NoneNewer(world[package := version], store)
  {
    forall worker | worker in store.fetches
      ensures FetchNotNewer(world[package := version], store.fetches[worker])
    {
      assert FetchNotNewer(world, store.fetches[worker]);
    }
  }

  /** Only observations change what is live. */
  lemma LiveAfter(resolver: Resolver, s: System, step: Step)
    ensures Next(resolver, s, step).registry.live == match step
      case Observe(observations) => Observed(s.registry.live, observations)
      case Note(observations) => Observed(s.registry.live, observations)
      case _ => s.registry.live
    ensures !step.Publish? ==> Next(resolver, s, step).world == s.world
  {
  }

  lemma OneStep(resolver: Resolver, s: System, step: Step)
    ensures Run(resolver, s, [step]) == Next(resolver, s, step)
    ensures AllReal(resolver, s, [step]) <==> Real(s, step)
    ensures AllTimely(resolver, s, [step]) <==> Timely(resolver, s, step)
  {
    assert [step][1..] == [];
  }

  /** A move keeps the invariant, and is real to the layout cache. */
  lemma MoveKeepsInv(resolver: Resolver, s: Stack, move: Move)
    requires StackInv(s) && Possible(s, move)
    ensures StackInv(Moved(resolver, s, move)) && AllReal(resolver, s.layouts, Steps(s, move))
  {
    if move.Fetching? {
      PackageStore.StepKeepsSound(s.store, move.fetch);
      FetchingKeepsNoneNewer(s.layouts.world, s.store, move.fetch);
    } else {
      var step := Steps(s, move)[0];
      OneStep(resolver, s.layouts, step);
      LiveAfter(resolver, s.layouts, step);
      match move
      case Observing(observations, _) => PackageStore.StepKeepsSound(s.store, PackageStore.Observe(observations));
      case Publishing(package, version) =>
        PublishingKeepsNoneNewer(s.layouts.world, s.store, package, version);
      case Resolving(_, _, readings) => ReadsNotNewer(s, readings);
      case LookingUp(_, readings) => ReadsNotNewer(s, readings);
      case _ =>
    }
  }

  lemma {:induction false} RunsJoin(resolver: Resolver, s: System, a: seq<Step>, b: seq<Step>)
    ensures Run(resolver, s, a + b) == Run(resolver, Run(resolver, s, a), b)
    ensures AllReal(resolver, s, a + b) <==> AllReal(resolver, s, a) && AllReal(resolver, Run(resolver, s, a), b)
    decreases |a|
  {
    if a == [] {
      assert a + b == b;
    } else {
      assert (a + b)[1..] == a[1..] + b;
      RunsJoin(resolver, Next(resolver, s, a[0]), a[1..], b);
    }
  }

  /** Every run of the stack is a real run of the layout cache: all that holds of those holds of these. */
  lemma {:induction false} StackRunIsRealRun(resolver: Resolver, s: Stack, moves: seq<Move>)
    requires StackInv(s) && AllPossible(resolver, s, moves)
    ensures StackInv(RunOf(resolver, s, moves))
    ensures AllReal(resolver, s.layouts, StepsOf(resolver, s, moves))
    ensures Run(resolver, s.layouts, StepsOf(resolver, s, moves)) == RunOf(resolver, s, moves).layouts
    decreases |moves|
  {
    if moves != [] {
      var next := Moved(resolver, s, moves[0]);
      MoveKeepsInv(resolver, s, moves[0]);
      StackRunIsRealRun(resolver, next, moves[1..]);
      RunsJoin(resolver, s.layouts, Steps(s, moves[0]), StepsOf(resolver, next, moves[1..]));
    }
  }

  // ---------- transparency ----------

  /** Canonicalisation depends on nothing but the versions of the packages the tag names. */
  ghost predicate CanonicalLocal(resolver: Resolver) {
    forall tag, a, b | NamesAgree(tag, a, b) :: resolver.canonical(tag, a) == resolver.canonical(tag, b)
  }

  ghost predicate NamesAgree(tag: StructTag, a: Versions, b: Versions) {
    forall p: Address | Names(StructTypeTag(tag), p) :: Live(a, p) == Live(b, p)
  }

  /** The package is unpublished, or observed up to date and read by a fetch begun no earlier than that. */
  predicate ReadUpToDate(s: Stack, readings: Reads, p: Address)
    requires ReadsAreDone(s.store, readings)
  {
    Live(s.layouts.world, p) == 0 ||
    (&& Live(s.layouts.registry.live, p) == Live(s.layouts.world, p)
     && p in readings && s.store.fetches[readings[p]].live == Live(s.layouts.registry.live, p))
  }

  /** Such a package is read as the chain has it. */
  lemma ReadsTheChain(s: Stack, readings: Reads, p: Address)
    requires StackInv(s) && ReadsAreDone(s.store, readings) && ReadUpToDate(s, readings, p)
    ensures Live(ReadVersions(s.store, readings), p) == Live(s.layouts.world, p)
  {
    if p in readings {
      var f := s.store.fetches[readings[p]];
      assert PackageStore.FetchSound(s.store.versions, f) && FetchNotNewer(s.layouts.world, f);
    }
  }

  ghost predicate LayoutUpToDate(s: Stack, readings: Reads, layout: Option<Layout>)
    requires ReadsAreDone(s.store, readings)
  {
    layout.Some? ==> forall p: Address | Mentions(layout.value, p) :: ReadUpToDate(s, readings, p)
  }

  /**
   * So is every package the tag names, and every one mentioned by a layout the lookup could return: the
   * cached one, the one its reads resolve to, and the chain's.
   */
  ghost predicate TagUpToDate(resolver: Resolver, s: Stack, tag: StructTag, readings: Reads)
    requires ReadsAreDone(s.store, readings)
  {
    && (forall p: Address | Names(StructTypeTag(tag), p) :: ReadUpToDate(s, readings, p))
    && var canonical := resolver.canonical(tag, s.layouts.world);
    && (canonical.Some? ==>
          && InSync(s.layouts, canonical.value)
          && LayoutUpToDate(s, readings, resolver.layout(canonical.value, ReadVersions(s.store, readings)))
          && LayoutUpToDate(s, readings, resolver.layout(canonical.value, s.layouts.world)))
  }

  lemma ReadsAgreeWithChain(s: Stack, readings: Reads, layout: Layout)
    requires StackInv(s) && ReadsAreDone(s.store, readings) && LayoutUpToDate(s, readings, Some(layout))
    ensures Agree(layout, ReadVersions(s.store, readings), s.layouts.world)
  {
    forall p: Address | Mentions(layout, p)
      ensures Live(ReadVersions(s.store, readings), p) == Live(s.layouts.world, p)
    {
      ReadsTheChain(s, readings, p);
    }
  }

  lemma MissIsFresh(resolver: Resolver, s: Stack, canonical: StructTag, readings: Reads)
    requires Local(resolver) && StackInv(s) && ReadsAreDone(s.store, readings)
    requires LayoutUpToDate(s, readings, resolver.layout(canonical, ReadVersions(s.store, readings)))
    requires LayoutUpToDate(s, readings, resolver.layout(canonical, s.layouts.world))
    ensures resolver.layout(canonical, ReadVersions(s.store, readings)) == resolver.layout(canonical, s.layouts.world)
  {
    var at := ReadVersions(s.store, readings);
    var read, chain := resolver.layout(canonical, at), resolver.layout(canonical, s.layouts.world);
    if read.Some? {
      ReadsAgreeWithChain(s, readings, read.value);
    } else if chain.Some? {
      ReadsAgreeWithChain(s, readings, chain.value);
      assert Agree(chain.value, s.layouts.world, at);
    }
  }

  /** The canonical form of a tag whose packages are read up to date is the chain's. */
  lemma CanonicalIsFresh(resolver: Resolver, s: Stack, tag: StructTag, readings: Reads)
    requires CanonicalLocal(resolver) && StackInv(s) && ReadsAreDone(s.store, readings)
    requires forall p: Address | Names(StructTypeTag(tag), p) :: ReadUpToDate(s, readings, p)
    ensures resolver.canonical(tag, ReadVersions(s.store, readings)) == resolver.canonical(tag, s.layouts.world)
  {
    forall p: Address | Names(StructTypeTag(tag), p)
      ensures Live(ReadVersions(s.store, readings), p) == Live(s.layouts.world, p)
    {
      ReadsTheChain(s, readings, p);
    }
    assert NamesAgree(tag, ReadVersions(s.store, readings), s.layouts.world);
  }

  /** From a sound state with nothing stored late, hit or miss. */
  lemma LookupIsTransparent(resolver: Resolver, s: Stack, tag: StructTag, readings: Reads)
    requires Local(resolver) && CanonicalLocal(resolver)
    requires StackInv(s) && Inv(resolver, s.layouts, true)
    requires ReadsAreDone(s.store, readings) && TagUpToDate(resolver, s, tag, readings)
    ensures LookedUp(s.layouts.registry, resolver, ReadVersions(s.store, readings), tag).1
         == Uncached(resolver, s.layouts.world, tag)
  {
    CanonicalIsFresh(resolver, s, tag, readings);
    var canonical := resolver.canonical(tag, s.layouts.world);
    if canonical.Some? {
      MissIsFresh(resolver, s, canonical.value, readings);
      if Served(s.layouts.registry, canonical.value).Some? {
        HitIsFresh(resolver, s.layouts, canonical.value);
      }
    }
  }

  /**
   * With both caches on one tracker, after any run in which fetches, observations, publications and
   * lookups interleave and nothing was stored late, a lookup through both returns what resolution with
   * neither returns, if the packages involved are observed and read up to date.
   */
  lemma StackIsTransparent(resolver: Resolver, moves: seq<Move>, tag: StructTag, readings: Reads)
    requires Local(resolver) && CanonicalLocal(resolver) && AllPossible(resolver, EMPTY_STACK, moves)
    requires AllTimely(resolver, START, StepsOf(resolver, EMPTY_STACK, moves))
    requires var s := RunOf(resolver, EMPTY_STACK, moves);
      ReadsAreDone(s.store, readings) && TagUpToDate(resolver, s, tag, readings)
    ensures var s := RunOf(resolver, EMPTY_STACK, moves);
      LookedUp(s.layouts.registry, resolver, ReadVersions(s.store, readings), tag).1
      == Uncached(resolver, s.layouts.world, tag)
  {
    var s := RunOf(resolver, EMPTY_STACK, moves);
    StackRunIsRealRun(resolver, EMPTY_STACK, moves);
    RunKeepsInv(resolver, START, StepsOf(resolver, EMPTY_STACK, moves), true);
    LookupIsTransparent(resolver, s, tag, readings);
  }

  lemma AllObservedIsUpToDate(resolver: Resolver, s: Stack, tag: StructTag, readings: Reads)
    requires UpTo(s.layouts.registry.live, s.layouts.world) && UpTo(s.layouts.world, s.layouts.registry.live)
    requires ReadsAreDone(s.store, readings)
    requires forall p: Address | Live(s.layouts.world, p) > 0 ::
      p in readings && s.store.fetches[readings[p]].live == Live(s.layouts.registry.live, p)
    ensures TagUpToDate(resolver, s, tag, readings)
  {
    assert forall p: Address :: ReadUpToDate(s, readings, p);
  }

  /** In particular when all that is published has been observed, and every package read since. */
  lemma ObservedStackIsTransparent(resolver: Resolver, moves: seq<Move>, tag: StructTag, readings: Reads)
    requires Local(resolver) && CanonicalLocal(resolver) && AllPossible(resolver, EMPTY_STACK, moves)
    requires AllTimely(resolver, START, StepsOf(resolver, EMPTY_STACK, moves))
    requires var s := RunOf(resolver, EMPTY_STACK, moves);
      && UpTo(s.layouts.world, s.layouts.registry.live) && ReadsAreDone(s.store, readings)
      && forall p: Address | Live(s.layouts.world, p) > 0 ::
           p in readings && s.store.fetches[readings[p]].live == Live(s.layouts.registry.live, p)
    ensures var s := RunOf(resolver, EMPTY_STACK, moves);
      LookedUp(s.layouts.registry, resolver, ReadVersions(s.store, readings), tag).1
      == Uncached(resolver, s.layouts.world, tag)
  {
    StackRunIsRealRun(resolver, EMPTY_STACK, moves);
    RunKeepsInv(resolver, START, StepsOf(resolver, EMPTY_STACK, moves), true);
    var s := RunOf(resolver, EMPTY_STACK, moves);
    AllObservedIsUpToDate(resolver, s, tag, readings);
    LookupIsTransparent(resolver, s, tag, readings);
  }

  /**
   * With late stores allowed, and a resolver that shows every version, a hit through both caches on
   * packages observed up to date is right exactly if its entry was recorded in time.
   */
  lemma StackHitIsRightExactlyWhenInTime(
    resolver: Resolver, moves: seq<Move>, tag: StructTag, readings: Reads, canonical: StructTag)
    requires Local(resolver) && Sensitive(resolver) && CanonicalLocal(resolver)
    requires AllPossible(resolver, EMPTY_STACK, moves)
    requires var s := RunOf(resolver, EMPTY_STACK, moves);
      && ReadsAreDone(s.store, readings)
      && (forall p: Address | Names(StructTypeTag(tag), p) :: ReadUpToDate(s, readings, p))
      && resolver.canonical(tag, s.layouts.world) == Some(canonical)
      && InSync(s.layouts, canonical) && Served(s.layouts.registry, canonical).Some?
    ensures var s := RunOf(resolver, EMPTY_STACK, moves);
      var entry := s.layouts.registry.cache[canonical];
      && (exists at :: ResolvedAt(resolver, s.layouts.world, canonical, entry, at))
      && forall at | ResolvedAt(resolver, s.layouts.world, canonical, entry, at) ::
           LookedUp(s.layouts.registry, resolver, ReadVersions(s.store, readings), tag).1
             == Uncached(resolver, s.layouts.world, tag)
           <==> RecordedInTime(entry, at)
  {
    var s := RunOf(resolver, EMPTY_STACK, moves);
    StackRunIsRealRun(resolver, EMPTY_STACK, moves);
    HitIsFreshExactlyWhenInTime(resolver, StepsOf(resolver, EMPTY_STACK, moves), canonical);
    CanonicalIsFresh(resolver, s, tag, readings);
  }
}
