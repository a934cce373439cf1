/** When a cached lookup answers as an uncached one would, over every run. */
module LayoutTransparency {
  import opened Wrappers
  import opened Packages
  import opened MoveLayout
  import opened LayoutRegistry

  /** A resolution that began before it was stored: what it found, and the versions it found it at. */
  datatype Pending = Pending(canonical: StructTag, layout: Layout, source: Versions)

  datatype System = System(world: Versions, registry: Registry, pending: map<nat, Pending>)

  const START: System := System(map[], EMPTY, map[])

  /**
   * Packages are published, observed by the registry or by another holder of the tracker, and layouts are
   * looked up: in one step, or by a worker that resolves in one step and stores in a later one. A
   * resolution reads packages at versions the package store served, which may lag behind the chain's.
   */
  datatype Step =
    | Publish(package: Address, version: Version)
    | Observe(observations: seq<(Address, Version)>)
    | Note(observations: seq<(Address, Version)>)
    | Invalidate(tag: StructTag)
    | Lookup(tag: StructTag, at: Versions)
    | Resolve(worker: nat, tag: StructTag, at: Versions)
    | Store(worker: nat)

  ghost function Next(resolver: Resolver, s: System, step: Step): System {
    match step
    case Publish(package, version) => s.(world := s.world[package := version])
    case Observe(observations) => s.(registry := s.registry.(live := Observed(s.registry.live, observations)))
    case Note(observations) => s.(registry := Noted(s.registry, observations))
    case Invalidate(tag) => s.(registry := s.registry.(cache := s.registry.cache - {tag}))
    case Lookup(tag, at) => s.(registry := LookedUp(s.registry, resolver, at, tag).0)
    case Resolve(worker, tag, at) => Begun(resolver, s, worker, tag, at)
    case Store(worker) =>
      if worker !in s.pending then s else
        var p := s.pending[worker];
        s.(registry := Stored(s.registry, p.canonical, p.layout), pending := s.pending - {worker})
  }

  ghost function Begun(resolver: Resolver, s: System, worker: nat, tag: StructTag, at: Versions): System {
    match resolver.canonical(tag, at)
    case None => s
    case Some(canonical) =>
      if Served(s.registry, canonical).Some? then
        s.(registry := s.registry.(hits := s.registry.hits + 1))
      else
        var missed := s.(registry := s.registry.(misses := s.registry.misses + 1));
        match resolver.layout(canonical, at)
        case None => missed
        case Some(layout) => missed.(pending := s.pending[worker := Pending(canonical, layout, at)])
  }

  predicate Published(world: Versions, observations: seq<(Address, Version)>) {
    forall o | o in observations :: o.1 <= Live(world, o.0)
  }

  /** Versions are published in ascending order, and only published ones are observed or read. */
  ghost predicate Real(s: System, step: Step) {
    match step
    case Publish(package, version) => version >= Live(s.world, package)
    case Observe(observations) => Published(s.world, observations)
    case Note(observations) => Published(s.world, observations)
    case Lookup(_, at) => UpTo(at, s.world)
    case Resolve(_, _, at) => UpTo(at, s.world)
    case _ => true
  }

  /** No package the layout mentions was observed past the version it is resolved from. */
  ghost predicate InTime(live: Versions, layout: Layout, at: Versions) {
    forall a | a in Mentioned(layout) :: Live(live, a) <= Live(at, a)
  }

  /** Whatever the step stores is stored in time. */
  ghost predicate Timely(resolver: Resolver, s: System, step: Step) {
    match step
    case Lookup(tag, at) =>
      var canonical := resolver.canonical(tag, at);
      canonical.Some? && Served(s.registry, canonical.value).None? && resolver.layout(canonical.value, at).Some? ==>
        InTime(s.registry.live, resolver.layout(canonical.value, at).value, at)
    case Store(worker) =>
      worker in s.pending ==> InTime(s.registry.live, s.pending[worker].layout, s.pending[worker].source)
    case _ => true
  }

  ghost function Run(resolver: Resolver, s: System, steps: seq<Step>): System
    decreases |steps|
  {
    if steps == [] then s else Run(resolver, Next(resolver, s, steps[0]), steps[1..])
  }

  ghost predicate AllReal(resolver: Resolver, s: System, steps: seq<Step>)
    decreases |steps|
  {
    steps != [] ==> Real(s, steps[0]) && AllReal(resolver, Next(resolver, s, steps[0]), steps[1..])
  }

  ghost predicate AllTimely(resolver: Resolver, s: System, steps: seq<Step>)
    decreases |steps|
  {
    steps != [] ==> Timely(resolver, s, steps[0]) && AllTimely(resolver, Next(resolver, s, steps[0]), steps[1..])
  }

  ghost predicate Agree(layout: Layout, a: Versions, b: Versions) {
    forall p: Address :: Mentions(layout, p) ==> Live(a, p) == Live(b, p)
  }

  /** Resolution depends on nothing but the versions of the packages the resolved layout mentions. */
  ghost predicate Local(resolver: Resolver) {
    forall tag, a, b | resolver.layout(tag, a).Some? && Agree(resolver.layout(tag, a).value, a, b) ::
      resolver.layout(tag, b) == resolver.layout(tag, a)
  }

  /** Every version of a package shows in the layouts that mention it. */
  ghost predicate Sensitive(resolver: Resolver) {
    forall tag, a, b | resolver.layout(tag, a).Some? && resolver.layout(tag, b) == resolver.layout(tag, a) ::
      Agree(resolver.layout(tag, a).value, a, b)
  }

  // ---------- the invariant ----------

  /** The entry was resolved at versions no later than the world's, and recorded none later than the world's. */
  ghost predicate ResolvedAt(resolver: Resolver, world: Versions, tag: StructTag, entry: CachedLayout, at: Versions) {
    && UpTo(at, world)
    && resolver.layout(tag, at) == Some(entry.layout)
    && forall a | a in entry.dependencies :: entry.dependencies[a] <= Live(world, a)
  }

  /** Nor was any version recorded later than the one resolved from. */
  ghost predicate RecordedInTime(entry: CachedLayout, at: Versions) {
    forall a | a in entry.dependencies :: entry.dependencies[a] <= Live(at, a)
  }

  ghost predicate Faithful(resolver: Resolver, world: Versions, tag: StructTag, entry: CachedLayout, timely: bool) {
    && entry.dependencies.Keys == Mentioned(entry.layout)
    && exists at :: ResolvedAt(resolver, world, tag, entry, at) && (timely ==> RecordedInTime(entry, at))
  }

  ghost predicate FaithfulCache(
    resolver: Resolver, world: Versions, cache: map<StructTag, CachedLayout>, timely: bool)
  {
    forall tag | tag in cache :: Faithful(resolver, world, tag, cache[tag], timely)
  }

  ghost predicate HonestPending(resolver: Resolver, world: Versions, pending: map<nat, Pending>) {
    forall worker | worker in pending ::
      var p := pending[worker];
      UpTo(p.source, world) && resolver.layout(p.canonical, p.source) == Some(p.layout)
  }

  /** What every run keeps, and what timely runs keep on top. */
  ghost predicate Inv(resolver: Resolver, s: System, timely: bool) {
    && UpTo(s.registry.live, s.world)
    && FaithfulCache(resolver, s.world, s.registry.cache, timely)
    && HonestPending(resolver, s.world, s.pending)
  }

  lemma StoredIsFaithful(
    resolver: Resolver, world: Versions, r: Registry, canonical: StructTag, layout: Layout, at: Versions, timely: bool)
    requires FaithfulCache(resolver, world, r.cache, timely) && UpTo(at, world) && UpTo(r.live, world)
    requires resolver.layout(canonical, at) == Some(layout)
    requires timely ==> InTime(r.live, layout, at)
    ensures FaithfulCache(resolver, world, Stored(r, canonical, layout).cache, timely)
  {
    var entry := CachedLayout(layout, DependenciesOf(layout, r.live));
    assert ResolvedAt(resolver, world, canonical, entry, at);
    assert Faithful(resolver, world, canonical, entry, timely);
  }

  /** Publishing only moves the world forwards, which nothing recorded is ahead of. */
  lemma PublishKeepsInv(resolver: Resolver, s: System, package: Address, version: Version, timely: bool)
    requires Inv(resolver, s, timely) && version >= Live(s.world, package)
    ensures Inv(resolver, s.(world := s.world[package := version]), timely)
  {
    var world := s.world[package := version];
    assert UpTo(s.world, world);
    forall tag | tag in s.registry.cache
      ensures Faithful(resolver, world, tag, s.registry.cache[tag], timely)
    {
      var entry := s.registry.cache[tag];
      var at :| ResolvedAt(resolver, s.world, tag, entry, at) && (timely ==> RecordedInTime(entry, at));
      assert ResolvedAt(resolver, world, tag, entry, at);
    }
  }

  lemma LookupKeepsInv(resolver: Resolver, s: System, tag: StructTag, at: Versions, timely: bool)
    requires Inv(resolver, s, timely) && UpTo(at, s.world) && (timely ==> Timely(resolver, s, Lookup(tag, at)))
    ensures Inv(resolver, s.(registry := LookedUp(s.registry, resolver, at, tag).0), timely)
  {
    var canonical := resolver.canonical(tag, at);
    if canonical.Some? && Served(s.registry, canonical.value).None? {
      var layout := resolver.layout(canonical.value, at);
      if layout.Some? {
        var missed := s.registry.(misses := s.registry.misses + 1);
        StoredIsFaithful(resolver, s.world, missed, canonical.value, layout.value, at, timely);
      }
    }
  }

  /** Observing and evicting leaves every entry that stays as it was. */
  lemma NoteKeepsInv(resolver: Resolver, s: System, observations: seq<(Address, Version)>, timely: bool)
    requires Inv(resolver, s, timely) && Published(s.world, observations)
    ensures Inv(resolver, s.(registry := Noted(s.registry, observations)), timely)
  {
    ObservedStaysBehind(s.registry.live, s.world, observations);
  }

  lemma ResolveKeepsInv(
    resolver: Resolver, s: System, worker: nat, tag: StructTag, at: Versions, timely: bool)
    requires Inv(resolver, s, timely) && UpTo(at, s.world)
    ensures Inv(resolver, Begun(resolver, s, worker, tag, at), timely)
  {
    var t := Begun(resolver, s, worker, tag, at);
    assert t.world == s.world && t.registry.live == s.registry.live && t.registry.cache == s.registry.cache;
    if t.pending != s.pending {
      PendingStaysHonest(resolver, s.world, s.pending, worker, t.pending[worker]);
    }
  }

  lemma PendingStaysHonest(resolver: Resolver, world: Versions, pending: map<nat, Pending>, worker: nat, p: Pending)
    requires HonestPending(resolver, world, pending)
    requires UpTo(p.source, world) && resolver.layout(p.canonical, p.source) == Some(p.layout)
    ensures HonestPending(resolver, world, pending[worker := p])
  {
  }

  lemma StoreKeepsInv(resolver: Resolver, s: System, worker: nat, timely: bool)
    requires Inv(resolver, s, timely) && worker in s.pending && (timely ==> Timely(resolver, s, Store(worker)))
    ensures Inv(resolver, Next(resolver, s, Store(worker)), timely)
  {
    var p := s.pending[worker];
    StoredIsFaithful(resolver, s.world, s.registry, p.canonical, p.layout, p.source, timely);
  }

  lemma StepKeepsInv(resolver: Resolver, s: System, step: Step, timely: bool)
    requires Inv(resolver, s, timely) && Real(s, step) && (timely ==> Timely(resolver, s, step))
    ensures Inv(resolver, Next(resolver, s, step), timely)
  {
    match step
    case Publish(package, version) => PublishKeepsInv(resolver, s, package, version, timely);
    case Observe(observations) => ObservedStaysBehind(s.registry.live, s.world, observations);
    case Note(observations) => NoteKeepsInv(resolver, s, observations, timely);
    case Invalidate(_) =>
    case Lookup(tag, at) => LookupKeepsInv(resolver, s, tag, at, timely);
    case Resolve(worker, tag, at) => ResolveKeepsInv(resolver, s, worker, tag, at, timely);
    case Store(worker) =>
      if worker in s.pending {
        StoreKeepsInv(resolver, s, worker, timely);
      }
  }

  lemma {:induction false} RunKeepsInv(resolver: Resolver, s: System, steps: seq<Step>, timely: bool)
    requires Inv(resolver, s, timely) && AllReal(resolver, s, steps) && (timely ==> AllTimely(resolver, s, steps))
    ensures Inv(resolver, Run(resolver, s, steps), timely)
    decreases |steps|
  {
    if steps != [] {
      StepKeepsInv(resolver, s, steps[0], timely);
      RunKeepsInv(resolver, Next(resolver, s, steps[0]), steps[1..], timely);
    }
  }

  // ---------- transparency ----------

  /** What is cached under a canonical tag, if anything, mentions only packages observed up to date. */
  ghost predicate InSync(s: System, canonical: StructTag) {
    canonical in s.registry.cache ==> Agree(s.registry.cache[canonical].layout, s.registry.live, s.world)
  }

  /** A served entry in sync whose record is in time was resolved from the chain's versions. */
  lemma ServedInTimeIsUnmoved(resolver: Resolver, s: System, canonical: StructTag, at: Versions)
    requires InSync(s, canonical) && Served(s.registry, canonical).Some?
    requires var entry := s.registry.cache[canonical];
      && entry.dependencies.Keys == Mentioned(entry.layout)
      && ResolvedAt(resolver, s.world, canonical, entry, at) && RecordedInTime(entry, at)
    ensures Agree(s.registry.cache[canonical].layout, at, s.world)
  {
    var entry := s.registry.cache[canonical];
    forall p: Address | Mentions(entry.layout, p)
      ensures Live(at, p) == Live(s.world, p)
    {
      MentionedExact(entry.layout, p);
      assert p in entry.dependencies && IsCurrent(s.registry.live, p, entry.dependencies[p]);
    }
  }

  lemma HitIsFresh(resolver: Resolver, s: System, canonical: StructTag)
    requires Local(resolver) && Inv(resolver, s, true) && InSync(s, canonical) && Served(s.registry, canonical).Some?
    ensures resolver.layout(canonical, s.world) == Served(s.registry, canonical)
  {
    var entry := s.registry.cache[canonical];
    var at :| ResolvedAt(resolver, s.world, canonical, entry, at) && RecordedInTime(entry, at);
    ServedInTimeIsUnmoved(resolver, s, canonical, at);
  }

  /**
   * After any run, whatever the order of lookups, observations and publications, a lookup returns what
   * uncached resolution returns, as long as the packages of the cached layout are observed up to date
   * and no worker stored a layout after a newer version of its packages had been observed.
   */
  lemma CacheIsTransparent(resolver: Resolver, steps: seq<Step>, tag: StructTag)
    requires Local(resolver) && AllReal(resolver, START, steps) && AllTimely(resolver, START, steps)
    requires var s := Run(resolver, START, steps); var canonical := resolver.canonical(tag, s.world);
      canonical.Some? ==> InSync(s, canonical.value)
    ensures var s := Run(resolver, START, steps);
      LookedUp(s.registry, resolver, s.world, tag).1 == Uncached(resolver, s.world, tag)
  {
    var s := Run(resolver, START, steps);
    RunKeepsInv(resolver, START, steps, true);
    var canonical := resolver.canonical(tag, s.world);
    if canonical.Some? && Served(s.registry, canonical.value).Some? {
      HitIsFresh(resolver, s, canonical.value);
    }
  }

  /** No lookup of the run reads a package older than what was observed for it. */
  ghost predicate AllReadCurrent(resolver: Resolver, s: System, steps: seq<Step>)
    decreases |steps|
  {
    steps != [] ==>
      && (steps[0].Lookup? ==> UpTo(s.registry.live, steps[0].at))
      && AllReadCurrent(resolver, Next(resolver, s, steps[0]), steps[1..])
  }

  /** Lookups that resolve and store in one step, from packages no older than observed, are always timely. */
  lemma {:induction false} AtomicLookupsAreTimely(resolver: Resolver, s: System, steps: seq<Step>)
    requires s.pending == map[] && forall step | step in steps :: !step.Resolve?
    requires AllReadCurrent(resolver, s, steps)
    ensures AllTimely(resolver, s, steps)
    decreases |steps|
  {
    if steps != [] {
      assert steps == [steps[0]] + steps[1..];
      AtomicLookupsAreTimely(resolver, Next(resolver, s, steps[0]), steps[1..]);
    }
  }

  // ---------- exactly when ----------

  /** With a resolver that shows every version, a layout is still right exactly if its packages have not moved. */
  lemma RightExactlyWhenUnmoved(resolver: Resolver, canonical: StructTag, at: Versions, world: Versions)
    requires Local(resolver) && Sensitive(resolver) && resolver.layout(canonical, at).Some?
    ensures resolver.layout(canonical, world) == resolver.layout(canonical, at)
      <==> Agree(resolver.layout(canonical, at).value, at, world)
  {
  }

  /** The cache holds this entry before the steps and after each of them. */
  ghost predicate LeavesEntry(
    resolver: Resolver, s: System, steps: seq<Step>, canonical: StructTag, entry: CachedLayout)
    decreases |steps|
  {
    && canonical in s.registry.cache && s.registry.cache[canonical] == entry
    && (steps != [] ==> LeavesEntry(resolver, Next(resolver, s, steps[0]), steps[1..], canonical, entry))
  }

  lemma {:induction false} EntryStays(
    resolver: Resolver, s: System, steps: seq<Step>, canonical: StructTag, entry: CachedLayout)
    requires LeavesEntry(resolver, s, steps, canonical, entry)
    ensures var t := Run(resolver, s, steps);
      canonical in t.registry.cache && t.registry.cache[canonical] == entry
    decreases |steps|
  {
    if steps != [] {
      EntryStays(resolver, Next(resolver, s, steps[0]), steps[1..], canonical, entry);
    }
  }

  /** Some step publishes a version of the package newer than this one. */
  ghost predicate PublishesNewer(steps: seq<Step>, a: Address, than: Version) {
    exists version: Version :: version > than && Publish(a, version) in steps
  }

  /** A package has moved over a run exactly if a newer version was published on the way. */
  lemma {:induction false} MovedExactlyWhenPublished(resolver: Resolver, s: System, steps: seq<Step>, a: Address)
    requires AllReal(resolver, s, steps)
    ensures var t := Run(resolver, s, steps);
      && Live(s.world, a) <= Live(t.world, a)
      && (Live(s.world, a) < Live(t.world, a) <==> PublishesNewer(steps, a, Live(s.world, a)))
    decreases |steps|
  {
    if steps != [] {
      var next, rest := Next(resolver, s, steps[0]), steps[1..];
      MovedExactlyWhenPublished(resolver, next, rest, a);
      assert steps == [steps[0]] + rest;
      if Live(next.world, a) > Live(s.world, a) {
        assert steps[0] == Publish(a, Live(next.world, a)) && steps[0] in steps;
      } else {
        assert forall version: Version | version > Live(s.world, a) ::
          Publish(a, version) in steps <==> Publish(a, version) in rest;
      }
    }
  }

  /**
   * A lookup resolves a layout at the chain's versions and stores it; any steps follow that leave that
   * entry alone. A hit on it is then right exactly if none of those steps published a newer version of a
   * package the layout mentions, whether or not anyone observed it.
   */
  lemma HitIsRightExactlyWhenNothingPublished(
    resolver: Resolver, s: System, tag: StructTag, canonical: StructTag, steps: seq<Step>, again: StructTag)
    requires Local(resolver) && Sensitive(resolver)
    requires resolver.canonical(tag, s.world) == Some(canonical) && Served(s.registry, canonical).None?
    requires resolver.layout(canonical, s.world).Some?
    requires var t := Next(resolver, s, Lookup(tag, s.world));
      && AllReal(resolver, t, steps)
      && canonical in t.registry.cache && LeavesEntry(resolver, t, steps, canonical, t.registry.cache[canonical])
    requires var u := Run(resolver, Next(resolver, s, Lookup(tag, s.world)), steps);
      resolver.canonical(again, u.world) == Some(canonical) && Served(u.registry, canonical).Some?
    ensures var layout := resolver.layout(canonical, s.world).value;
      var u := Run(resolver, Next(resolver, s, Lookup(tag, s.world)), steps);
      LookedUp(u.registry, resolver, u.world, again).1 == Uncached(resolver, u.world, again)
      <==> forall a | Mentions(layout, a) :: !PublishesNewer(steps, a, Live(s.world, a))
  {
    var t := Next(resolver, s, Lookup(tag, s.world));
    var u := Run(resolver, t, steps);
    var layout := resolver.layout(canonical, s.world).value;
    EntryStays(resolver, t, steps, canonical, t.registry.cache[canonical]);
    assert t.registry.cache[canonical].layout == layout && t.world == s.world;
    RightExactlyWhenUnmoved(resolver, canonical, s.world, u.world);
    forall a: Address
      ensures Live(s.world, a) == Live(u.world, a) <==> !PublishesNewer(steps, a, Live(s.world, a))
    {
      MovedExactlyWhenPublished(resolver, t, steps, a);
    }
  }

  /**
   * After any run at all, late stores included, a hit whose packages are observed up to date is right
   * exactly if its entry was recorded in time.
   */
  lemma HitIsFreshExactlyWhenInTime(resolver: Resolver, steps: seq<Step>, canonical: StructTag)
    requires Local(resolver) && Sensitive(resolver) && AllReal(resolver, START, steps)
    requires var s := Run(resolver, START, steps); InSync(s, canonical) && Served(s.registry, canonical).Some?
    ensures var s := Run(resolver, START, steps); var entry := s.registry.cache[canonical];
      && (exists at :: ResolvedAt(resolver, s.world, canonical, entry, at))
      && forall at | ResolvedAt(resolver, s.world, canonical, entry, at) ::
           resolver.layout(canonical, s.world) == Some(entry.layout) <==> RecordedInTime(entry, at)
  {
    var s := Run(resolver, START, steps);
    var entry := s.registry.cache[canonical];
    RunKeepsInv(resolver, START, steps, false);
    assert Faithful(resolver, s.world, canonical, entry, false);
    forall at | ResolvedAt(resolver, s.world, canonical, entry, at)
      ensures resolver.layout(canonical, s.world) == Some(entry.layout) <==> RecordedInTime(entry, at)
    {
      RightExactlyWhenUnmoved(resolver, canonical, at, s.world);
      if RecordedInTime(entry, at) {
        ServedInTimeIsUnmoved(resolver, s, canonical, at);
      } else {
        var a :| a in entry.dependencies && entry.dependencies[a] > Live(at, a);
        MentionedExact(entry.layout, a);
      }
    }
  }

  /** The lookup right after a store is served what was stored. */
  lemma StoredIsServed(resolver: Resolver, s: System, worker: nat, tag: StructTag, at: Versions)
    requires worker in s.pending && resolver.canonical(tag, at) == Some(s.pending[worker].canonical)
    ensures LookedUp(Next(resolver, s, Store(worker)).registry, resolver, at, tag).1 == Some(s.pending[worker].layout)
  {
    var p := s.pending[worker];
    var t := Next(resolver, s, Store(worker));
    assert !Stale(t.registry.live, t.registry.cache[p.canonical]);
  }

  /** A store that is not timely stores a layout whose packages had already been upgraded. */
  lemma LateStoreIsSuperseded(resolver: Resolver, s: System, worker: nat, timely: bool)
    requires Inv(resolver, s, timely) && worker in s.pending && !Timely(resolver, s, Store(worker))
    ensures !Agree(s.pending[worker].layout, s.pending[worker].source, s.world)
  {
    var p := s.pending[worker];
    var a :| a in Mentioned(p.layout) && Live(s.registry.live, a) > Live(p.source, a);
    MentionedExact(p.layout, a);
    assert Live(s.registry.live, a) <= Live(s.world, a);
  }

  /** A timely store of a layout whose packages are observed up to date stores what the chain resolves to. */
  lemma TimelyStoreIsCurrent(resolver: Resolver, s: System, worker: nat)
    requires Local(resolver) && Inv(resolver, s, false) && worker in s.pending && Timely(resolver, s, Store(worker))
    requires Agree(s.pending[worker].layout, s.registry.live, s.world)
    ensures Agree(s.pending[worker].layout, s.pending[worker].source, s.world)
    ensures resolver.layout(s.pending[worker].canonical, s.world) == Some(s.pending[worker].layout)
  {
    var p := s.pending[worker];
    forall a: Address | Mentions(p.layout, a)
      ensures Live(p.source, a) == Live(s.world, a)
    {
      MentionedExact(p.layout, a);
    }
  }

  /**
   * After any run, with the packages of a pending layout observed up to date, the lookup after its store
   * is right exactly if the store is timely or the upgrade it missed left the layout as it was.
   */
  lemma StoreIsTransparentExactly(resolver: Resolver, steps: seq<Step>, worker: nat, tag: StructTag)
    requires Local(resolver) && AllReal(resolver, START, steps) && worker in Run(resolver, START, steps).pending
    requires var s := Run(resolver, START, steps); var p := s.pending[worker];
      resolver.canonical(tag, s.world) == Some(p.canonical) && Agree(p.layout, s.registry.live, s.world)
    ensures var s := Run(resolver, START, steps); var t := Next(resolver, s, Store(worker)); var p := s.pending[worker];
      LookedUp(t.registry, resolver, t.world, tag).1 == Uncached(resolver, t.world, tag)
      <==> Timely(resolver, s, Store(worker)) || resolver.layout(p.canonical, s.world) == Some(p.layout)
  {
    var s := Run(resolver, START, steps);
    RunKeepsInv(resolver, START, steps, false);
    StoredIsServed(resolver, s, worker, tag, s.world);
    if Timely(resolver, s, Store(worker)) {
      TimelyStoreIsCurrent(resolver, s, worker);
    }
  }

  /** With a resolver that shows every version, exactly if the store is timely. */
  lemma StoreIsTransparentExactlyWhenTimely(resolver: Resolver, steps: seq<Step>, worker: nat, tag: StructTag)
    requires Local(resolver) && Sensitive(resolver) && AllReal(resolver, START, steps)
    requires worker in Run(resolver, START, steps).pending
    requires var s := Run(resolver, START, steps); var p := s.pending[worker];
      resolver.canonical(tag, s.world) == Some(p.canonical) && Agree(p.layout, s.registry.live, s.world)
    ensures var s := Run(resolver, START, steps); var t := Next(resolver, s, Store(worker));
      LookedUp(t.registry, resolver, t.world, tag).1 == Uncached(resolver, t.world, tag)
      <==> Timely(resolver, s, Store(worker))
  {
    var s := Run(resolver, START, steps);
    RunKeepsInv(resolver, START, steps, false);
    StoreIsTransparentExactly(resolver, steps, worker, tag);
    if !Timely(resolver, s, Store(worker)) {
      LateStoreIsSuperseded(resolver, s, worker, false);
    }
  }

  /** After noting observations, an entry is dropped exactly if a package its layout mentions moved past it. */
  lemma NotingDropsExactlyTheMoved(
    resolver: Resolver, world: Versions, r: Registry, observations: seq<(Address, Version)>, tag: StructTag)
    requires observations != [] && tag in r.cache && Faithful(resolver, world, tag, r.cache[tag], false)
    ensures var after := Noted(r, observations); var entry := r.cache[tag];
      tag !in after.cache <==>
        exists a :: Mentions(entry.layout, a) && a in entry.dependencies && Live(after.live, a) > entry.dependencies[a]
    ensures tag in Noted(r, observations).cache ==> Noted(r, observations).cache[tag] == r.cache[tag]
  {
    var entry := r.cache[tag];
    forall a | a in entry.dependencies
      ensures Mentions(entry.layout, a)
    {
      MentionedExact(entry.layout, a);
    }
  }

  // ---------- where it stops ----------

  const PLAIN: StructTag := StructTag(1, "m", "S", [])

  /** A struct of package 1 that has as many fields as the package's version. */
  const UPGRADED: Resolver := Resolver((tag, w) => Some(tag), (tag, w) => UpgradedLayout(tag, w))

  function UpgradedLayout(tag: StructTag, w: Versions): Option<Layout> {
    if tag == PLAIN then Some(LayoutAt(w)) else None
  }

  function LayoutAt(w: Versions): Layout {
    Struct(PLAIN, seq(Live(w, 1), i => Field("x", Primitive("u8"))))
  }

  lemma PlainMentionsItsPackage(w: Versions)
    ensures Mentioned(LayoutAt(w)) == {1}
    ensures forall p: Address :: Mentions(LayoutAt(w), p) <==> p == 1
  {
    var layout := LayoutAt(w);
    forall f | f in layout.fields
      ensures Mentioned(f.layout) == {}
    {
      assert f == Field("x", Primitive("u8"));
    }
    assert FieldsMentioned(layout.fields) == {};
    assert TagAddresses(StructTypeTag(PLAIN)) == {1};
    forall p: Address
      ensures Mentions(layout, p) <==> p == 1
    {
      MentionedExact(layout, p);
    }
  }

  /** Such a resolver is local, and shows every version. */
  lemma UpgradedShowsVersions()
    ensures Local(UPGRADED) && Sensitive(UPGRADED)
  {
    forall tag, a: Versions, b: Versions | UPGRADED.layout(tag, a).Some?
      ensures UPGRADED.layout(tag, b) == UPGRADED.layout(tag, a) <==> Agree(UPGRADED.layout(tag, a).value, a, b)
    {
      PlainMentionsItsPackage(a);
      assert UPGRADED.layout(tag, a) == UpgradedLayout(tag, a) && UPGRADED.layout(tag, b) == UpgradedLayout(tag, b);
      assert LayoutAt(a) == LayoutAt(b) ==> |LayoutAt(a).fields| == |LayoutAt(b).fields|;
    }
  }

  lemma FirstStep(resolver: Resolver, s: System, step: Step, rest: seq<Step>)
    ensures var steps := [step] + rest; var next := Next(resolver, s, step);
      && Run(resolver, s, steps) == Run(resolver, next, rest)
      && (AllReal(resolver, s, steps) <==> Real(s, step) && AllReal(resolver, next, rest))
      && (AllTimely(resolver, s, steps) <==> Timely(resolver, s, step) && AllTimely(resolver, next, rest))
  {
    assert ([step] + rest)[1..] == rest;
  }

  /** An upgrade nobody observed leaves the old layout served. */
  lemma UnobservedUpgradeIsServedStale()
    ensures var steps := [Publish(1, 1)] + ([Lookup(PLAIN, map[1 := 1])] + ([Publish(1, 2)] + []));
      var s := Run(UPGRADED, START, steps);
      && Local(UPGRADED) && AllReal(UPGRADED, START, steps) && AllTimely(UPGRADED, START, steps)
      && LookedUp(s.registry, UPGRADED, s.world, PLAIN).1 != Uncached(UPGRADED, s.world, PLAIN)
  {
    UpgradedShowsVersions();
    var w1: Versions := map[1 := 1];
    var s1 := Next(UPGRADED, START, Publish(1, 1));
    var s2 := Next(UPGRADED, s1, Lookup(PLAIN, w1));
    var s3 := Next(UPGRADED, s2, Publish(1, 2));
    FirstStep(UPGRADED, START, Publish(1, 1), [Lookup(PLAIN, w1)] + ([Publish(1, 2)] + []));
    FirstStep(UPGRADED, s1, Lookup(PLAIN, w1), [Publish(1, 2)] + []);
    FirstStep(UPGRADED, s2, Publish(1, 2), []);
    assert Served(s3.registry, PLAIN) == Some(LayoutAt(w1));
    assert Uncached(UPGRADED, s3.world, PLAIN) == Some(LayoutAt(s3.world));
    assert |LayoutAt(w1).fields| != |LayoutAt(s3.world).fields|;
  }

  /** A layout resolved before an upgrade and stored after it is observed is then served as current. */
  lemma LateStoreIsServedStale()
    ensures var steps :=
        [Publish(1, 1)] + ([Resolve(0, PLAIN, map[1 := 1])] + ([Publish(1, 2)] + ([Note([(1, 2)])] + [])));
      var s := Run(UPGRADED, START, steps);
      var t := Next(UPGRADED, s, Store(0));
      && Local(UPGRADED) && AllReal(UPGRADED, START, steps) && UpTo(t.world, t.registry.live)
      && LookedUp(t.registry, UPGRADED, t.world, PLAIN).1 != Uncached(UPGRADED, t.world, PLAIN)
  {
    UpgradedShowsVersions();
    var w1: Versions := map[1 := 1];
    var s1 := Next(UPGRADED, START, Publish(1, 1));
    var s2 := Next(UPGRADED, s1, Resolve(0, PLAIN, w1));
    var s3 := Next(UPGRADED, s2, Publish(1, 2));
    var s4 := Next(UPGRADED, s3, Note([(1, 2)]));
    var rest := [Note([(1, 2)])] + [];
    FirstStep(UPGRADED, START, Publish(1, 1), [Resolve(0, PLAIN, w1)] + ([Publish(1, 2)] + rest));
    FirstStep(UPGRADED, s1, Resolve(0, PLAIN, w1), [Publish(1, 2)] + rest);
    FirstStep(UPGRADED, s2, Publish(1, 2), rest);
    FirstStep(UPGRADED, s3, Note([(1, 2)]), []);
    assert s4.pending[0] == Pending(PLAIN, LayoutAt(w1), w1);
    PlainMentionsItsPackage(w1);
    var steps := [Publish(1, 1)] + ([Resolve(0, PLAIN, w1)] + ([Publish(1, 2)] + rest));
    StoreIsTransparentExactlyWhenTimely(UPGRADED, steps, 0, PLAIN);
  }
}
