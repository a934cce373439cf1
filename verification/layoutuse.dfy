/** What the layout cache saves, and what its counters count. */
module LayoutUse {
  import opened Wrappers
  import opened Packages
  import opened MoveLayout
  import opened LayoutRegistry
  import opened LayoutTransparency

  // ---------- counters ----------

  /** The canonical tag a step asks the cache for, if it asks for one. */
  ghost function AskedFor(resolver: Resolver, step: Step): Option<StructTag> {
    match step
    case Lookup(tag, at) => resolver.canonical(tag, at)
    case Resolve(_, tag, at) => resolver.canonical(tag, at)
    case _ => None
  }

  /** Questions of a run that the cache answers, and those it does not. */
  ghost function Answered(resolver: Resolver, s: System, steps: seq<Step>, served: bool): nat
    decreases |steps|
  {
    if steps == [] then
      0
    else
      var asked := AskedFor(resolver, steps[0]);
      (if asked.Some? && Served(s.registry, asked.value).Some? == served then 1 else 0)
      + Answered(resolver, Next(resolver, s, steps[0]), steps[1..], served)
  }

  /** Entries of a run that noted observations take out of the cache. */
  ghost function Evicted(resolver: Resolver, s: System, steps: seq<Step>): nat
    decreases |steps|
  {
    if steps == [] then
      0
    else
      var next := Next(resolver, s, steps[0]);
      (if steps[0].Note? then |s.registry.cache.Keys - next.registry.cache.Keys| else 0)
      + Evicted(resolver, next, steps[1..])
  }

  lemma NotingEvicts(r: Registry, observations: seq<(Address, Version)>)
    ensures Noted(r, observations).invalidated
         == r.invalidated + |r.cache.Keys - Noted(r, observations).cache.Keys|
  {
    if observations == [] {
      assert r.cache.Keys - r.cache.Keys == {};
    } else {
      var stale := StaleTags(Observed(r.live, observations), r.cache);
      assert r.cache.Keys - (r.cache - stale).Keys == stale;
    }
  }

  lemma CountersOfAStep(resolver: Resolver, s: System, step: Step)
    ensures var r, t := s.registry, Next(resolver, s, step).registry; var asked := AskedFor(resolver, step);
      && t.hits == r.hits + (if asked.Some? && Served(r, asked.value).Some? then 1 else 0)
      && t.misses == r.misses + (if asked.Some? && Served(r, asked.value).None? then 1 else 0)
      && t.invalidated == r.invalidated + (if step.Note? then |r.cache.Keys - t.cache.Keys| else 0)
  {
    if step.Note? {
      NotingEvicts(s.registry, step.observations);
    }
  }

  /** Over any run, hits are the questions answered from the cache, misses the others, and every eviction counts. */
  lemma {:induction false} CountersOfARun(resolver: Resolver, s: System, steps: seq<Step>)
    ensures var t := Run(resolver, s, steps);
      && t.registry.hits == s.registry.hits + Answered(resolver, s, steps, true)
      && t.registry.misses == s.registry.misses + Answered(resolver, s, steps, false)
      && t.registry.invalidated == s.registry.invalidated + Evicted(resolver, s, steps)
    decreases |steps|
  {
    if steps != [] {
      CountersOfAStep(resolver, s, steps[0]);
      CountersOfARun(resolver, Next(resolver, s, steps[0]), steps[1..]);
    }
  }

  // ---------- hits ----------

  /** A newer version of a package is observed, by whoever shares the tracker. */
  predicate ObservesNewer(step: Step, a: Address, than: Version) {
    (step.Observe? || step.Note?) && exists o :: o in step.observations && o.0 == a && o.1 > than
  }

  /** The step neither replaces nor outdates the entry of a tag. */
  ghost predicate LeavesAlone(s: System, step: Step, canonical: StructTag, entry: CachedLayout) {
    && (step.Store? && step.worker in s.pending ==> s.pending[step.worker].canonical != canonical)
    && step != Invalidate(canonical)
    && forall a | a in entry.dependencies :: !ObservesNewer(step, a, entry.dependencies[a])
  }

  ghost predicate AllLeaveAlone(
    resolver: Resolver, s: System, steps: seq<Step>, canonical: StructTag, entry: CachedLayout)
    decreases |steps|
  {
    steps != [] ==>
      && LeavesAlone(s, steps[0], canonical, entry)
      && AllLeaveAlone(resolver, Next(resolver, s, steps[0]), steps[1..], canonical, entry)
  }

  lemma StaysCurrent(live: Versions, observations: seq<(Address, Version)>, entry: CachedLayout)
    requires !Stale(live, entry)
    requires forall o | o in observations && o.0 in entry.dependencies :: o.1 <= entry.dependencies[o.0]
    ensures !Stale(Observed(live, observations), entry)
  {
    forall a | a in entry.dependencies
      ensures IsCurrent(Observed(live, observations), a, entry.dependencies[a])
    {
      ObservedIsMaximum(live, observations, a);
    }
  }

  lemma StepKeepsServing(resolver: Resolver, s: System, step: Step, canonical: StructTag, entry: CachedLayout)
    requires canonical in s.registry.cache && s.registry.cache[canonical] == entry && !Stale(s.registry.live, entry)
    requires LeavesAlone(s, step, canonical, entry)
    ensures var t := Next(resolver, s, step).registry;
      canonical in t.cache && t.cache[canonical] == entry && !Stale(t.live, entry)
  {
    if step.Observe? || step.Note? {
      StaysCurrent(s.registry.live, step.observations, entry);
    }
  }

  /**
   * A cached layout is served, and nothing resolved for it, until a newer version is observed of a package
   * it depends on, or the tag is invalidated or stored anew.
   */
  lemma {:induction false} ServedUntilMoved(
    resolver: Resolver, s: System, steps: seq<Step>, canonical: StructTag, entry: CachedLayout)
    requires canonical in s.registry.cache && s.registry.cache[canonical] == entry && !Stale(s.registry.live, entry)
    requires AllLeaveAlone(resolver, s, steps, canonical, entry)
    ensures Served(Run(resolver, s, steps).registry, canonical) == Some(entry.layout)
    decreases |steps|
  {
    if steps != [] {
      StepKeepsServing(resolver, s, steps[0], canonical, entry);
      ServedUntilMoved(resolver, Next(resolver, s, steps[0]), steps[1..], canonical, entry);
    }
  }
}
