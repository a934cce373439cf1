/** A cache of resolved layouts that gives way when a package it depends on moves. */
module LayoutRegistry {
  import opened Wrappers
  import opened Packages
  import opened MoveLayout

  /** Canonicalisation and resolution, as functions of the package versions in force. */
  datatype Resolver = Resolver(
    canonical: (StructTag, Versions) -> Option<StructTag>,
    layout: (StructTag, Versions) -> Option<Layout>)

  datatype CachedLayout = CachedLayout(layout: Layout, dependencies: Versions)

  datatype Registry = Registry(
    live: Versions,
    cache: map<StructTag, CachedLayout>,
    hits: nat,
    misses: nat,
    invalidated: nat)

  const EMPTY: Registry := Registry(map[], map[], 0, 0, 0)

  predicate Stale(live: Versions, entry: CachedLayout) {
    exists a :: a in entry.dependencies && !IsCurrent(live, a, entry.dependencies[a])
  }

  function StaleTags(live: Versions, cache: map<StructTag, CachedLayout>): set<StructTag> {
    set tag | tag in cache && Stale(live, cache[tag])
  }

  function Noted(r: Registry, observations: seq<(Address, Version)>): Registry {
    if observations == [] then
      r
    else
      var live := Observed(r.live, observations);
      var stale := StaleTags(live, r.cache);
      r.(live := live, cache := r.cache - stale, invalidated := r.invalidated + |stale|)
  }

  /** The entry a lookup of a canonical tag is served from. */
  function Served(r: Registry, canonical: StructTag): Option<Layout> {
    if canonical in r.cache && !Stale(r.live, r.cache[canonical]) then Some(r.cache[canonical].layout) else None
  }

  /** The versions now live of the packages a layout mentions. */
  ghost function DependenciesOf(layout: Layout, live: Versions): Versions {
    map a | a in Mentioned(layout) :: Live(live, a)
  }

  ghost function Stored(r: Registry, canonical: StructTag, layout: Layout): Registry {
    r.(cache := r.cache[canonical := CachedLayout(layout, DependenciesOf(layout, r.live))])
  }

  ghost function LookedUp(r: Registry, resolver: Resolver, world: Versions, tag: StructTag)
    : (Registry, Option<Layout>)
  {
    match resolver.canonical(tag, world)
    case None => (r, None)
    case Some(canonical) =>
      match Served(r, canonical)
      case Some(layout) => (r.(hits := r.hits + 1), Some(layout))
      case None =>
        var missed := r.(misses := r.misses + 1);
        match resolver.layout(canonical, world)
        case None => (missed, None)
        case Some(layout) => (Stored(missed, canonical, layout), Some(layout))
  }

  /** What a lookup gives when nothing is cached. */
  function Uncached(resolver: Resolver, world: Versions, tag: StructTag): Option<Layout> {
    match resolver.canonical(tag, world)
    case None => None
    case Some(canonical) => resolver.layout(canonical, world)
  }

  /** Pairs each package a layout mentions with its live version. */
  method CollectDependencies(layout: Layout, live: Versions) returns (dependencies: Versions)
    ensures dependencies == DependenciesOf(layout, live)
  {
    var addresses := Collect(layout, {});
    dependencies := map a | a in addresses :: Live(live, a);
  }

  class LayoutRegistry {
    const packages: PackageVersions
    var cache: map<StructTag, CachedLayout>
    var hits: nat
    var misses: nat
    var invalidated: nat

    function View(): Registry
      reads this, packages
    {
      Registry(packages.seen, cache, hits, misses, invalidated)
    }

    /** A registry on a version tracker that a package store may share. */
    constructor WithVersions(packages: PackageVersions)
      ensures this.packages == packages && View() == EMPTY.(live := packages.seen)
    {
      this.packages := packages;
      cache := map[];
      hits, misses, invalidated := 0, 0, 0;
    }

    /** Records observed versions and evicts every layout they make stale. */
    method NotePackages(observations: seq<(Address, Version)>)
      modifies this, packages
      ensures View() == Noted(old(View()), observations)
    {
      if observations == [] {
        return;
      }
      packages.Observe(observations);
      var stale := StaleTags(packages.seen, cache);
      cache := cache - stale;
      invalidated := invalidated + |stale|;
    }

    method Invalidate(tag: StructTag)
      modifies this
      ensures View() == old(View()).(cache := old(cache) - {tag})
    {
      cache := cache - {tag};
    }

    /** Serves a layout from the cache while nothing it depends on moved; otherwise resolves it anew. */
    method Lookup(resolver: Resolver, world: Versions, tag: StructTag) returns (r: Option<Layout>)
      modifies this
      ensures (View(), r) == LookedUp(old(View()), resolver, world, tag)
    {
      var canonical := resolver.canonical(tag, world);
      if canonical.None? {
        return None;
      }
      if canonical.value in cache {
        var entry := cache[canonical.value];
        if !Stale(packages.seen, entry) {
          hits := hits + 1;
          return Some(entry.layout);
        }
      }
      misses := misses + 1;
      r := resolver.layout(canonical.value, world);
      if r.Some? {
        var dependencies := CollectDependencies(r.value, packages.seen);
        cache := cache[canonical.value := CachedLayout(r.value, dependencies)];
      }
    }
  }
}
