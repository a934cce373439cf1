/** A package store that remembers what it fetched until a newer version is observed. */
module PackageStore {
  import opened Wrappers
  import opened Packages

  datatype Package = Package(version: Version, bytecode: string)

  /** A package with the version that was live when its fetch began. */
  datatype Kept = Kept(recorded: Version, package: Package)

  type Cache = map<Address, Kept>

  /** The package served from the cache to a fetch that read this live version. */
  function Served(cache: Cache, id: Address, live: Version): Option<Package> {
    if id in cache && cache[id].recorded >= live then Some(cache[id].package) else None
  }

  /** A fetch that nothing interleaves with; `answer` is what the source would say. */
  function Fetched(versions: Versions, cache: Cache, id: Address, answer: Option<Package>): (Cache, Option<Package>) {
    var live := Live(versions, id);
    var served := Served(cache, id, live);
    if served.Some? then (cache, served)
    else if answer.None? then (cache, None)
    else (cache[id := Kept(live, answer.value)], answer)
  }

  class SourcePackageStore {
    const versions: PackageVersions
    var cache: Cache

    constructor WithVersions(versions: PackageVersions)
      ensures this.versions == versions && cache == map[]
    {
      this.versions := versions;
      cache := map[];
    }

    /** Serves a package from the cache, or asks the source and remembers its answer. */
    method Fetch(id: Address, answer: Option<Package>) returns (r: Option<Package>)
      modifies this
      ensures (cache, r) == Fetched(versions.seen, old(cache), id, answer)
    {
      var live := Live(versions.seen, id);
      if id in cache {
        var kept := cache[id];
        if kept.recorded >= live {
          return Some(kept.package);
        }
      }
      if answer.None? {
        return None;
      }
      cache := cache[id := Kept(live, answer.value)];
      return answer;
    }
  }

  // ---------- concurrent fetches ----------

  /** Where a fetch stands, with the live version it read first. */
  datatype Fetch =
    | Checking(id: Address, live: Version)
    | Fetching(id: Address, live: Version)
    | Answered(id: Address, live: Version, package: Package)
    | Done(id: Address, live: Version, result: Option<Package>)

  datatype Store = Store(versions: Versions, cache: Cache, fetches: map<nat, Fetch>)

  const START: Store := Store(map[], map[], map[])

  /** Any fetch may move at any time, and versions may be observed at any time. */
  datatype Step =
    | Observe(observations: seq<(Address, Version)>)
    | Begin(worker: nat, id: Address)
    | Check(worker: nat)
    | Answer(worker: nat, package: Option<Package>)
    | Keep(worker: nat)

  function Next(s: Store, step: Step): Store {
    match step
    case Observe(observations) => s.(versions := Observed(s.versions, observations))
    case Begin(worker, id) => s.(fetches := s.fetches[worker := Checking(id, Live(s.versions, id))])
    case Check(worker) =>
      if worker in s.fetches && s.fetches[worker].Checking? then
        var f := s.fetches[worker];
        var served := Served(s.cache, f.id, f.live);
        s.(fetches := s.fetches[worker := if served.Some? then Done(f.id, f.live, served) else Fetching(f.id, f.live)])
      else s
    case Answer(worker, package) =>
      if worker in s.fetches && s.fetches[worker].Fetching? then
        var f := s.fetches[worker];
        s.(fetches := s.fetches[worker := if package.None? then Done(f.id, f.live, None)
                                        else Answered(f.id, f.live, package.value)])
      else s
    case Keep(worker) =>
      if worker in s.fetches && s.fetches[worker].Answered? then
        var f := s.fetches[worker];
        s.(cache := s.cache[f.id := Kept(f.live, f.package)],
           fetches := s.fetches[worker := Done(f.id, f.live, Some(f.package))])
      else s
  }

  function Run(s: Store, steps: seq<Step>): Store
    decreases |steps|
  {
    if steps == [] then s else Run(Next(s, steps[0]), steps[1..])
  }

  /** The source does not answer with a package older than what was observed when the fetch began. */
  predicate Fresh(s: Store, step: Step) {
    step.Answer? && step.worker in s.fetches && s.fetches[step.worker].Fetching? && step.package.Some? ==>
      step.package.value.version >= s.fetches[step.worker].live
  }

  predicate AllFresh(s: Store, steps: seq<Step>)
    decreases |steps|
  {
    steps != [] ==> Fresh(s, steps[0]) && AllFresh(Next(s, steps[0]), steps[1..])
  }

  // ---------- the invariant ----------

  /** No package is older than the version recorded with it. */
  ghost predicate CacheSound(cache: Cache) {
    forall id | id in cache :: cache[id].recorded <= cache[id].package.version
  }

  /** No fetch holds or returned a package older than the live version it read. */
  predicate FetchSound(versions: Versions, f: Fetch) {
    && f.live <= Live(versions, f.id)
    && (f.Answered? ==> f.live <= f.package.version)
    && (f.Done? && f.result.Some? ==> f.live <= f.result.value.version)
  }

  ghost predicate Sound(s: Store) {
    CacheSound(s.cache) && forall worker | worker in s.fetches :: FetchSound(s.versions, s.fetches[worker])
  }

  /** A step keeps this exactly when the source's answer, if it is one, is fresh enough. */
  lemma StepKeepsSound(s: Store, step: Step)
    requires Sound(s)
    ensures Sound(Next(s, step)) <==> Fresh(s, step)
  {
    if !Fresh(s, step) {
      assert !FetchSound(s.versions, Next(s, step).fetches[step.worker]);
    }
    if step.Observe? {
      forall worker | worker in s.fetches
        ensures FetchSound(Next(s, step).versions, s.fetches[worker])
      {
        ObservedIsMaximum(s.versions, step.observations, s.fetches[worker].id);
      }
    }
  }

  /** Under every interleaving, the recorded version never exceeds that of the package kept with it. */
  lemma {:induction false} RecordedNeverExceedsPackage(s: Store, steps: seq<Step>)
    requires Sound(s) && AllFresh(s, steps)
    ensures Sound(Run(s, steps))
    decreases |steps|
  {
    if steps != [] {
      StepKeepsSound(s, steps[0]);
      RecordedNeverExceedsPackage(Next(s, steps[0]), steps[1..]);
    }
  }

  // ---------- what a fetch may return ----------

  ghost predicate Observes(steps: seq<Step>, id: Address, version: Version) {
    exists step :: step in steps && step.Observe? && (id, version) in step.observations
  }

  lemma {:induction false} ObservedVersionsAreLive(s: Store, steps: seq<Step>, id: Address)
    ensures Live(s.versions, id) <= Live(Run(s, steps).versions, id)
    ensures forall version: Version | Observes(steps, id, version) :: version <= Live(Run(s, steps).versions, id)
    decreases |steps|
  {
    if steps != [] {
      var next := Next(s, steps[0]);
      ObservedVersionsAreLive(next, steps[1..], id);
      assert steps == [steps[0]] + steps[1..];
      if steps[0].Observe? {
        ObservedIsMaximum(s.versions, steps[0].observations, id);
      }
      forall version: Version | Observes(steps, id, version)
        ensures version <= Live(Run(s, steps).versions, id)
      {
        assert Observes(steps[1..], id, version) ||
               (steps[0].Observe? && (id, version) in steps[0].observations);
      }
    }
  }

  /** Until a worker begins another fetch, its fetch stays for the same package and live version. */
  lemma {:induction false} FetchIsStable(s: Store, steps: seq<Step>, worker: nat)
    requires worker in s.fetches && forall step | step in steps :: !(step.Begin? && step.worker == worker)
    ensures var t := Run(s, steps);
      && worker in t.fetches
      && t.fetches[worker].id == s.fetches[worker].id && t.fetches[worker].live == s.fetches[worker].live
    decreases |steps|
  {
    if steps != [] {
      assert steps[0] in steps;
      assert forall step | step in steps[1..] :: step in steps;
      FetchIsStable(Next(s, steps[0]), steps[1..], worker);
    }
  }

  lemma {:induction false} RunJoins(s: Store, a: seq<Step>, b: seq<Step>)
    ensures Run(s, a + b) == Run(Run(s, a), b)
    ensures AllFresh(s, a + b) <==> AllFresh(s, a) && AllFresh(Run(s, a), b)
    decreases |a|
  {
    if a == [] {
      assert a + b == b;
    } else {
      assert (a + b)[1..] == a[1..] + b;
      RunJoins(Next(s, a[0]), a[1..], b);
    }
  }

  /**
   * However fetches and observations interleave, a fetch never returns a package older than a version
   * observed for it before the fetch began.
   */
  lemma FetchIsNeverOlderThanObserved(before: seq<Step>, worker: nat, id: Address, after: seq<Step>, version: Version)
    requires AllFresh(START, before + ([Begin(worker, id)] + after)) && Observes(before, id, version)
    requires forall step | step in after :: !(step.Begin? && step.worker == worker)
    ensures var t := Run(START, before + ([Begin(worker, id)] + after));
      && worker in t.fetches && t.fetches[worker].id == id
      && (t.fetches[worker].Done? && t.fetches[worker].result.Some? ==>
            version <= t.fetches[worker].result.value.version)
  {
    var s := Run(START, before);
    var begun := Next(s, Begin(worker, id));
    RunJoins(START, before, [Begin(worker, id)] + after);
    assert ([Begin(worker, id)] + after)[1..] == after;
    ObservedVersionsAreLive(START, before, id);
    FetchIsStable(begun, after, worker);
    RecordedNeverExceedsPackage(START, before + ([Begin(worker, id)] + after));
  }

  /** Run without interference, the steps of one fetch come to what a fetch on its own does. */
  lemma StepsOfOneFetch(s: Store, worker: nat, id: Address, answer: Option<Package>)
    ensures var begun := Next(s, Begin(worker, id));
      var t := Next(Next(Next(begun, Check(worker)), Answer(worker, answer)), Keep(worker));
      && t.versions == s.versions
      && t.fetches == s.fetches[worker := Done(id, Live(s.versions, id), Fetched(s.versions, s.cache, id, answer).1)]
      && t.cache == Fetched(s.versions, s.cache, id, answer).0
  {
    var checked := Next(Next(s, Begin(worker, id)), Check(worker));
    if Served(s.cache, id, Live(s.versions, id)).Some? {
      assert checked.fetches[worker].Done?;
    } else {
      assert checked.fetches[worker].Fetching?;
    }
  }

  /** What a fetch keeps is served to the fetches that have read no newer version, and to no other. */
  lemma KeptIsServed(s: Store, worker: nat, other: nat, id: Address, live: Version, package: Package, read: Version)
    requires worker != other && worker in s.fetches && s.fetches[worker] == Answered(id, live, package)
    requires other in s.fetches && s.fetches[other] == Checking(id, read)
    ensures Next(Next(s, Keep(worker)), Check(other)).fetches[other]
         == if read <= live then Done(id, read, Some(package)) else Fetching(id, read)
  {
    var kept := Next(s, Keep(worker));
    assert kept.fetches[other] == Checking(id, read) && kept.cache[id] == Kept(live, package);
  }

  /** With a source that lags behind what was observed, a package is kept, and served on, as newer than it is. */
  lemma LaggingSourceIsServedOn(lagging: Package)
    requires lagging.version == 1
    ensures var s := START.(versions := map[7 := 2]);
      var (cache, first) := Fetched(s.versions, s.cache, 7, Some(lagging));
      && first == Some(lagging) && !CacheSound(cache)
      && forall answer :: Fetched(s.versions, cache, 7, answer).1 == Some(lagging)
  {
    var (cache, _) := Fetched(map[7 := 2], map[], 7, Some(lagging));
    assert cache == map[7 := Kept(2, lagging)];
    assert cache[7].recorded > cache[7].package.version;
  }
}
