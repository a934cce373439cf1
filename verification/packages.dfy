/** The package versions checkpoints have named, shared by the layout cache and the package store. */
module Packages {
  type Address = nat
  type Version = nat
  type Versions = map<Address, Version>

  /** The version recorded for a package, 0 when there is none. */
  function Live(versions: Versions, a: Address): Version {
    if a in versions then versions[a] else 0
  }

  predicate IsCurrent(versions: Versions, a: Address, recorded: Version) {
    Live(versions, a) <= recorded
  }

  /** No version of one is ahead of the other. */
  ghost predicate UpTo(a: Versions, b: Versions) {
    forall p: Address :: Live(a, p) <= Live(b, p)
  }

  function Observed(versions: Versions, observations: seq<(Address, Version)>): Versions
    decreases |observations|
  {
    if observations == [] then
      versions
    else
      var (a, version) := observations[0];
      var next := if a in versions && versions[a] >= version then versions[a] else version;
      Observed(versions[a := next], observations[1..])
  }

  /** Observing keeps a running maximum: never below anything held or seen, and always one of those. */
  lemma {:induction false} ObservedIsMaximum(versions: Versions, observations: seq<(Address, Version)>, a: Address)
    ensures var live := Live(Observed(versions, observations), a);
      && Live(versions, a) <= live
      && (forall v | (a, v) in observations :: v <= live)
      && (live == Live(versions, a) || (a, live) in observations)
    decreases |observations|
  {
    if observations != [] {
      var (b, version) := observations[0];
      var next := if b in versions && versions[b] >= version then versions[b] else version;
      ObservedIsMaximum(versions[b := next], observations[1..], a);
      assert observations == [observations[0]] + observations[1..];
    }
  }

  /** So what is live depends on which observations were made, not on their order or repetition. */
  lemma ObservationOrderDoesNotMatter(
    versions: Versions, some: seq<(Address, Version)>, others: seq<(Address, Version)>, a: Address)
    requires forall o :: o in some <==> o in others
    ensures Live(Observed(versions, some), a) == Live(Observed(versions, others), a)
  {
    ObservedIsMaximum(versions, some, a);
    ObservedIsMaximum(versions, others, a);
  }

  /** Observations of published versions never get ahead of what is published. */
  lemma ObservedStaysBehind(versions: Versions, world: Versions, observations: seq<(Address, Version)>)
    requires UpTo(versions, world) && forall o | o in observations :: o.1 <= Live(world, o.0)
    ensures UpTo(versions, Observed(versions, observations)) && UpTo(Observed(versions, observations), world)
  {
    forall p: Address
      ensures Live(versions, p) <= Live(Observed(versions, observations), p) <= Live(world, p)
    {
      ObservedIsMaximum(versions, observations, p);
    }
  }

  class PackageVersions {
    var seen: Versions

    constructor ()
      ensures seen == map[]
    {
      seen := map[];
    }

    /** Records observations; versions only move forwards. */
    method Observe(observations: seq<(Address, Version)>)
      modifies this
      ensures seen == Observed(old(seen), observations)
    {
      var next := seen;
      for i := 0 to |observations|
        invariant Observed(seen, observations) == Observed(next, observations[i..])
      {
        assert observations[i..][1..] == observations[i + 1..];
        var (a, version) := observations[i];
        next := next[a := if a in next && next[a] >= version then next[a] else version];
      }
      seen := next;
    }
  }
}
