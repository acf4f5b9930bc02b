/** Resolving a profile against the catalog (internal/engine/policy/resolve.go, Catalog.Resolve) and the
    re-resolve pin of a session (internal/cli/session.go, sessionProfile). */
module Resolver {
  import opened Names
  import opened DependencyGraph
  import opened Catalog
  import opened InstallOrder

  // ---------------------------------------------------------------------------------------------
  // What a resolution is

  ghost predicate InConflict(v: View, seeds: seq<string>, a: string, b: string) {
    Reached(v, seeds, a) && Reached(v, seeds, b) && (b in At(v.conflicts, a) || a in At(v.conflicts, b))
  }

  /** The identity set: the least requires-closed superset of the seeds, all known, listed in order. */
  ghost predicate IsIdentity(v: View, seeds: seq<string>, ids: seq<string>) {
    && Sorted(ids) && Distinct(ids) && Elements(ids) <= v.needs.Keys
    && forall x :: x in ids <==> Reached(v, seeds, x)
  }

  ghost predicate IsEgress(v: View, ids: seq<string>, egress: seq<string>) {
    && Sorted(egress) && Distinct(egress)
    && forall d :: d in egress <==> exists n :: n in ids && d in At(v.egress, n)
  }

  ghost predicate IsResolutionOf(v: View, seeds: seq<string>, r: Resolved) {
    && IsIdentity(v, seeds, r.identitySet)
    && (forall a, b :: a in r.identitySet && b in r.identitySet ==> b !in At(v.conflicts, a))
    && IsLeastTopological(Requires(v.needs), Elements(r.identitySet), r.packages)
    && IsEgress(v, r.identitySet, r.runtimeEgress)
  }

  ghost predicate IsResolution(v: View, p: Profile, r: Resolved) {
    Seeds(v, p).Ok? && IsResolutionOf(v, Seeds(v, p).value, r)
  }

  /** Everything the seeds reach is in the catalog. */
  ghost predicate AllKnown(v: View, seeds: seq<string>) {
    forall x :: Reached(v, seeds, x) ==> x in v.needs
  }

  ghost predicate ConflictFree(v: View, seeds: seq<string>) {
    forall a, b :: !InConflict(v, seeds, a, b)
  }

  /** Nothing the seeds reach runs into a cycle of requires edges. */
  ghost predicate CycleFree(v: View, seeds: seq<string>) {
    forall x :: Reached(v, seeds, x) ==> !ReachesCycle(Requires(v.needs), x)
  }

  /** What each refusal asserts about the profile: unknown packages first, then conflicts, then cycles. */
  ghost predicate Justified(v: View, p: Profile, e: Error) {
    match Seeds(v, p)
    case Err(first) => e == first
    case Ok(seeds) =>
      match e
      case UnknownPackage(x) => Reached(v, seeds, x) && x !in v.needs
      case Conflicting(a, b) => AllKnown(v, seeds) && Le(a, b) && InConflict(v, seeds, a, b)
      case RequiresCycle(stuck) =>
        && AllKnown(v, seeds) && ConflictFree(v, seeds)
        && stuck != [] && Sorted(stuck) && Distinct(stuck)
        && forall x :: x in stuck <==> Reached(v, seeds, x) && ReachesCycle(Requires(v.needs), x)
      case MissingDefault(_) => false
      case UnknownBundle(_) => false
  }

  /** What an answer of the resolver says. */
  ghost predicate Answers(v: View, p: Profile, r: Result<Resolved>) {
    match r
    case Ok(resolved) => IsResolution(v, p, resolved)
    case Err(e) => Justified(v, p, e)
  }

  // ---------------------------------------------------------------------------------------------
  // The resolver

  /** Ranging over a Go map: every key once, in no particular order. */
  method Keys(s: set<string>) returns (names: seq<string>)
    ensures Distinct(names) && Elements(names) == s
  {
    names := [];
    var rest := s;
    while rest != {}
      invariant Distinct(names) && Elements(names) == s - rest && rest <= s
      decreases rest
    {
      var n :| n in rest;
      assert n !in Elements(names) && Elements(names + [n]) == Elements(names) + {n};
      rest := rest - {n};
      names := names + [n];
    }
  }

  method FindConflict(c: Catalog, names: seq<string>) returns (found: bool, a: string, b: string)
    requires Elements(names) <= c.pkgIdx.Keys
    ensures found ==> a in names && b in names && Le(a, b)
                      && (b in At(ViewOf(c).conflicts, a) || a in At(ViewOf(c).conflicts, b))
    ensures !found ==> forall x, y :: x in names && y in names ==> y !in At(ViewOf(c).conflicts, x)
  {
    a, b := "", "";
    for i := 0 to |names|
      invariant forall k, y :: 0 <= k < i && y in names ==> y !in At(ViewOf(c).conflicts, names[k])
    {
      assert names[i] in Elements(names);
      var bad := c.pkgIdx[names[i]].conflicts;
      for k := 0 to |bad|
        invariant forall j :: 0 <= j < k ==> bad[j] !in names
      {
        if bad[k] in names {
          a, b := names[i], bad[k];
          LeTotal(a, b);
          if !Le(a, b) {
            a, b := b, a;
          }
          return true, a, b;
        }
      }
    }
    return false, a, b;
  }

  method UnionEgress(c: Catalog, names: seq<string>) returns (egress: seq<string>)
    requires Elements(names) <= c.pkgIdx.Keys
    ensures IsEgress(ViewOf(c), names, egress)
  {
    var seen: set<string> := {};
    for i := 0 to |names|
      invariant forall d :: d in seen <==> exists k :: 0 <= k < i && d in At(ViewOf(c).egress, names[k])
    {
      assert names[i] in Elements(names);
      var domains := c.pkgIdx[names[i]].runtimeEgress;
      ghost var was := seen;
      for k := 0 to |domains|
        invariant forall d :: d in seen <==> d in was || d in domains[..k]
      {
        assert domains[..k + 1] == domains[..k] + [domains[k]];
        seen := seen + {domains[k]};
      }
      assert domains[..|domains|] == domains;
    }
    egress := Keys(seen);
    SortKeeps(egress);
    assert forall d :: d in egress <==> d in Elements(egress);
    egress := Sort(egress);
  }

  /** Catalog.Resolve: a resolution, or a justified refusal. */
  method Resolve(c: Catalog, p: Profile) returns (r: Result<Resolved>)
    ensures Answers(ViewOf(c), p, r)
  {
    hide Reached, InConflict, IsLeastTopological, IsEgress, ViewOf, Acyclic, ReachesCycle, Distinct, Sorted;
    var seeds := GatherSeeds(c, p);
    if seeds.Err? {
      return Err(seeds.error);
    }
    ghost var v := ViewOf(c);
    var queue := Closure(c, seeds.value);
    SeesPackages(c);
    if queue.Err? {
      return Err(queue.error);
    }
    var names := Keys(set n | n in queue.value);
    SameMembers(names, queue.value);
    assert AllKnown(v, seeds.value) by {
      assert forall x :: x in names ==> x in Elements(names);
    }
    var found, a, b := FindConflict(c, names);
    if found {
      ConflictStands(v, seeds.value, a, b);
      return Err(Conflicting(a, b));
    }
    NoConflictStands(v, seeds.value, names);
    var order := Topo(c, names);
    if order.Cycle? {
      CycleStands(v, seeds.value, names, order.stuck);
      return Err(RequiresCycle(order.stuck));
    }
    SortKeeps(names);
    var egress := UnionEgress(c, names);
    var ids := Sort(names);
    EgressOfSame(v, names, ids, egress);
    return Ok(Resolved(order.names, ids, egress));
  }

  lemma SeesPackages(c: Catalog)
    ensures ViewOf(c).needs.Keys == c.pkgIdx.Keys
  {
  }

  lemma SameMembers(a: seq<string>, b: seq<string>)
    requires Elements(a) == set n | n in b
    ensures forall x :: x in a <==> x in b
    ensures Elements(a) == Elements(b)
  {
    assert forall x :: x in a <==> x in Elements(a);
  }

  lemma ConflictStands(v: View, seeds: seq<string>, a: string, b: string)
    requires Reached(v, seeds, a) && Reached(v, seeds, b) && (b in At(v.conflicts, a) || a in At(v.conflicts, b))
    ensures InConflict(v, seeds, a, b)
  {
  }

  lemma NoConflictStands(v: View, seeds: seq<string>, names: seq<string>)
    requires forall x :: Reached(v, seeds, x) ==> x in names
    requires forall x, y :: x in names && y in names ==> y !in At(v.conflicts, x)
    ensures ConflictFree(v, seeds)
  {
    hide Reached;
  }

  lemma EgressOfSame(v: View, a: seq<string>, b: seq<string>, egress: seq<string>)
    requires Elements(a) == Elements(b) && IsEgress(v, a, egress)
    ensures IsEgress(v, b, egress)
  {
    assert forall x :: x in a <==> x in Elements(a);
    assert forall x :: x in b <==> x in Elements(b);
  }

  lemma {:induction false} WalkWithin(e: Relation, names: set<string>, p: seq<string>)
    requires |p| > 0 && IsWalk(e, p) && p[0] in names
    requires forall x, y :: x in names && e(x, y) ==> y in names
    ensures IsWalk(Within(e, names), p) && p[|p| - 1] in names
  {
    if |p| == 1 {
    } else {
      WalkWithin(e, names, p[1..]);
    }
  }

  lemma {:induction false} WalkWithout(e: Relation, names: set<string>, p: seq<string>)
    requires |p| > 0 && IsWalk(Within(e, names), p)
    ensures IsWalk(e, p)
  {
    if |p| == 1 {
    } else {
      WalkWithout(e, names, p[1..]);
    }
  }

  lemma ReachesWithin(e: Relation, names: set<string>, a: string, b: string)
    requires forall x, y :: x in names && e(x, y) ==> y in names
    ensures a in names ==> (Reaches(Within(e, names), a, b) <==> Reaches(e, a, b))
    ensures a in names && Reaches(e, a, b) ==> b in names
  {
    var g := Within(e, names);
    if a in names && Reaches(e, a, b) {
      var p :| Walks(e, p, a, b);
      WalkWithin(e, names, p);
      assert Walks(g, p, a, b);
    }
    if Reaches(g, a, b) {
      var p :| Walks(g, p, a, b);
      WalkWithout(e, names, p);
      assert Walks(e, p, a, b);
    }
  }

  /** In a requires-closed set, running into a cycle is the same inside the set and in the whole catalog. */
  lemma CyclesWithin(e: Relation, names: set<string>, x: string)
    requires forall x, y :: x in names && e(x, y) ==> y in names
    requires x in names
    ensures ReachesCycle(Within(e, names), x) <==> ReachesCycle(e, x)
  {
    hide IsWalk, Reaches;
    var g := Within(e, names);
    forall y
      ensures Reaches(g, x, y) <==> Reaches(e, x, y)
      ensures Reaches(e, x, y) ==> y in names && (OnCycle(g, y) <==> OnCycle(e, y))
    {
      ReachesWithin(e, names, x, y);
      if Reaches(e, x, y) {
        forall z | e(y, z)
          ensures g(y, z) && (Reaches(g, z, y) <==> Reaches(e, z, y))
        {
          ReachesWithin(e, names, z, y);
        }
      }
    }
  }

  lemma CycleStands(v: View, seeds: seq<string>, names: seq<string>, stuck: seq<string>)
    requires forall x :: x in names <==> Reached(v, seeds, x)
    requires forall x :: x in stuck <==> x in names && ReachesCycle(Within(Requires(v.needs), Elements(names)), x)
    ensures forall x :: x in stuck <==> Reached(v, seeds, x) && ReachesCycle(Requires(v.needs), x)
  {
    hide ReachesCycle, Reached;
    var e := Requires(v.needs);
    forall x, y | x in Elements(names) && e(x, y)
      ensures y in Elements(names)
    {
      NeedReached(v, seeds, x, y);
    }
    forall x | x in names
      ensures ReachesCycle(Within(e, Elements(names)), x) <==> ReachesCycle(e, x)
    {
      CyclesWithin(e, Elements(names), x);
    }
  }

  // ---------------------------------------------------------------------------------------------
  // Theorems about resolutions

  /** A profile has at most one resolution: neither seed order nor map iteration order shows. */
  lemma ResolutionUnique(v: View, p: Profile, a: Resolved, b: Resolved)
    requires IsResolution(v, p, a) && IsResolution(v, p, b)
    ensures a == b
  {
    hide Reached, IsLeastTopological;
    forall x
      ensures x in Elements(a.identitySet) <==> x in Elements(b.identitySet)
    {
      assert x in a.identitySet <==> x in b.identitySet;
    }
    SortedListingUnique(a.identitySet, b.identitySet);
    forall d
      ensures d in Elements(a.runtimeEgress) <==> d in Elements(b.runtimeEgress)
    {
      assert d in a.runtimeEgress <==> d in b.runtimeEgress;
    }
    SortedListingUnique(a.runtimeEgress, b.runtimeEgress);
    LeastTopologicalUnique(Requires(v.needs), Elements(a.identitySet), a.packages, b.packages);
  }

  lemma ResolvedAvoidsCycles(v: View, seeds: seq<string>, r: Resolved, x: string)
    requires IsResolutionOf(v, seeds, r) && Reached(v, seeds, x)
    ensures !ReachesCycle(Requires(v.needs), x)
  {
    hide Reached, ReachesCycle;
    var e, all := Requires(v.needs), Elements(r.identitySet);
    forall x, y | x in all && e(x, y)
      ensures y in all
    {
      NeedReached(v, seeds, x, y);
    }
    assert x in all;
    CyclesWithin(e, all, x);
    assert x in Elements(r.packages);
    var i :| 0 <= i < |r.packages| && r.packages[i] == x;
    PlacedAvoidsCycles(e, all, r.packages, i);
  }

  /** Everything a resolution reaches is known, free of cycles and free of conflicts. */
  lemma ResolutionIsSound(v: View, seeds: seq<string>, r: Resolved)
    requires IsResolutionOf(v, seeds, r)
    ensures forall x :: Reached(v, seeds, x) ==> x in v.needs && !ReachesCycle(Requires(v.needs), x)
    ensures forall a, b :: !InConflict(v, seeds, a, b)
  {
    hide Reached, ReachesCycle, IsLeastTopological;
    forall x | Reached(v, seeds, x)
      ensures x in v.needs && !ReachesCycle(Requires(v.needs), x)
    {
      assert x in Elements(r.identitySet);
      ResolvedAvoidsCycles(v, seeds, r, x);
    }
  }

  /** A justified refusal means there is no resolution. */
  lemma RefusalIsRight(v: View, p: Profile, e: Error, r: Resolved)
    requires Justified(v, p, e)
    ensures !IsResolution(v, p, r)
  {
    hide Reached, ReachesCycle, IsResolutionOf, InConflict;
    if Seeds(v, p).Ok? {
      var seeds := Seeds(v, p).value;
      if e.RequiresCycle? {
        assert e.stuck[0] in e.stuck;
      }
      if IsResolutionOf(v, seeds, r) {
        ResolutionIsSound(v, seeds, r);
      }
    }
  }

  /** Which answer a profile with known bundles gets, exactly: an unknown package is reported when one is
      reachable and only then, a conflict when all are known and two of them conflict, a cycle when
      neither is the case and one is reachable, and a resolution when none of the three is. */
  lemma AnswerIsExact(v: View, p: Profile, r: Result<Resolved>)
    requires Answers(v, p, r) && Seeds(v, p).Ok?
    ensures var seeds := Seeds(v, p).value;
            && (r.Err? && r.error.UnknownPackage? <==> !AllKnown(v, seeds))
            && (r.Err? && r.error.Conflicting? <==> AllKnown(v, seeds) && !ConflictFree(v, seeds))
            && (r.Err? && r.error.RequiresCycle?
                <==> AllKnown(v, seeds) && ConflictFree(v, seeds) && !CycleFree(v, seeds))
            && (r.Ok? <==> AllKnown(v, seeds) && ConflictFree(v, seeds) && CycleFree(v, seeds))
  {
    hide Reached, ReachesCycle, IsResolutionOf, InConflict;
    var seeds := Seeds(v, p).value;
    if r.Ok? {
      ResolutionIsSound(v, seeds, r.value);
    } else if r.error.RequiresCycle? {
      assert r.error.stuck[0] in r.error.stuck;
    }
  }

  /** The identity set is closed under requires, holds the seeds, and lies in every closed set that does. */
  lemma IdentityIsLeast(v: View, p: Profile, r: Resolved, t: iset<string>)
    requires IsResolution(v, p, r)
    requires Closed(Requires(v.needs), t) && forall s :: s in Seeds(v, p).value ==> s in t
    ensures forall x :: x in r.identitySet ==> x in t
    ensures forall s :: s in Seeds(v, p).value ==> s in r.identitySet
    ensures forall x, y :: x in r.identitySet && y in At(v.needs, x) ==> y in r.identitySet
  {
    hide ReachedFrom, IsLeastTopological;
    var seeds := Seeds(v, p).value;
    ReachedIsLeastClosed(Requires(v.needs), seeds);
    var least := iset x | ReachedFrom(Requires(v.needs), seeds, x);
    assert least <= t;
    forall x | x in r.identitySet
      ensures x in t
    {
      assert x in least;
    }
    forall x, y | x in r.identitySet && y in At(v.needs, x)
      ensures y in r.identitySet
    {
      NeedReached(v, seeds, x, y);
    }
    forall s | s in seeds
      ensures s in r.identitySet
    {
      SeedReached(v, seeds, s);
    }
  }

  /** What gets installed, in terms of the profile: a name is in the identity set exactly when requires edges lead to
      it from a package listed in the profile, in one of its bundles, or in the bundle its agent implies. */
  lemma IdentityIsAskedFor(v: View, p: Profile, r: Resolved, x: string)
    requires IsResolution(v, p, r)
    ensures x in r.identitySet <==> exists s :: AskedFor(v, p, s) && Reaches(Requires(v.needs), s, x)
  {
    hide IsLeastTopological, IsEgress, Reaches, Seeds, AskedFor;
    forall s
      ensures s in Seeds(v, p).value <==> AskedFor(v, p, s)
    {
      SeedsAreAskedFor(v, p, s);
    }
  }

  /** A bundle refusal is exact: the resolver refuses for a bundle when and only when one that the profile declares or
      implies is missing, and it names that one, the implied one before the declared ones in order. */
  lemma BundleRefusalIsExact(v: View, p: Profile, r: Result<Resolved>)
    requires Answers(v, p, r)
    ensures r.Err? && (r.error.MissingDefault? || r.error.UnknownBundle?)
            <==> (exists b :: Implies(v, p, b) && b !in v.bundles) || exists b :: b in p.bundles && b !in v.bundles
    ensures r.Err? && r.error.MissingDefault? ==> Implies(v, p, r.error.name) && r.error.name !in v.bundles
    ensures r.Err? && r.error.UnknownBundle? ==> FirstMissing(v, p.bundles, r.error.name)
    ensures (exists b :: Implies(v, p, b) && b !in v.bundles) ==> r.Err? && r.error.MissingDefault?
  {
    hide IsResolutionOf, Reached, ReachesCycle, InConflict, FirstMissing, Seeds;
    SeedsAreAskedFor(v, p, "");
  }

  lemma SameReachSameResolution(v: View, a: seq<string>, b: seq<string>, r: Resolved)
    requires forall x :: Reached(v, a, x) <==> Reached(v, b, x)
    ensures IsResolutionOf(v, a, r) <==> IsResolutionOf(v, b, r)
  {
    hide Reached, IsLeastTopological, IsEgress;
  }

  lemma ReachedThroughIdentity(v: View, a: seq<string>, b: seq<string>, x: string)
    requires forall s :: s in b ==> Reached(v, a, s)
    requires Reached(v, b, x)
    ensures Reached(v, a, x)
  {
    var e := Requires(v.needs);
    var s :| s in b && Reaches(e, s, x);
    assert Reached(v, a, s);
    var t :| t in a && Reaches(e, t, s);
    ReachesTransitive(e, t, s, x);
  }

  /** The profile a session re-resolves: its pinned identity set, without the agent's default bundle. */
  function Pinned(p: Profile, r: Resolved): Profile {
    p.(packages := r.identitySet, bareAgent := true)
  }

  /** Re-resolving the pinned profile gives back the same resolution, order and egress included. */
  lemma PinResolvesTheSame(v: View, p: Profile, r: Resolved)
    requires IsResolution(v, p, r)
    ensures IsResolution(v, Pinned(p, r), r)
    ensures forall q :: IsResolution(v, Pinned(p, r), q) ==> q == r
  {
    hide Reached, IsLeastTopological, IsEgress;
    var seeds, pinned := Seeds(v, p).value, Seeds(v, Pinned(p, r)).value;
    forall s | s in pinned
      ensures Reached(v, seeds, s)
    {
      if s in seeds {
        SeedReached(v, seeds, s);
      }
    }
    forall s | s in seeds
      ensures Reached(v, pinned, s)
    {
      SeedReached(v, seeds, s);
      SeedReached(v, pinned, s);
    }
    forall x
      ensures Reached(v, seeds, x) <==> Reached(v, pinned, x)
    {
      if Reached(v, pinned, x) {
        ReachedThroughIdentity(v, seeds, pinned, x);
      }
      if Reached(v, seeds, x) {
        ReachedThroughIdentity(v, pinned, seeds, x);
      }
    }
    SameReachSameResolution(v, seeds, pinned, r);
    forall q | IsResolution(v, Pinned(p, r), q)
      ensures q == r
    {
      ResolutionUnique(v, Pinned(p, r), q, r);
    }
  }
}
