/** The package catalog and its resolver (internal/engine/policy/catalog.go, resolve.go). */
module Catalog {
  import opened Names
  import opened DependencyGraph

  datatype Kind = Apt | Npm | Binary | Pip | OtherKind(text: string)

  datatype Package = Package(
    name: string,
    kind: Kind,
    version: string,
    sha256: map<string, string>,
    needs: seq<string>,
    conflicts: seq<string>,
    buildFetch: seq<string>,
    runtimeEgress: seq<string>
  )

  datatype Bundle = Bundle(name: string, packages: seq<string>)

  datatype Catalog = Catalog(
    pkgs: seq<Package>,
    bundles: seq<Bundle>,
    pkgIdx: map<string, Package>,
    bndIdx: map<string, Bundle>,
    defaults: map<string, string>
  )

  datatype Profile = Profile(agent: string, bareAgent: bool, bundles: seq<string>, packages: seq<string>)

  datatype Resolved = Resolved(packages: seq<string>, identitySet: seq<string>, runtimeEgress: seq<string>)

  datatype Error =
    | MissingDefault(name: string)
    | UnknownBundle(name: string)
    | UnknownPackage(name: string)
    | Conflicting(left: string, right: string)
    | RequiresCycle(stuck: seq<string>)

  datatype Result<+T> = Ok(value: T) | Err(error: Error)

  // ---------------------------------------------------------------------------------------------
  // Indexing

  /** The last package of each name wins. */
  function IndexPackages(pkgs: seq<Package>): map<string, Package> {
    if pkgs == [] then map[]
    else var last := pkgs[|pkgs| - 1]; IndexPackages(pkgs[..|pkgs| - 1])[last.name := last]
  }

  function IndexBundles(bundles: seq<Bundle>): map<string, Bundle> {
    if bundles == [] then map[]
    else var last := bundles[|bundles| - 1]; IndexBundles(bundles[..|bundles| - 1])[last.name := last]
  }

  function Indexed(pkgs: seq<Package>, bundles: seq<Bundle>, defaults: map<string, string>): Catalog {
    Catalog(pkgs, bundles, IndexPackages(pkgs), IndexBundles(bundles), defaults)
  }

  /** newCatalog */
  method NewCatalog(pkgs: seq<Package>, bundles: seq<Bundle>, defaults: map<string, string>) returns (c: Catalog)
    ensures c == Indexed(pkgs, bundles, defaults)
  {
    var pkgIdx: map<string, Package> := map[];
    for i := 0 to |pkgs|
      invariant pkgIdx == IndexPackages(pkgs[..i])
    {
      assert pkgs[..i + 1][..i] == pkgs[..i];
      pkgIdx := pkgIdx[pkgs[i].name := pkgs[i]];
    }
    var bndIdx: map<string, Bundle> := map[];
    for i := 0 to |bundles|
      invariant bndIdx == IndexBundles(bundles[..i])
    {
      assert bundles[..i + 1][..i] == bundles[..i];
      bndIdx := bndIdx[bundles[i].name := bundles[i]];
    }
    assert pkgs[..|pkgs|] == pkgs && bundles[..|bundles|] == bundles;
    return Catalog(pkgs, bundles, pkgIdx, bndIdx, defaults);
  }

  // ---------------------------------------------------------------------------------------------
  // What the resolver can see of a catalog

  datatype View = View(
    needs: map<string, seq<string>>,
    conflicts: map<string, seq<string>>,
    egress: map<string, seq<string>>,
    bundles: map<string, seq<string>>,
    defaults: map<string, string>
  )

  function ViewOf(c: Catalog): View {
    View(map n | n in c.pkgIdx :: c.pkgIdx[n].needs,
         map n | n in c.pkgIdx :: c.pkgIdx[n].conflicts,
         map n | n in c.pkgIdx :: c.pkgIdx[n].runtimeEgress,
         map n | n in c.bndIdx :: c.bndIdx[n].packages,
         c.defaults)
  }

  function At(m: map<string, seq<string>>, n: string): seq<string> {
    if n in m then m[n] else []
  }

  function Requires(needs: map<string, seq<string>>): Relation {
    (x, y) => y in At(needs, x)
  }

  function NormalizeAgent(agent: string): string {
    if agent == "claude-code" then "claude" else agent
  }

  function DefaultBundle(v: View, agent: string): string {
    var a := NormalizeAgent(agent);
    if a in v.defaults then v.defaults[a] else ""
  }

  /** The packages of the declared bundles in order, or the first bundle that is not there. */
  function BundleSeeds(v: View, bundles: seq<string>): Result<seq<string>> {
    if bundles == [] then Ok([])
    else
      var last := bundles[|bundles| - 1];
      match BundleSeeds(v, bundles[..|bundles| - 1])
      case Err(e) => Err(e)
      case Ok(front) => if last in v.bundles then Ok(front + v.bundles[last]) else Err(UnknownBundle(last))
  }

  function DefaultSeeds(v: View, p: Profile): Result<seq<string>> {
    var b := DefaultBundle(v, p.agent);
    if p.bareAgent || b == "" then Ok([])
    else if b in v.bundles then Ok(v.bundles[b]) else Err(MissingDefault(b))
  }

  function Seeds(v: View, p: Profile): Result<seq<string>> {
    match DefaultSeeds(v, p)
    case Err(e) => Err(e)
    case Ok(agent) =>
      match BundleSeeds(v, p.bundles)
      case Err(e) => Err(e)
      case Ok(declared) => Ok(agent + declared + p.packages)
  }

  method GatherSeeds(c: Catalog, p: Profile) returns (r: Result<seq<string>>)
    ensures r == Seeds(ViewOf(c), p)
  {
    var v := ViewOf(c);
    var agent: seq<string> := [];
    if !p.bareAgent {
      var a := NormalizeAgent(p.agent);
      var name := if a in c.defaults then c.defaults[a] else "";
      if name != "" {
        if name !in c.bndIdx {
          return Err(MissingDefault(name));
        }
        agent := c.bndIdx[name].packages;
      }
    }
    var seeds := agent;
    assert p.bundles[..|p.bundles|] == p.bundles;
    for i := 0 to |p.bundles|
      invariant BundleSeeds(v, p.bundles[..i]).Ok? && seeds == agent + BundleSeeds(v, p.bundles[..i]).value
    {
      assert p.bundles[..i + 1][..i] == p.bundles[..i];
      if p.bundles[i] !in c.bndIdx {
        BundleSeedsError(v, p.bundles, i + 1);
        return Err(UnknownBundle(p.bundles[i]));
      }
      seeds := seeds + c.bndIdx[p.bundles[i]].packages;
    }
    return Ok(seeds + p.packages);
  }

  lemma {:induction false} BundleSeedsError(v: View, bundles: seq<string>, k: nat)
    requires k <= |bundles| && BundleSeeds(v, bundles[..k]).Err?
    ensures BundleSeeds(v, bundles) == BundleSeeds(v, bundles[..k])
    decreases |bundles| - k
  {
    if k == |bundles| {
      assert bundles[..k] == bundles;
    } else {
      assert bundles[..k + 1][..k] == bundles[..k];
      BundleSeedsError(v, bundles, k + 1);
    }
  }

  // ---------------------------------------------------------------------------------------------
  // What the index and the seeds are

  /** Entry i is the last one of its name. */
  predicate LastPackage(pkgs: seq<Package>, i: nat)
    requires i < |pkgs|
  {
    forall j :: i < j < |pkgs| ==> pkgs[j].name != pkgs[i].name
  }

  predicate LastBundle(bundles: seq<Bundle>, i: nat)
    requires i < |bundles|
  {
    forall j :: i < j < |bundles| ==> bundles[j].name != bundles[i].name
  }

  lemma {:induction false} IndexHoldsLast(pkgs: seq<Package>, i: nat)
    requires i < |pkgs| && LastPackage(pkgs, i)
    ensures pkgs[i].name in IndexPackages(pkgs) && IndexPackages(pkgs)[pkgs[i].name] == pkgs[i]
  {
    var n := |pkgs| - 1;
    if i < n {
      assert pkgs[n].name != pkgs[i].name;
      IndexHoldsLast(pkgs[..n], i);
    }
  }

  lemma {:induction false} IndexHoldsLastBundle(bundles: seq<Bundle>, i: nat)
    requires i < |bundles| && LastBundle(bundles, i)
    ensures bundles[i].name in IndexBundles(bundles) && IndexBundles(bundles)[bundles[i].name] == bundles[i]
  {
    var n := |bundles| - 1;
    if i < n {
      assert bundles[n].name != bundles[i].name;
      IndexHoldsLastBundle(bundles[..n], i);
    }
  }

  lemma {:induction false} IndexHoldsNoMore(pkgs: seq<Package>, bundles: seq<Bundle>, n: string)
    ensures n in IndexPackages(pkgs) ==> exists i :: 0 <= i < |pkgs| && pkgs[i].name == n && LastPackage(pkgs, i)
    ensures n in IndexBundles(bundles) ==> exists i :: 0 <= i < |bundles| && bundles[i].name == n && LastBundle(bundles, i)
    decreases |pkgs| + |bundles|
  {
    if pkgs != [] {
      var k := |pkgs| - 1;
      IndexHoldsNoMore(pkgs[..k], bundles, n);
      if pkgs[k].name == n {
        assert LastPackage(pkgs, k);
      } else if n in IndexPackages(pkgs) {
        var i :| 0 <= i < k && pkgs[..k][i].name == n && LastPackage(pkgs[..k], i);
        assert LastPackage(pkgs, i);
      }
    } else if bundles != [] {
      var k := |bundles| - 1;
      IndexHoldsNoMore(pkgs, bundles[..k], n);
      if bundles[k].name == n {
        assert LastBundle(bundles, k);
      } else if n in IndexBundles(bundles) {
        var i :| 0 <= i < k && bundles[..k][i].name == n && LastBundle(bundles[..k], i);
        assert LastBundle(bundles, i);
      }
    }
  }

  /** What the resolver sees is the last package and the last bundle of each name, field by field. */
  lemma ViewShowsLast(pkgs: seq<Package>, bundles: seq<Bundle>, defaults: map<string, string>)
    ensures var v := ViewOf(Indexed(pkgs, bundles, defaults));
            && (forall i :: 0 <= i < |pkgs| && LastPackage(pkgs, i) ==>
                  && pkgs[i].name in v.needs.Keys * v.conflicts.Keys * v.egress.Keys
                  && v.needs[pkgs[i].name] == pkgs[i].needs && v.conflicts[pkgs[i].name] == pkgs[i].conflicts
                  && v.egress[pkgs[i].name] == pkgs[i].runtimeEgress)
            && (forall n :: n in v.needs.Keys + v.conflicts.Keys + v.egress.Keys ==>
                  exists i :: 0 <= i < |pkgs| && pkgs[i].name == n && LastPackage(pkgs, i))
            && (forall i :: 0 <= i < |bundles| && LastBundle(bundles, i) ==>
                  bundles[i].name in v.bundles && v.bundles[bundles[i].name] == bundles[i].packages)
            && (forall n :: n in v.bundles ==>
                  exists i :: 0 <= i < |bundles| && bundles[i].name == n && LastBundle(bundles, i))
            && v.defaults == defaults
  {
    hide LastPackage, LastBundle, IndexPackages, IndexBundles;
    forall i | 0 <= i < |pkgs| && LastPackage(pkgs, i)
      ensures pkgs[i].name in IndexPackages(pkgs) && IndexPackages(pkgs)[pkgs[i].name] == pkgs[i]
    {
      IndexHoldsLast(pkgs, i);
    }
    forall i | 0 <= i < |bundles| && LastBundle(bundles, i)
      ensures bundles[i].name in IndexBundles(bundles) && IndexBundles(bundles)[bundles[i].name] == bundles[i]
    {
      IndexHoldsLastBundle(bundles, i);
    }
    forall n
      ensures n in IndexPackages(pkgs) ==> exists i :: 0 <= i < |pkgs| && pkgs[i].name == n && LastPackage(pkgs, i)
      ensures n in IndexBundles(bundles) ==> exists i :: 0 <= i < |bundles| && bundles[i].name == n && LastBundle(bundles, i)
    {
      IndexHoldsNoMore(pkgs, bundles, n);
    }
  }

  /** The bundle that selecting the agent implies: a default under the agent's name, claude-code counting as claude,
      that is not the empty name. */
  predicate Implies(v: View, p: Profile, b: string) {
    && !p.bareAgent && b != ""
    && (if p.agent == "claude-code" then "claude" in v.defaults && v.defaults["claude"] == b
        else p.agent in v.defaults && v.defaults[p.agent] == b)
  }

  /** A package the profile asks for by itself, through a declared bundle or through its agent. */
  ghost predicate AskedFor(v: View, p: Profile, x: string) {
    || x in p.packages
    || (exists b :: b in p.bundles && b in v.bundles && x in v.bundles[b])
    || (exists b :: Implies(v, p, b) && b in v.bundles && x in v.bundles[b])
  }

  lemma {:induction false} BundleSeedsAre(v: View, bundles: seq<string>, x: string)
    ensures BundleSeeds(v, bundles).Ok? <==> forall b :: b in bundles ==> b in v.bundles
    ensures BundleSeeds(v, bundles).Ok? ==>
              (x in BundleSeeds(v, bundles).value <==> exists b :: b in bundles && b in v.bundles && x in v.bundles[b])
  {
    if bundles == [] {
    } else {
      var front, last := bundles[..|bundles| - 1], bundles[|bundles| - 1];
      BundleSeedsAre(v, front, x);
      assert forall b :: b in bundles <==> b in front || b == last;
    }
  }

  /** The refused bundle is the first declared one that is not there. */
  predicate FirstMissing(v: View, bundles: seq<string>, b: string) {
    exists i :: 0 <= i < |bundles| && bundles[i] == b && b !in v.bundles && forall k :: 0 <= k < i ==> bundles[k] in v.bundles
  }

  lemma {:induction false} BundleSeedsRefuse(v: View, bundles: seq<string>)
    requires BundleSeeds(v, bundles).Err?
    ensures BundleSeeds(v, bundles).error.UnknownBundle? && FirstMissing(v, bundles, BundleSeeds(v, bundles).error.name)
  {
    var n := |bundles| - 1;
    if BundleSeeds(v, bundles[..n]).Err? {
      BundleSeedsRefuse(v, bundles[..n]);
      var b := BundleSeeds(v, bundles[..n]).error.name;
      var i :| 0 <= i < n && bundles[..n][i] == b && b !in v.bundles && forall k :: 0 <= k < i ==> bundles[..n][k] in v.bundles;
      assert bundles[i] == b && forall k :: 0 <= k < i ==> bundles[k] == bundles[..n][k];
    } else {
      BundleSeedsAre(v, bundles[..n], "");
      assert forall k :: 0 <= k < n ==> bundles[k] == bundles[..n][k];
    }
  }

  /** The seeds are exactly the packages asked for. They are refused exactly when the implied bundle or a declared one
      is missing, and the refusal names the implied one first, then the first missing one. */
  lemma SeedsAreAskedFor(v: View, p: Profile, x: string)
    ensures Seeds(v, p).Ok? <==> (forall b :: Implies(v, p, b) ==> b in v.bundles) && forall b :: b in p.bundles ==> b in v.bundles
    ensures Seeds(v, p).Ok? ==> (x in Seeds(v, p).value <==> AskedFor(v, p, x))
    ensures Seeds(v, p).Err? ==>
              match Seeds(v, p).error
              case MissingDefault(b) => Implies(v, p, b) && b !in v.bundles
              case UnknownBundle(b) => (forall d :: Implies(v, p, d) ==> d in v.bundles) && FirstMissing(v, p.bundles, b)
              case _ => false
  {
    hide BundleSeeds;
    BundleSeedsAre(v, p.bundles, x);
    if BundleSeeds(v, p.bundles).Err? {
      BundleSeedsRefuse(v, p.bundles);
    }
    var b := DefaultBundle(v, p.agent);
    assert forall d :: Implies(v, p, d) <==> !p.bareAgent && b != "" && d == b;
    hide FirstMissing;
  }

  // ---------------------------------------------------------------------------------------------
  // The requires-closure

  ghost predicate Reached(v: View, seeds: seq<string>, x: string) {
    ReachedFrom(Requires(v.needs), seeds, x)
  }

  /** One call of the closure's add: x is reached, so the queue stays a listing of reached known names. */
  ghost predicate QueueOf(v: View, seeds: seq<string>, queue: seq<string>) {
    && Distinct(queue) && Elements(queue) <= v.needs.Keys
    && forall x :: x in queue ==> Reached(v, seeds, x)
  }

  lemma QueueGrows(v: View, seeds: seq<string>, queue: seq<string>, x: string)
    requires QueueOf(v, seeds, queue) && Reached(v, seeds, x) && x in v.needs && x !in queue
    ensures QueueOf(v, seeds, queue + [x]) && |queue| < |v.needs|
    ensures Elements(queue + [x]) == Elements(queue) + {x}
  {
    DistinctBounded(queue + [x], v.needs.Keys);
  }

  /** The closure's add: queue a name once, or refuse an unknown one. */
  method Add(c: Catalog, ghost seeds: seq<string>, queue: seq<string>, inSet: set<string>, name: string)
    returns (known: bool, grown: seq<string>, marked: set<string>)
    requires inSet == Elements(queue) && QueueOf(ViewOf(c), seeds, queue) && Reached(ViewOf(c), seeds, name)
    requires |queue| <= |ViewOf(c).needs|
    ensures known <==> name in c.pkgIdx
    ensures known ==> name in grown
    ensures queue <= grown && |grown| <= |ViewOf(c).needs|
    ensures marked == Elements(grown) && QueueOf(ViewOf(c), seeds, grown)
  {
    known, grown, marked := true, queue, inSet;
    if name in inSet {
      assert name in Elements(queue);
      return;
    }
    if name !in c.pkgIdx {
      known := false;
      return;
    }
    QueueGrows(ViewOf(c), seeds, queue, name);
    grown, marked := queue + [name], inSet + {name};
  }

  /** Adds a list in order, stopping at the first unknown name. */
  method AddAll(c: Catalog, ghost seeds: seq<string>, queue: seq<string>, inSet: set<string>, names: seq<string>)
    returns (missing: seq<string>, grown: seq<string>, marked: set<string>)
    requires inSet == Elements(queue) && QueueOf(ViewOf(c), seeds, queue) && |queue| <= |ViewOf(c).needs|
    requires forall n :: n in names ==> Reached(ViewOf(c), seeds, n)
    ensures |missing| <= 1 && forall m :: m in missing ==> m !in c.pkgIdx && m in names
    ensures missing == [] ==> forall n :: n in names ==> n in grown
    ensures queue <= grown && |grown| <= |ViewOf(c).needs|
    ensures marked == Elements(grown) && QueueOf(ViewOf(c), seeds, grown)
  {
    hide QueueOf, Reached, Elements, ViewOf;
    grown, marked := queue, inSet;
    for i := 0 to |names|
      invariant queue <= grown && |grown| <= |ViewOf(c).needs|
      invariant marked == Elements(grown) && QueueOf(ViewOf(c), seeds, grown)
      invariant forall k :: 0 <= k < i ==> names[k] in grown
    {
      var known: bool;
      known, grown, marked := Add(c, seeds, grown, marked, names[i]);
      if !known {
        return [names[i]], grown, marked;
      }
    }
    return [], grown, marked;
  }

  /** The requirements of the first n queued names are queued. */
  ghost predicate Expanded(v: View, queue: seq<string>, n: nat) {
    forall k, y :: 0 <= k < n && k < |queue| && y in At(v.needs, queue[k]) ==> y in queue
  }

  lemma ExpandStep(v: View, before: seq<string>, queue: seq<string>, i: nat)
    requires Expanded(v, before, i) && before <= queue && i < |before|
    requires forall y :: y in At(v.needs, before[i]) ==> y in queue
    ensures Expanded(v, queue, i + 1)
  {
    forall k, y | 0 <= k < i + 1 && y in At(v.needs, queue[k])
      ensures y in queue
    {
      assert queue[k] == before[k];
      assert k < i ==> y in before;
    }
  }

  /** The breadth-first closure: everything reached from the seeds, each name once, or an unknown reached name. */
  method Closure(c: Catalog, seeds: seq<string>) returns (r: Result<seq<string>>)
    ensures r.Ok? ==> Distinct(r.value) && Elements(r.value) <= c.pkgIdx.Keys
                      && forall x :: x in r.value <==> Reached(ViewOf(c), seeds, x)
    ensures r.Err? ==> r.error.UnknownPackage? && r.error.name !in c.pkgIdx
                       && Reached(ViewOf(c), seeds, r.error.name)
  {
    hide QueueOf, Reached, Elements, ViewOf;
    ghost var v := ViewOf(c);
    EmptyQueue(c, seeds);
    var missing, queue, inSet := AddAll(c, seeds, [], {}, seeds);
    if missing != [] {
      assert missing[0] in missing;
      return Err(UnknownPackage(missing[0]));
    }
    var i := 0;
    while i < |queue|
      invariant i <= |queue| <= |v.needs|
      invariant inSet == Elements(queue) && QueueOf(v, seeds, queue)
      invariant forall s :: s in seeds ==> s in queue
      invariant Expanded(v, queue, i)
      decreases |v.needs| - i
    {
      ghost var before, x := queue, queue[i];
      QueuedIsKnown(c, seeds, queue, x);
      var reqs := c.pkgIdx[queue[i]].needs;
      missing, queue, inSet := AddAll(c, seeds, queue, inSet, reqs);
      if missing != [] {
        assert missing[0] in missing;
        return Err(UnknownPackage(missing[0]));
      }
      ExpandStep(v, before, queue, i);
      i := i + 1;
    }
    ClosedIsReached(c, seeds, queue);
    return Ok(queue);
  }

  lemma EmptyQueue(c: Catalog, seeds: seq<string>)
    ensures QueueOf(ViewOf(c), seeds, []) && Elements([]) == {}
    ensures forall s :: s in seeds ==> Reached(ViewOf(c), seeds, s)
  {
    forall s | s in seeds
      ensures Reached(ViewOf(c), seeds, s)
    {
      SeedReached(ViewOf(c), seeds, s);
    }
  }

  lemma QueuedIsKnown(c: Catalog, seeds: seq<string>, queue: seq<string>, x: string)
    requires QueueOf(ViewOf(c), seeds, queue) && x in queue
    ensures x in c.pkgIdx && c.pkgIdx[x].needs == At(ViewOf(c).needs, x)
    ensures forall y :: y in c.pkgIdx[x].needs ==> Reached(ViewOf(c), seeds, y)
  {
    assert x in Elements(queue);
    forall y | y in c.pkgIdx[x].needs
      ensures Reached(ViewOf(c), seeds, y)
    {
      NeedReached(ViewOf(c), seeds, x, y);
    }
  }

  lemma SeedReached(v: View, seeds: seq<string>, s: string)
    requires s in seeds
    ensures Reached(v, seeds, s)
  {
    ReachesSelf(Requires(v.needs), s);
  }

  lemma NeedReached(v: View, seeds: seq<string>, x: string, y: string)
    requires Reached(v, seeds, x) && y in At(v.needs, x)
    ensures Reached(v, seeds, y)
  {
    var s :| s in seeds && Reaches(Requires(v.needs), s, x);
    ReachesStep(Requires(v.needs), s, x, y);
  }

  lemma ClosedIsReached(c: Catalog, seeds: seq<string>, queue: seq<string>)
    requires QueueOf(ViewOf(c), seeds, queue)
    requires forall s :: s in seeds ==> s in queue
    requires Expanded(ViewOf(c), queue, |queue|)
    ensures Distinct(queue) && Elements(queue) <= c.pkgIdx.Keys
    ensures forall x :: x in queue <==> Reached(ViewOf(c), seeds, x)
  {
    hide ReachedFrom;
    var e := Requires(ViewOf(c).needs);
    ReachedIsLeastClosed(e, seeds);
    var t := iset x | x in queue;
    assert Closed(e, t);
    var r := iset x | ReachedFrom(e, seeds, x);
    assert r <= t;
    forall x | Reached(ViewOf(c), seeds, x)
      ensures x in queue
    {
      assert x in r;
    }
  }
}
