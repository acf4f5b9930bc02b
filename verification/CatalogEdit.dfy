/** Validation, reverse closure and version bumps of the catalog
    (internal/engine/policy/catalog.go, Validate; catalog_edit.go). */
module CatalogEdit {
  import opened Names
  import opened DependencyGraph
  import opened Catalog
  import opened InstallOrder
  import opened Resolver

  // ---------------------------------------------------------------------------------------------
  // Reverse closure

  /** "x requires y" as the package list says it, shadowed duplicates included. */
  function Listed(pkgs: seq<Package>): Relation {
    (x, y) => exists p :: p in pkgs && p.name == x && y in p.needs
  }

  function NamesOf(pkgs: seq<Package>): (names: seq<string>)
    ensures |names| == |pkgs| && forall i :: 0 <= i < |pkgs| ==> names[i] == pkgs[i].name
  {
    seq(|pkgs|, i requires 0 <= i < |pkgs| => pkgs[i].name)
  }

  ghost predicate IsReverse(pkgs: seq<Package>, reverse: map<string, seq<string>>) {
    forall x, y :: x in At(reverse, y) <==> Listed(pkgs)(x, y)
  }

  /** The reverse adjacency loop. */
  method ReverseEdges(pkgs: seq<Package>) returns (reverse: map<string, seq<string>>)
    ensures IsReverse(pkgs, reverse)
  {
    reverse := map[];
    for i := 0 to |pkgs|
      invariant forall x, y :: x in At(reverse, y) <==> Listed(pkgs[..i])(x, y)
    {
      var p := pkgs[i];
      ghost var was := reverse;
      for k := 0 to |p.needs|
        invariant forall x, y :: x in At(reverse, y) <==> x in At(was, y) || (x == p.name && y in p.needs[..k])
      {
        assert p.needs[..k + 1] == p.needs[..k] + [p.needs[k]];
        reverse := reverse[p.needs[k] := At(reverse, p.needs[k]) + [p.name]];
      }
      assert p.needs[..|p.needs|] == p.needs && pkgs[..i + 1] == pkgs[..i] + [p];
    }
    assert pkgs[..|pkgs|] == pkgs;
  }

  /** The traversal so far: what was seen leads to the root, and what leads to it is seen or queued. */
  ghost predicate Traversed(e: Relation, root: string, seen: set<string>, queue: seq<string>, found: seq<string>) {
    && Distinct(found) && seen == Elements(found) + {root} && root !in found
    && (forall x :: x in seen || x in queue ==> Reaches(e, x, root))
    && forall x, y :: y in seen && e(x, y) ==> x in seen || x in queue
  }

  /** The names the traversal can ever queue. */
  function Universe(pkgs: seq<Package>, root: string): set<string> {
    Elements(NamesOf(pkgs)) + {root}
  }

  ghost predicate Inside(queue: seq<string>, universe: set<string>) {
    forall x :: x in queue ==> x in universe
  }

  lemma CallersInside(pkgs: seq<Package>, root: string, reverse: map<string, seq<string>>, y: string)
    requires IsReverse(pkgs, reverse)
    ensures Inside(At(reverse, y), Universe(pkgs, root))
    ensures forall x :: x in At(reverse, y) <==> Listed(pkgs)(x, y)
  {
    forall x | x in At(reverse, y)
      ensures x in Elements(NamesOf(pkgs))
    {
      assert Listed(pkgs)(x, y);
      var p :| p in pkgs && p.name == x && y in p.needs;
      var i :| 0 <= i < |pkgs| && pkgs[i] == p;
      assert NamesOf(pkgs)[i] == x;
    }
  }

  lemma TraverseStep(pkgs: seq<Package>, root: string, reverse: map<string, seq<string>>, seen: set<string>,
                     queue: seq<string>, found: seq<string>)
    requires queue != [] && Traversed(Listed(pkgs), root, seen, queue, found) && IsReverse(pkgs, reverse)
    requires Inside(queue, Universe(pkgs, root))
    ensures var current, callers := queue[0], At(reverse, queue[0]);
            && current in Universe(pkgs, root)
            && Inside(queue[1..], Universe(pkgs, root)) && Inside(queue[1..] + callers, Universe(pkgs, root))
            && if current in seen then Traversed(Listed(pkgs), root, seen, queue[1..], found)
               else Traversed(Listed(pkgs), root, seen + {current}, queue[1..] + callers, found + [current])
  {
    CallersInside(pkgs, root, reverse, queue[0]);
    hide Reaches, IsReverse, Listed, At, Universe;
    var e := Listed(pkgs);
    var current, callers := queue[0], At(reverse, queue[0]);
    assert queue == [current] + queue[1..] && current in queue;
    if current !in seen {
      forall x | x in callers
        ensures Reaches(e, x, root)
      {
        ReachesSelf(e, x);
        ReachesStep(e, x, x, current);
        ReachesTransitive(e, x, current, root);
      }
      assert Elements(found + [current]) == Elements(found) + {current};
    }
  }

  lemma {:induction false} WalkSeen(e: Relation, seen: set<string>, p: seq<string>)
    requires |p| > 0 && IsWalk(e, p) && p[|p| - 1] in seen
    requires forall x, y :: y in seen && e(x, y) ==> x in seen
    ensures p[0] in seen
  {
    if |p| == 1 {
    } else {
      WalkSeen(e, seen, p[1..]);
    }
  }

  lemma TraverseDone(e: Relation, root: string, seen: set<string>, found: seq<string>)
    requires Traversed(e, root, seen, [], found)
    ensures forall m :: m in found <==> m != root && Reaches(e, m, root)
  {
    forall m
      ensures m in found <==> m != root && Reaches(e, m, root)
    {
      assert m in found <==> m in Elements(found);
      if Reaches(e, m, root) {
        var p :| Walks(e, p, m, root);
        WalkSeen(e, seen, p);
      }
    }
  }

  ghost predicate IsReverseClosure(e: Relation, name: string, affected: seq<string>) {
    Sorted(affected) && Distinct(affected) && forall m :: m in affected <==> m != name && Reaches(e, m, name)
  }

  /** ReverseClosureErr: every other package from which name is reached, sorted; unknown names are refused. */
  method ReverseClosure(c: Catalog, name: string) returns (r: Result<seq<string>>)
    ensures r.Ok? <==> name in c.pkgIdx
    ensures r.Ok? ==> IsReverseClosure(Listed(c.pkgs), name, r.value)
  {
    if name !in c.pkgIdx {
      return Err(UnknownPackage(name));
    }
    var reverse := ReverseEdges(c.pkgs);
    ghost var universe := Universe(c.pkgs, name);
    var seen := {name};
    var queue := At(reverse, name);
    var found: seq<string> := [];
    CallersInside(c.pkgs, name, reverse, name);
    StartTraversal(c.pkgs, name, queue);
    hide Traversed, Listed, At, Elements, NamesOf, IsReverse, Inside, Universe;
    while |queue| > 0
      invariant Traversed(Listed(c.pkgs), name, seen, queue, found)
      invariant Inside(queue, universe)
      decreases universe - seen, |queue|
    {
      var current := queue[0];
      TraverseStep(c.pkgs, name, reverse, seen, queue, found);
      if current in seen {
        queue := queue[1..];
      } else {
        seen := seen + {current};
        found := found + [current];
        queue := queue[1..] + At(reverse, current);
      }
    }
    TraverseDone(Listed(c.pkgs), name, seen, found);
    TraversedDistinct(Listed(c.pkgs), name, seen, found);
    SortKeeps(found);
    return Ok(Sort(found));
  }

  lemma TraversedDistinct(e: Relation, name: string, seen: set<string>, found: seq<string>)
    requires Traversed(e, name, seen, [], found)
    ensures Distinct(found)
  {
  }

  lemma StartTraversal(pkgs: seq<Package>, name: string, queue: seq<string>)
    requires forall x :: x in queue <==> Listed(pkgs)(x, name)
    ensures Traversed(Listed(pkgs), name, {name}, queue, [])
  {
    hide Reaches;
    var e := Listed(pkgs);
    ReachesSelf(e, name);
    forall x | x in queue
      ensures Reaches(e, x, name)
    {
      ReachesSelf(e, x);
      ReachesStep(e, x, x, name);
    }
  }

  // ---------------------------------------------------------------------------------------------
  // Duality with the resolver's closure

  ghost predicate IsIndexed(c: Catalog) {
    c == Indexed(c.pkgs, c.bundles, c.defaults)
  }

  lemma {:induction false} IndexedEntry(pkgs: seq<Package>, x: string)
    ensures x in IndexPackages(pkgs) <==> x in NamesOf(pkgs)
    ensures x in IndexPackages(pkgs) ==> IndexPackages(pkgs)[x] in pkgs && IndexPackages(pkgs)[x].name == x
  {
    if pkgs == [] {
    } else {
      var front, last := pkgs[..|pkgs| - 1], pkgs[|pkgs| - 1];
      IndexedEntry(front, x);
      assert pkgs == front + [last];
      assert NamesOf(pkgs) == NamesOf(front) + [last.name];
    }
  }

  /** The index never has an edge the list does not. */
  lemma IndexEdgeListed(c: Catalog, x: string, y: string)
    requires IsIndexed(c) && Requires(ViewOf(c).needs)(x, y)
    ensures Listed(c.pkgs)(x, y)
  {
    IndexedEntry(c.pkgs, x);
    assert c.pkgIdx[x] in c.pkgs;
  }

  lemma {:induction false} WalkMapped(d: Relation, e: Relation, p: seq<string>)
    requires |p| > 0 && IsWalk(d, p)
    requires forall i :: 0 <= i < |p| - 1 && d(p[i], p[i + 1]) ==> Reaches(e, p[i], p[i + 1])
    ensures Reaches(e, p[0], p[|p| - 1])
  {
    if |p| == 1 {
      ReachesSelf(e, p[0]);
    } else {
      forall i | 0 <= i < |p[1..]| - 1 && d(p[1..][i], p[1..][i + 1])
        ensures Reaches(e, p[1..][i], p[1..][i + 1])
      {
        assert p[1..][i] == p[i + 1] && p[1..][i + 1] == p[i + 1 + 1];
      }
      WalkMapped(d, e, p[1..]);
      assert d(p[0], p[0 + 1]);
      ReachesTransitive(e, p[0], p[1], p[|p| - 1]);
    }
  }

  lemma IndexReachListed(c: Catalog, a: string, b: string)
    requires IsIndexed(c) && Reaches(Requires(ViewOf(c).needs), a, b)
    ensures Reaches(Listed(c.pkgs), a, b)
  {
    var d, e := Requires(ViewOf(c).needs), Listed(c.pkgs);
    var p :| Walks(d, p, a, b);
    forall i | 0 <= i < |p| - 1 && d(p[i], p[i + 1])
      ensures Reaches(e, p[i], p[i + 1])
    {
      IndexEdgeListed(c, p[i], p[i + 1]);
      ReachesSelf(e, p[i]);
      ReachesStep(e, p[i], p[i], p[i + 1]);
    }
    WalkMapped(d, e, p);
  }

  /** Every listed requirement on a known package is also reached through the index. */
  ghost predicate ShadowsNothing(c: Catalog) {
    forall p, y :: p in c.pkgs && y in p.needs && y in c.pkgIdx && y != p.name ==>
                     Reaches(Requires(ViewOf(c).needs), p.name, y)
  }

  /** Reverse closure and resolver closure are dual: m is affected by n exactly when n is reached from m. */
  ghost predicate Dual(c: Catalog) {
    forall m, n :: n in c.pkgIdx && m != n ==>
                     (Reaches(Listed(c.pkgs), m, n) <==> Reaches(Requires(ViewOf(c).needs), m, n))
  }

  lemma {:induction false} ListedWalkIndexed(c: Catalog, p: seq<string>)
    requires IsIndexed(c) && ShadowsNothing(c)
    requires |p| > 0 && IsWalk(Listed(c.pkgs), p) && p[|p| - 1] in c.pkgIdx
    ensures p[0] in c.pkgIdx && Reaches(Requires(ViewOf(c).needs), p[0], p[|p| - 1])
  {
    hide Reaches;
    var e := Requires(ViewOf(c).needs);
    if |p| == 1 {
      ReachesSelf(e, p[0]);
    } else {
      ListedWalkIndexed(c, p[1..]);
      var q :| q in c.pkgs && q.name == p[0] && p[1] in q.needs;
      IndexedEntry(c.pkgs, p[0]);
      var i :| 0 <= i < |c.pkgs| && c.pkgs[i] == q;
      assert NamesOf(c.pkgs)[i] == p[0];
      ReachesSelf(e, p[0]);
      if p[0] != p[1] {
        ReachesTransitive(e, p[0], p[1], p[|p| - 1]);
      }
    }
  }

  /** Duality holds exactly when no shadowed duplicate adds a requirement the index does not reach. */
  lemma DualIff(c: Catalog)
    requires IsIndexed(c)
    ensures Dual(c) <==> ShadowsNothing(c)
  {
    hide Reaches;
    var d, e := Listed(c.pkgs), Requires(ViewOf(c).needs);
    if ShadowsNothing(c) {
      forall m, n | n in c.pkgIdx
        ensures Reaches(d, m, n) <==> Reaches(e, m, n)
      {
        if Reaches(e, m, n) {
          IndexReachListed(c, m, n);
        }
        if Reaches(d, m, n) {
          ListedReachIndexed(c, m, n);
        }
      }
    }
    if Dual(c) {
      forall p, y | p in c.pkgs && y in p.needs && y in c.pkgIdx && y != p.name
        ensures Reaches(e, p.name, y)
      {
        assert d(p.name, y);
        ReachesSelf(d, p.name);
        ReachesStep(d, p.name, p.name, y);
      }
    }
  }

  lemma ListedReachIndexed(c: Catalog, m: string, n: string)
    requires IsIndexed(c) && ShadowsNothing(c) && n in c.pkgIdx && Reaches(Listed(c.pkgs), m, n)
    ensures Reaches(Requires(ViewOf(c).needs), m, n)
  {
    var p :| Walks(Listed(c.pkgs), p, m, n);
    ListedWalkIndexed(c, p);
  }

  /** Distinct names, which validation demands, are enough. */
  lemma DistinctIsDual(c: Catalog)
    requires IsIndexed(c) && Distinct(NamesOf(c.pkgs))
    ensures Dual(c)
  {
    forall p, y | p in c.pkgs && y in p.needs && y in c.pkgIdx && y != p.name
      ensures Reaches(Requires(ViewOf(c).needs), p.name, y)
    {
      var i :| 0 <= i < |c.pkgs| && c.pkgs[i] == p;
      assert NamesOf(c.pkgs)[i] == p.name;
      IndexedEntry(c.pkgs, p.name);
      var q := c.pkgIdx[p.name];
      var j :| 0 <= j < |c.pkgs| && c.pkgs[j] == q;
      assert NamesOf(c.pkgs)[j] == p.name;
      assert q == p;
      ReachesSelf(Requires(ViewOf(c).needs), p.name);
      ReachesStep(Requires(ViewOf(c).needs), p.name, p.name, y);
    }
    DualIff(c);
  }

  const SHADOWED := [
    Package("a", Npm, "1", map[], ["b"], [], [], []),
    Package("b", Npm, "1", map[], [], [], [], []),
    Package("a", Npm, "1", map[], [], [], [], [])
  ]

  lemma ShadowedIndex()
    ensures IndexPackages(SHADOWED) == map["a" := SHADOWED[2], "b" := SHADOWED[1]]
  {
    var one, two := [SHADOWED[0]], [SHADOWED[0], SHADOWED[1]];
    assert one[..0] == [] && two[..1] == one && SHADOWED[..2] == two;
    assert IndexPackages(one) == map["a" := SHADOWED[0]];
    assert IndexPackages(two) == map["a" := SHADOWED[0], "b" := SHADOWED[1]];
  }

  lemma NoEdgeNoReach(e: Relation, a: string, b: string)
    requires a != b && forall y :: !e(a, y)
    ensures !Reaches(e, a, b)
  {
    forall p | |p| > 0 && p[0] == a
      ensures !Walks(e, p, a, b)
    {
    }
  }

  /** A duplicate name breaks duality: a is reported as affected by b, yet resolving a never pulls b in. */
  lemma ShadowBreaksDuality()
    ensures var c := Indexed(SHADOWED, [], map[]);
            && !Dual(c) && Reaches(Listed(c.pkgs), "a", "b") && !Reaches(Requires(ViewOf(c).needs), "a", "b")
  {
    hide Reaches, IndexPackages;
    var c := Indexed(SHADOWED, [], map[]);
    var d, e := Listed(c.pkgs), Requires(ViewOf(c).needs);
    ShadowedIndex();
    assert SHADOWED[0] in c.pkgs && d("a", "b");
    ReachesSelf(d, "a");
    ReachesStep(d, "a", "a", "b");
    NoEdgeNoReach(e, "a", "b");
  }

  // ---------------------------------------------------------------------------------------------
  // Validation

  const BUILD_ARCHES := ["amd64", "arm64"]

  const UNRESOLVED := "00000000000000000000000000000000" + "00000000000000000000000000000000"

  predicate IsHex64(s: string) {
    |s| == 64 && forall ch :: ch in s ==> '0' <= ch <= '9' || 'a' <= ch <= 'f' || 'A' <= ch <= 'F'
  }

  predicate TooWide(d: string) {
    d == "" || d == "*" || '.' !in (if d[0] == '.' then d[1..] else d)
  }

  predicate ValidPackage(c: Catalog, p: Package) {
    && p.name != "" && !p.kind.OtherKind? && p.version != ""
    && (p.kind.Binary? ==> forall a :: a in BUILD_ARCHES ==> a in p.sha256 && IsHex64(p.sha256[a]))
    && (forall r :: r in p.needs + p.conflicts ==> r in c.pkgIdx)
    && (forall d :: d in p.buildFetch + p.runtimeEgress ==> !TooWide(d))
  }

  predicate ValidBundle(c: Catalog, b: Bundle) {
    b.name != "" && forall n :: n in b.packages ==> n in c.pkgIdx
  }

  predicate DistinctBundles(bundles: seq<Bundle>) {
    forall i, j :: 0 <= i < j < |bundles| ==> bundles[i].name != bundles[j].name
  }

  ghost predicate ValidCatalog(c: Catalog) {
    && (forall p :: p in c.pkgs ==> ValidPackage(c, p)) && Distinct(NamesOf(c.pkgs))
    && (forall b :: b in c.bundles ==> ValidBundle(c, b)) && DistinctBundles(c.bundles)
    && (forall a :: a in c.defaults ==> c.defaults[a] in c.bndIdx)
    && Acyclic(Requires(ViewOf(c).needs), Elements(NamesOf(c.pkgs)))
  }

  method CheckPackages(c: Catalog) returns (ok: bool)
    ensures ok <==> (forall p :: p in c.pkgs ==> ValidPackage(c, p)) && Distinct(NamesOf(c.pkgs))
  {
    hide ValidPackage;
    var seen: set<string> := {};
    ghost var names := NamesOf(c.pkgs);
    for i := 0 to |c.pkgs|
      invariant seen == Elements(names[..i]) && Distinct(names[..i])
      invariant forall k :: 0 <= k < i ==> ValidPackage(c, c.pkgs[k])
    {
      assert names[..i + 1] == names[..i] + [names[i]];
      if c.pkgs[i].name in seen {
        var k :| 0 <= k < i && c.pkgs[k].name == c.pkgs[i].name;
        assert names[k] == names[i];
        return false;
      }
      if !ValidPackage(c, c.pkgs[i]) {
        return false;
      }
      seen := seen + {c.pkgs[i].name};
    }
    assert names[..|names|] == names;
    return true;
  }

  method CheckBundles(c: Catalog) returns (ok: bool)
    ensures ok <==> (forall b :: b in c.bundles ==> ValidBundle(c, b)) && DistinctBundles(c.bundles)
  {
    hide ValidBundle;
    var seen: set<string> := {};
    for i := 0 to |c.bundles|
      invariant forall n :: n in seen <==> exists k :: 0 <= k < i && c.bundles[k].name == n
      invariant DistinctBundles(c.bundles[..i])
      invariant forall k :: 0 <= k < i ==> ValidBundle(c, c.bundles[k])
    {
      if c.bundles[i].name in seen || !ValidBundle(c, c.bundles[i]) {
        return false;
      }
      seen := seen + {c.bundles[i].name};
    }
    assert c.bundles[..|c.bundles|] == c.bundles;
    return true;
  }

  /** Validate on an indexed catalog. */
  method Validate(c: Catalog) returns (ok: bool)
    requires IsIndexed(c)
    ensures ok <==> ValidCatalog(c)
  {
    hide ValidPackage, ValidBundle, Acyclic, ViewOf;
    ok := CheckPackages(c);
    if !ok {
      return;
    }
    ok := CheckBundles(c);
    if !ok {
      return;
    }
    if exists a :: a in c.defaults && c.defaults[a] !in c.bndIdx {
      return false;
    }
    forall x | x in Elements(NamesOf(c.pkgs))
      ensures x in c.pkgIdx
    {
      IndexedEntry(c.pkgs, x);
    }
    var order := Topo(c, NamesOf(c.pkgs));
    return order.Order?;
  }

  // ---------------------------------------------------------------------------------------------
  // Bumping a version

  /** The verdict of the channel, scheme and ordering gates on moving a kind from one version to another. */
  datatype Gate = Unstable | Unparsable | Lower | Same | Higher

  datatype BumpResult = Refused | Bumped(next: Catalog, affected: seq<string>)

  predicate GoodDigests(shas: map<string, string>) {
    forall a :: a in BUILD_ARCHES ==> a in shas && IsHex64(shas[a]) && shas[a] != UNRESOLVED
  }

  function OnlyBuildArches(shas: map<string, string>): map<string, string> {
    map a | a in shas && a in BUILD_ARCHES :: shas[a]
  }

  function BumpedPackage(p: Package, version: string, shas: map<string, string>): Package {
    p.(version := version, sha256 := if p.kind.Binary? then OnlyBuildArches(shas) else p.sha256)
  }

  /** Only the version and the digests of the named package differ. */
  ghost predicate DiffersOnlyAt(was: seq<Package>, now: seq<Package>, name: string, version: string,
                                shas: map<string, string>)
  {
    && |now| == |was|
    && forall i :: 0 <= i < |was| ==>
                     now[i] == if was[i].name == name then BumpedPackage(was[i], version, shas) else was[i]
  }

  /** Equal up to version and digests. */
  predicate SameShape(p: Package, q: Package) {
    q == p.(version := q.version, sha256 := q.sha256)
  }

  lemma {:induction false} SameIndex(was: seq<Package>, now: seq<Package>, x: string)
    requires |was| == |now| && forall i :: 0 <= i < |was| ==> SameShape(was[i], now[i])
    ensures x in IndexPackages(was) <==> x in IndexPackages(now)
    ensures x in IndexPackages(was) ==> SameShape(IndexPackages(was)[x], IndexPackages(now)[x])
  {
    if was == [] {
    } else {
      SameIndex(was[..|was| - 1], now[..|now| - 1], x);
    }
  }

  /** Catalogs that differ only in versions and digests look the same to the resolver. */
  lemma SameView(c: Catalog, next: Catalog)
    requires IsIndexed(c) && IsIndexed(next) && next.bundles == c.bundles && next.defaults == c.defaults
    requires |next.pkgs| == |c.pkgs| && forall i :: 0 <= i < |c.pkgs| ==> SameShape(c.pkgs[i], next.pkgs[i])
    ensures ViewOf(next) == ViewOf(c) && next.bndIdx == c.bndIdx && next.pkgIdx.Keys == c.pkgIdx.Keys
  {
    forall x
      ensures x in c.pkgIdx <==> x in next.pkgIdx
      ensures x in c.pkgIdx ==> SameShape(c.pkgIdx[x], next.pkgIdx[x])
    {
      SameIndex(c.pkgs, next.pkgs, x);
    }
    SameTables(c, next);
  }

  lemma SameTables(c: Catalog, next: Catalog)
    requires next.bndIdx == c.bndIdx && next.defaults == c.defaults && next.pkgIdx.Keys == c.pkgIdx.Keys
    requires forall x :: x in c.pkgIdx ==> SameShape(c.pkgIdx[x], next.pkgIdx[x])
    ensures ViewOf(next) == ViewOf(c)
  {
    var v, w := ViewOf(c), ViewOf(next);
    assert v.needs == w.needs;
    assert v.conflicts == w.conflicts;
    assert v.egress == w.egress;
  }

  ghost predicate MayBump(judge: (Kind, string, string) -> Gate, c: Catalog, name: string, version: string,
                          shas: map<string, string>)
  {
    && name in c.pkgIdx && !c.pkgIdx[name].kind.Apt?
    && judge(c.pkgIdx[name].kind, c.pkgIdx[name].version, version).Higher?
    && (c.pkgIdx[name].kind.Binary? ==> GoodDigests(shas))
  }

  /** BumpPackage: on success the new catalog is valid, differs from the old one only in that package's
      version and digests, and reports exactly the packages the bump can affect. */
  method BumpPackage(judge: (Kind, string, string) -> Gate, c: Catalog, name: string, version: string,
                     shas: map<string, string>)
    returns (r: BumpResult)
    requires IsIndexed(c)
    ensures r.Bumped? ==> MayBump(judge, c, name, version, shas) && IsIndexed(r.next) && ValidCatalog(r.next)
    ensures r.Bumped? ==> r.next.bundles == c.bundles && r.next.defaults == c.defaults
                          && DiffersOnlyAt(c.pkgs, r.next.pkgs, name, version, shas)
                          && IsReverseClosure(Listed(c.pkgs), name, r.affected)
    ensures MayBump(judge, c, name, version, shas) && ValidCatalog(c) && version != "" ==> r.Bumped?
  {
    if name !in c.pkgIdx {
      return Refused;
    }
    var pkg := c.pkgIdx[name];
    var gate := judge(pkg.kind, pkg.version, version);
    if gate.Unstable? || pkg.kind.Apt? || gate.Unparsable? {
      return Refused;
    }
    var affected := ReverseClosure(c, name);
    if pkg.kind.Binary? && !GoodDigests(shas) {
      return Refused;
    }
    if gate.Lower? || gate.Same? {
      return Refused;
    }
    var i := 0;
    while i < |c.pkgs| && c.pkgs[i].name != name
      invariant i <= |c.pkgs| && forall k :: 0 <= k < i ==> c.pkgs[k].name != name
    {
      i := i + 1;
    }
    NamedIsListed(c, name, i);
    var pkgs := c.pkgs[i := c.pkgs[i].(version := version)];
    if pkg.kind.Binary? {
      pkgs := pkgs[i := pkgs[i].(sha256 := OnlyBuildArches(shas))];
    }
    var next := NewCatalog(pkgs, c.bundles, c.defaults);
    EditedNames(c, next, i);
    hide ValidCatalog, Indexed, IndexPackages, IndexBundles;
    if Distinct(NamesOf(c.pkgs)) {
      EditIsBump(c, next, name, version, shas, i);
      BumpKeepsValid(c, next, name, version, shas);
    }
    var ok := Validate(next);
    ValidIsDistinct(c);
    ValidIsDistinct(next);
    if !ok {
      return Refused;
    }
    return Bumped(next, affected.value);
  }

  lemma ValidIsDistinct(c: Catalog)
    ensures ValidCatalog(c) ==> Distinct(NamesOf(c.pkgs))
  {
  }

  lemma NamedIsListed(c: Catalog, name: string, i: nat)
    requires IsIndexed(c) && name in c.pkgIdx && i <= |c.pkgs|
    requires forall k :: 0 <= k < i ==> c.pkgs[k].name != name
    ensures i < |c.pkgs|
  {
    IndexedEntry(c.pkgs, name);
  }

  lemma EditedNames(c: Catalog, next: Catalog, i: nat)
    requires i < |c.pkgs| && |next.pkgs| == |c.pkgs| && SameShape(c.pkgs[i], next.pkgs[i])
    requires next.pkgs == c.pkgs[i := next.pkgs[i]]
    ensures NamesOf(next.pkgs) == NamesOf(c.pkgs)
  {
  }

  /** With distinct names the first package of that name is the one the index holds. */
  lemma EditIsBump(c: Catalog, next: Catalog, name: string, version: string, shas: map<string, string>, i: nat)
    requires IsIndexed(c) && name in c.pkgIdx && Distinct(NamesOf(c.pkgs))
    requires i < |c.pkgs| && c.pkgs[i].name == name
    requires next.pkgs == c.pkgs[i := c.pkgs[i].(version := version,
                                                 sha256 := if c.pkgIdx[name].kind.Binary? then OnlyBuildArches(shas)
                                                           else c.pkgs[i].sha256)]
    ensures DiffersOnlyAt(c.pkgs, next.pkgs, name, version, shas) && c.pkgIdx[name] == c.pkgs[i]
  {
    IndexedEntry(c.pkgs, name);
    var j :| 0 <= j < |c.pkgs| && c.pkgs[j] == c.pkgIdx[name];
    assert NamesOf(c.pkgs)[i] == NamesOf(c.pkgs)[j];
    forall k | 0 <= k < |c.pkgs| && k != i
      ensures c.pkgs[k].name != name
    {
      assert NamesOf(c.pkgs)[k] != NamesOf(c.pkgs)[i];
    }
  }

  lemma BumpedPackageValid(c: Catalog, next: Catalog, name: string, version: string, shas: map<string, string>, i: nat)
    requires IsIndexed(c) && name in c.pkgIdx && Distinct(NamesOf(c.pkgs)) && next.pkgIdx.Keys == c.pkgIdx.Keys
    requires DiffersOnlyAt(c.pkgs, next.pkgs, name, version, shas) && i < |c.pkgs| && ValidPackage(c, c.pkgs[i])
    requires version != "" && (c.pkgIdx[name].kind.Binary? ==> GoodDigests(shas))
    ensures ValidPackage(next, next.pkgs[i])
  {
    hide Indexed, TooWide, IsHex64;
    if c.pkgs[i].name == name {
      OneOfEachName(c, i, name);
    }
  }

  lemma BumpKeepsValid(c: Catalog, next: Catalog, name: string, version: string, shas: map<string, string>)
    requires IsIndexed(c) && IsIndexed(next) && next.bundles == c.bundles && next.defaults == c.defaults
    requires DiffersOnlyAt(c.pkgs, next.pkgs, name, version, shas)
    requires name in c.pkgIdx && c.pkgIdx[name] in c.pkgs
    ensures ViewOf(next) == ViewOf(c)
    ensures ValidCatalog(c) && version != "" && (c.pkgIdx[name].kind.Binary? ==> GoodDigests(shas)) ==> ValidCatalog(next)
  {
    SameView(c, next);
    hide Indexed, ViewOf, Acyclic, TooWide, IsHex64, ValidPackage;
    assert NamesOf(next.pkgs) == NamesOf(c.pkgs);
    if ValidCatalog(c) && version != "" && (c.pkgIdx[name].kind.Binary? ==> GoodDigests(shas)) {
      forall i | 0 <= i < |c.pkgs|
        ensures ValidPackage(next, next.pkgs[i])
      {
        BumpedPackageValid(c, next, name, version, shas, i);
      }
      forall b | b in next.bundles
        ensures ValidBundle(next, b)
      {
        assert ValidBundle(c, b);
      }
    }
  }

  lemma OneOfEachName(c: Catalog, i: nat, name: string)
    requires i < |c.pkgs| && c.pkgs[i].name == name && Distinct(NamesOf(c.pkgs))
    requires IsIndexed(c) && name in c.pkgIdx
    ensures c.pkgs[i] == c.pkgIdx[name]
  {
    IndexedEntry(c.pkgs, name);
    var j :| 0 <= j < |c.pkgs| && c.pkgs[j] == c.pkgIdx[name];
    assert NamesOf(c.pkgs)[i] == NamesOf(c.pkgs)[j];
  }

  // ---------------------------------------------------------------------------------------------
  // What a valid catalog and a bump hold, entry by entry

  /** 64 hexadecimal digits. */
  ghost predicate IsDigest(s: string) {
    |s| == 64 && forall i :: 0 <= i < 64 ==> s[i] in "0123456789" + "abcdef" + "ABCDEF"
  }

  lemma HexIsDigest(s: string)
    ensures IsHex64(s) <==> IsDigest(s)
  {
    forall ch | ch in s
      ensures ch in "0123456789" + "abcdef" + "ABCDEF"
              <==> '0' <= ch <= '9' || 'a' <= ch <= 'f' || 'A' <= ch <= 'F'
    {
      HexChar(ch);
    }
    assert forall i :: 0 <= i < |s| ==> s[i] in s;
    if IsDigest(s) {
      forall ch | ch in s
        ensures ch in "0123456789" + "abcdef" + "ABCDEF"
      {
        var i :| 0 <= i < |s| && s[i] == ch;
      }
    }
  }

  lemma HexChar(ch: char)
    ensures ch in "0123456789" + "abcdef" + "ABCDEF" <==> '0' <= ch <= '9' || 'a' <= ch <= 'f' || 'A' <= ch <= 'F'
  {
    var digits := "0123456789" + "abcdef" + "ABCDEF";
    if '0' <= ch <= '9' {
      assert digits[ch as int - '0' as int] == ch;
    } else if 'a' <= ch <= 'f' {
      assert digits[10 + ch as int - 'a' as int] == ch;
    } else if 'A' <= ch <= 'F' {
      assert digits[16 + ch as int - 'A' as int] == ch;
    }
  }

  /** An egress name is narrow enough exactly when it has a dot after its first character. */
  lemma NarrowIsDotted(d: string)
    ensures !TooWide(d) <==> exists i :: 0 < i < |d| && d[i] == '.'
  {
    if d != "" && d[0] == '.' {
      assert '.' in d[1..] <==> exists i :: 0 < i < |d| && d[i] == '.' by {
        assert forall i :: 0 < i < |d| ==> d[i] == d[1..][i - 1];
      }
    }
  }

  /** A package entry as the catalog promises it: named, pinned, of a known kind, with real digests of both
      architectures when it is a binary, naming only packages that are there, and with dotted egress names. */
  ghost predicate SoundPackage(c: Catalog, p: Package) {
    && p.name != "" && p.version != "" && p.kind in {Apt, Npm, Binary, Pip}
    && (p.kind.Binary? ==> "amd64" in p.sha256 && IsDigest(p.sha256["amd64"])
                           && "arm64" in p.sha256 && IsDigest(p.sha256["arm64"]))
    && (forall n :: n in p.needs || n in p.conflicts ==> n in c.pkgIdx)
    && forall d :: d in p.buildFetch || d in p.runtimeEgress ==> exists i :: 0 < i < |d| && d[i] == '.'
  }

  ghost predicate SoundBundle(c: Catalog, b: Bundle) {
    b.name != "" && forall n :: n in b.packages ==> n in c.pkgIdx
  }

  lemma PackageIsSound(c: Catalog, p: Package)
    ensures ValidPackage(c, p) <==> SoundPackage(c, p)
  {
    hide IsHex64, TooWide, IsDigest;
    assert BUILD_ARCHES[0] == "amd64" && BUILD_ARCHES[1] == "arm64";
    assert forall a :: a in BUILD_ARCHES <==> a == "amd64" || a == "arm64" by {
      assert |BUILD_ARCHES| == 2;
    }
    if p.kind.Binary? && "amd64" in p.sha256 && "arm64" in p.sha256 {
      HexIsDigest(p.sha256["amd64"]);
      HexIsDigest(p.sha256["arm64"]);
    }
    assert forall n :: n in p.needs + p.conflicts <==> n in p.needs || n in p.conflicts;
    assert forall d :: d in p.buildFetch + p.runtimeEgress <==> d in p.buildFetch || d in p.runtimeEgress;
    forall d
      ensures !TooWide(d) <==> exists i :: 0 < i < |d| && d[i] == '.'
    {
      NarrowIsDotted(d);
    }
  }

  /** Which catalogs validation accepts, entry by entry. */
  lemma ValidIffSound(c: Catalog)
    ensures ValidCatalog(c)
            <==> && (forall i :: 0 <= i < |c.pkgs| ==> SoundPackage(c, c.pkgs[i]))
                 && (forall i, j :: 0 <= i < j < |c.pkgs| ==> c.pkgs[i].name != c.pkgs[j].name)
                 && (forall i :: 0 <= i < |c.bundles| ==> SoundBundle(c, c.bundles[i]))
                 && (forall i, j :: 0 <= i < j < |c.bundles| ==> c.bundles[i].name != c.bundles[j].name)
                 && (forall a :: a in c.defaults ==> c.defaults[a] in c.bndIdx)
                 && (forall x :: x in Elements(NamesOf(c.pkgs)) ==>
                                   !OnCycle(Within(Requires(ViewOf(c).needs), Elements(NamesOf(c.pkgs))), x))
  {
    hide ValidPackage, SoundPackage, OnCycle, ViewOf;
    forall p
      ensures ValidPackage(c, p) <==> SoundPackage(c, p)
    {
      PackageIsSound(c, p);
    }
    var names := NamesOf(c.pkgs);
    assert Distinct(names) <==> forall i, j :: 0 <= i < j < |c.pkgs| ==> c.pkgs[i].name != c.pkgs[j].name by {
      hide NamesOf;
      if Distinct(names) {
        assert forall i, j :: 0 <= i < j < |c.pkgs| ==> names[i] != names[j];
      }
    }
    assert (forall p :: p in c.pkgs ==> ValidPackage(c, p)) <==> forall i :: 0 <= i < |c.pkgs| ==> SoundPackage(c, c.pkgs[i]) by {
      if forall p :: p in c.pkgs ==> ValidPackage(c, p) {
        assert forall i :: 0 <= i < |c.pkgs| ==> ValidPackage(c, c.pkgs[i]);
      }
    }
    assert (forall b :: b in c.bundles ==> ValidBundle(c, b)) <==> forall i :: 0 <= i < |c.bundles| ==> SoundBundle(c, c.bundles[i]) by {
      if forall b :: b in c.bundles ==> ValidBundle(c, b) {
        assert forall i :: 0 <= i < |c.bundles| ==> ValidBundle(c, c.bundles[i]);
      }
      if forall i :: 0 <= i < |c.bundles| ==> SoundBundle(c, c.bundles[i]) {
        forall b | b in c.bundles
          ensures ValidBundle(c, b)
        {
          var i :| 0 <= i < |c.bundles| && c.bundles[i] == b;
          assert SoundBundle(c, c.bundles[i]);
        }
      }
    }
  }

  /** In a valid catalog everything reached from known packages is known, and a profile can only be refused for a name
      of its own, a bundle or a package it lists that is not there, or for a conflict. */
  lemma ValidCatalogAnswers(c: Catalog, p: Profile, r: Result<Resolved>)
    requires IsIndexed(c) && ValidCatalog(c) && Answers(ViewOf(c), p, r) && r.Err?
    ensures match r.error
            case MissingDefault(_) => false
            case UnknownBundle(b) => b in p.bundles && b !in c.bndIdx
            case UnknownPackage(x) => x in p.packages && x !in c.pkgIdx
            case Conflicting(_, _) => true
            case RequiresCycle(_) => false
  {
    hide Acyclic, Indexed, ReachesCycle, Seeds, ReachedFrom, TooWide, IsHex64, InConflict, ConflictFree;
    var v := ViewOf(c);
    SeedsAreAskedFor(v, p, "");
    KnownNeeds(c);
    BundlesKnown(c);
    if Seeds(v, p).Ok? {
      var seeds := Seeds(v, p).value;
      if r.error.UnknownPackage? {
        UnknownIsListed(c, p, r.error.name);
      } else if r.error.RequiresCycle? {
        var x := r.error.stuck[0];
        assert x in r.error.stuck;
        NoCycleAnywhere(c, x);
      }
    } else if r.error.MissingDefault? {
      DefaultsThere(c, p, r.error.name);
    }
  }

  lemma KnownNeeds(c: Catalog)
    requires IsIndexed(c) && ValidCatalog(c)
    ensures forall x, y :: x in ViewOf(c).needs && y in ViewOf(c).needs[x] ==> y in ViewOf(c).needs
  {
    forall x, y | x in c.pkgIdx && y in c.pkgIdx[x].needs
      ensures y in c.pkgIdx
    {
      IndexedEntry(c.pkgs, x);
      assert ValidPackage(c, c.pkgIdx[x]);
      assert y in c.pkgIdx[x].needs + c.pkgIdx[x].conflicts;
    }
  }

  lemma BundlesKnown(c: Catalog)
    requires IsIndexed(c) && ValidCatalog(c)
    ensures forall b, x :: b in ViewOf(c).bundles && x in ViewOf(c).bundles[b] ==> x in c.pkgIdx
  {
    forall b, x | b in c.bndIdx && x in c.bndIdx[b].packages
      ensures x in c.pkgIdx
    {
      IndexHoldsNoMore(c.pkgs, c.bundles, b);
      var i :| 0 <= i < |c.bundles| && c.bundles[i].name == b && LastBundle(c.bundles, i);
      IndexHoldsLastBundle(c.bundles, i);
      assert ValidBundle(c, c.bundles[i]);
    }
  }

  lemma DefaultsThere(c: Catalog, p: Profile, b: string)
    requires ValidCatalog(c) && Implies(ViewOf(c), p, b)
    ensures b in ViewOf(c).bundles
  {
  }

  lemma {:induction false} WalkToUnknown(v: View, w: seq<string>)
    requires |w| > 0 && IsWalk(Requires(v.needs), w) && w[|w| - 1] !in v.needs
    requires forall x, y :: x in v.needs && y in v.needs[x] ==> y in v.needs
    ensures |w| == 1
  {
    if |w| == 1 {
    } else {
      WalkToUnknown(v, w[1..]);
      assert false;
    }
  }

  lemma UnknownIsListed(c: Catalog, p: Profile, x: string)
    requires IsIndexed(c) && ValidCatalog(c) && Seeds(ViewOf(c), p).Ok?
    requires Reached(ViewOf(c), Seeds(ViewOf(c), p).value, x) && x !in ViewOf(c).needs
    ensures x in p.packages
  {
    hide Seeds, IsWalk, ValidCatalog;
    var v := ViewOf(c);
    KnownNeeds(c);
    BundlesKnown(c);
    var s :| s in Seeds(v, p).value && Reaches(Requires(v.needs), s, x);
    var w :| Walks(Requires(v.needs), w, s, x);
    WalkToUnknown(v, w);
    SeedsAreAskedFor(v, p, x);
    hide Implies;
  }

  lemma NoCycleAnywhere(c: Catalog, x: string)
    requires IsIndexed(c) && ValidCatalog(c) && x in c.pkgIdx
    ensures !ReachesCycle(Requires(ViewOf(c).needs), x)
  {
    hide ReachesCycle;
    IndexedEntry(c.pkgs, x);
    var e, all := Requires(ViewOf(c).needs), Elements(NamesOf(c.pkgs));
    KnownNeeds(c);
    forall y, z | y in all && e(y, z)
      ensures z in all
    {
      IndexedEntry(c.pkgs, y);
      IndexedEntry(c.pkgs, z);
    }
    CyclesWithin(e, all, x);
    AcyclicReachesNone(e, all, x);
  }

  lemma AcyclicReachesNone(e: Relation, names: set<string>, x: string)
    requires Acyclic(e, names)
    ensures !ReachesCycle(Within(e, names), x)
  {
    hide Reaches;
    forall y
      ensures OnCycle(Within(e, names), y) ==> y in names
    {
      CycleIsReached(e, names, y);
    }
  }

  /** What a bump writes: the version, and for a binary exactly the two build architectures' digests as given, real
      ones; every other field, and every other package, is as it was. */
  lemma BumpWrites(judge: (Kind, string, string) -> Gate, c: Catalog, next: Catalog, name: string, version: string,
                   shas: map<string, string>, i: nat)
    requires IsIndexed(c) && Distinct(NamesOf(c.pkgs)) && MayBump(judge, c, name, version, shas)
    requires DiffersOnlyAt(c.pkgs, next.pkgs, name, version, shas) && i < |c.pkgs|
    ensures next.pkgs[i] == c.pkgs[i].(version := next.pkgs[i].version, sha256 := next.pkgs[i].sha256)
    ensures c.pkgs[i].name != name ==> next.pkgs[i] == c.pkgs[i]
    ensures c.pkgs[i].name == name ==> next.pkgs[i].version == version
    ensures c.pkgs[i].name == name && !c.pkgs[i].kind.Binary? ==> next.pkgs[i].sha256 == c.pkgs[i].sha256
    ensures c.pkgs[i].name == name && c.pkgs[i].kind.Binary? ==>
              var d := next.pkgs[i].sha256;
              && "amd64" in shas && "arm64" in shas && d == map["amd64" := shas["amd64"], "arm64" := shas["arm64"]]
              && IsDigest(d["amd64"]) && IsDigest(d["arm64"]) && UNRESOLVED !in d.Values
  {
    hide IsHex64, IsDigest, Indexed;
    if c.pkgs[i].name == name {
      OneOfEachName(c, i, name);
      if c.pkgs[i].kind.Binary? {
        assert BUILD_ARCHES[0] == "amd64" && BUILD_ARCHES[1] == "arm64";
        HexIsDigest(shas["amd64"]);
        HexIsDigest(shas["arm64"]);
      }
    }
  }

  // ---------------------------------------------------------------------------------------------
  // What a bump means for profiles

  /** A successful bump changes no profile's resolution. */
  lemma BumpKeepsResolutions(c: Catalog, next: Catalog, name: string, version: string, shas: map<string, string>,
                             p: Profile, r: Resolved)
    requires IsIndexed(c) && IsIndexed(next) && next.bundles == c.bundles && next.defaults == c.defaults
    requires DiffersOnlyAt(c.pkgs, next.pkgs, name, version, shas)
    ensures IsResolution(ViewOf(c), p, r) <==> IsResolution(ViewOf(next), p, r)
    ensures forall e :: Justified(ViewOf(c), p, e) <==> Justified(ViewOf(next), p, e)
  {
    SameView(c, next);
  }

  /** The reported blast radius is exact: a profile installs the bumped package exactly when one of its
      seeds is that package or one of the affected ones. */
  lemma AffectedIsExact(c: Catalog, name: string, affected: seq<string>, p: Profile, r: Resolved)
    requires IsIndexed(c) && Distinct(NamesOf(c.pkgs)) && name in c.pkgIdx
    requires IsReverseClosure(Listed(c.pkgs), name, affected)
    requires IsResolution(ViewOf(c), p, r)
    ensures name in r.identitySet <==> exists s :: s in Seeds(ViewOf(c), p).value && (s == name || s in affected)
  {
    hide Reaches, Listed, IsLeastTopological, IsEgress;
    DistinctIsDual(c);
    var seeds, e := Seeds(ViewOf(c), p).value, Requires(ViewOf(c).needs);
    ReachesSelf(e, name);
    forall s
      ensures s == name || s in affected <==> Reaches(e, s, name)
    {
      if s != name {
        assert Reaches(Listed(c.pkgs), s, name) <==> Reaches(e, s, name);
      }
    }
    assert name in r.identitySet <==> Reached(ViewOf(c), seeds, name);
  }
}
