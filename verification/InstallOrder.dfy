/** The deterministic install order: Kahn's algorithm with a sorted ready list
    (internal/engine/policy/resolve.go, Catalog.topo). */
module InstallOrder {
  import opened Names
  import opened DependencyGraph
  import opened Catalog

  // ---------------------------------------------------------------------------------------------
  // Counting requirements, duplicates included

  function CountIn(reqs: seq<string>, s: set<string>): nat {
    if reqs == [] then 0
    else CountIn(reqs[..|reqs| - 1], s) + if reqs[|reqs| - 1] in s then 1 else 0
  }

  function Occurs(s: seq<string>, x: string): nat { multiset(s)[x] }

  lemma OccursAppend(s: seq<string>, y: string, x: string)
    ensures Occurs(s + [y], x) == Occurs(s, x) + if x == y then 1 else 0
  {
  }

  lemma {:induction false} CountZero(reqs: seq<string>, s: set<string>)
    ensures CountIn(reqs, s) == 0 <==> forall r :: r in reqs ==> r !in s
  {
    if reqs == [] {
    } else {
      CountZero(reqs[..|reqs| - 1], s);
      assert reqs == reqs[..|reqs| - 1] + [reqs[|reqs| - 1]];
    }
  }

  /** Placing one name lowers the count by that name's multiplicity. */
  lemma {:induction false} CountRemove(reqs: seq<string>, s: set<string>, n: string)
    requires n in s
    ensures CountIn(reqs, s) == CountIn(reqs, s - {n}) + multiset(reqs)[n]
  {
    if reqs == [] {
    } else {
      var front, last := reqs[..|reqs| - 1], reqs[|reqs| - 1];
      CountRemove(front, s, n);
      assert reqs == front + [last];
    }
  }

  // ---------------------------------------------------------------------------------------------
  // Building in-degrees and dependents

  /** In-degrees and dependents agree with the requirements counted so far. */
  ghost predicate EdgesFor(names: set<string>, counted: map<string, seq<string>>,
                           indeg: map<string, int>, dependents: map<string, seq<string>>)
  {
    && indeg.Keys == counted.Keys == names
    && (forall m :: m in names ==> indeg[m] == CountIn(counted[m], names))
    && TableFor(names, counted, dependents)
  }

  /** r's dependents list m once for every time m requires r. */
  ghost predicate TableFor(names: set<string>, counted: map<string, seq<string>>, dependents: map<string, seq<string>>) {
    && counted.Keys == names
    && (forall r, m :: r in names && m in names ==> Occurs(At(dependents, r), m) == Occurs(counted[m], r))
    && (forall r, m :: m in At(dependents, r) ==> m in names)
  }

  lemma CountAppend(reqs: seq<string>, s: set<string>, r: string)
    ensures CountIn(reqs + [r], s) == CountIn(reqs, s) + if r in s then 1 else 0
  {
    assert (reqs + [r])[..|reqs + [r]| - 1] == reqs;
  }

  lemma EdgeOutside(names: set<string>, counted: map<string, seq<string>>, indeg: map<string, int>,
                    dependents: map<string, seq<string>>, n: string, r: string)
    requires EdgesFor(names, counted, indeg, dependents) && n in names && r !in names
    ensures EdgesFor(names, counted[n := counted[n] + [r]], indeg, dependents)
  {
    CountAppend(counted[n], names, r);
    hide CountIn, At, Occurs;
    forall q | q in names
      ensures Occurs(counted[n] + [r], q) == Occurs(counted[n], q)
    {
      OccursAppend(counted[n], r, q);
    }
  }

  lemma AtUpdate(dependents: map<string, seq<string>>, r: string, row: seq<string>)
    ensures forall q :: At(dependents[r := row], q) == if q == r then row else At(dependents, q)
  {
    var next := dependents[r := row];
    forall q
      ensures At(next, q) == if q == r then row else At(dependents, q)
    {
      assert q in next <==> q == r || q in dependents;
    }
  }

  lemma TableInside(names: set<string>, counted: map<string, seq<string>>, dependents: map<string, seq<string>>,
                    n: string, r: string)
    requires TableFor(names, counted, dependents) && n in names && r in names
    ensures TableFor(names, counted[n := counted[n] + [r]], dependents[r := At(dependents, r) + [n]])
  {
    hide At, Occurs;
    var was := At(dependents, r);
    var next := dependents[r := was + [n]];
    var after := counted[n := counted[n] + [r]];
    AtUpdate(dependents, r, was + [n]);
    forall q, m | q in names && m in names
      ensures Occurs(At(next, q), m) == Occurs(after[m], q)
    {
      OccursAppend(was, n, m);
      OccursAppend(counted[n], r, q);
      assert Occurs(At(dependents, q), m) == Occurs(counted[m], q);
    }
    forall q, m | m in At(next, q)
      ensures m in names
    {
      assert m == n || m in At(dependents, q);
    }
  }

  lemma EdgeInside(names: set<string>, counted: map<string, seq<string>>, indeg: map<string, int>,
                   dependents: map<string, seq<string>>, n: string, r: string)
    requires EdgesFor(names, counted, indeg, dependents) && n in names && r in names
    ensures EdgesFor(names, counted[n := counted[n] + [r]], indeg[n := indeg[n] + 1],
                     dependents[r := At(dependents, r) + [n]])
  {
    CountAppend(counted[n], names, r);
    TableInside(names, counted, dependents, n, r);
    hide CountIn, At, TableFor, Occurs;
  }

  lemma NoEdges(names: set<string>, counted: map<string, seq<string>>, indeg: map<string, int>)
    requires indeg.Keys == counted.Keys == names
    requires forall m :: m in indeg ==> indeg[m] == 0 && counted[m] == []
    ensures EdgesFor(names, counted, indeg, map[])
  {
  }

  lemma EdgesKeys(names: set<string>, counted: map<string, seq<string>>, indeg: map<string, int>,
                  dependents: map<string, seq<string>>)
    requires EdgesFor(names, counted, indeg, dependents)
    ensures indeg.Keys == counted.Keys == names
  {
  }

  lemma PrefixStep(names: seq<string>, i: nat)
    requires Distinct(names) && i < |names|
    ensures names[i] in Elements(names) && names[i] !in names[..i]
    ensures forall m :: m in names[..i + 1] <==> m in names[..i] || m == names[i]
    ensures forall m :: m in names[..|names|] <==> m in Elements(names)
  {
    assert names[..i + 1] == names[..i] + [names[i]];
    assert names[..|names|] == names;
  }

  /** One package's requirements, each occurrence counted. */
  method CountNeeds(ghost names: set<string>, inSet: set<string>, ghost counted: map<string, seq<string>>,
                    degrees: map<string, int>, table: map<string, seq<string>>, n: string, reqs: seq<string>)
    returns (indeg: map<string, int>, dependents: map<string, seq<string>>)
    requires inSet == names && n in names
    requires EdgesFor(names, counted, degrees, table) && counted[n] == []
    ensures EdgesFor(names, counted[n := reqs], indeg, dependents)
  {
    hide EdgesFor, CountIn, At;
    EdgesKeys(names, counted, degrees, table);
    indeg, dependents := degrees, table;
    ghost var sofar := counted;
    for k := 0 to |reqs|
      invariant sofar == counted[n := reqs[..k]]
      invariant EdgesFor(names, sofar, indeg, dependents)
    {
      EdgesKeys(names, sofar, indeg, dependents);
      assert reqs[..k + 1] == reqs[..k] + [reqs[k]];
      if reqs[k] in inSet {
        EdgeInside(names, sofar, indeg, dependents, n, reqs[k]);
        indeg := indeg[n := indeg[n] + 1];
        dependents := dependents[reqs[k] := At(dependents, reqs[k]) + [n]];
      } else {
        EdgeOutside(names, sofar, indeg, dependents, n, reqs[k]);
      }
      sofar := sofar[n := sofar[n] + [reqs[k]]];
    }
    assert reqs[..|reqs|] == reqs;
  }

  function Restricted(needs: map<string, seq<string>>, names: set<string>): map<string, seq<string>> {
    map n | n in names :: At(needs, n)
  }

  /** The counting loops: in-degrees and dependents, duplicate and self edges included. */
  method CountEdges(c: Catalog, names: seq<string>) returns (indeg: map<string, int>, dependents: map<string, seq<string>>)
    requires Distinct(names) && Elements(names) <= c.pkgIdx.Keys
    ensures EdgesFor(Elements(names), Restricted(ViewOf(c).needs, Elements(names)), indeg, dependents)
  {
    ghost var all := Elements(names);
    var inSet: set<string> := {};
    indeg := map[];
    ghost var counted: map<string, seq<string>> := map[];
    for i := 0 to |names|
      invariant inSet == Elements(names[..i]) == indeg.Keys == counted.Keys
      invariant forall m :: m in indeg ==> indeg[m] == 0 && counted[m] == []
    {
      assert names[..i + 1] == names[..i] + [names[i]];
      inSet := inSet + {names[i]};
      indeg := indeg[names[i] := 0];
      counted := counted[names[i] := []];
    }
    assert names[..|names|] == names;
    NoEdges(all, counted, indeg);
    indeg, dependents := CountAll(c, names, inSet, counted, indeg);
  }

  method CountAll(c: Catalog, names: seq<string>, inSet: set<string>, ghost none: map<string, seq<string>>,
                  zeros: map<string, int>)
    returns (indeg: map<string, int>, dependents: map<string, seq<string>>)
    requires Distinct(names) && Elements(names) <= c.pkgIdx.Keys && inSet == Elements(names)
    requires EdgesFor(inSet, none, zeros, map[]) && forall m :: m in inSet ==> none[m] == []
    ensures EdgesFor(inSet, Restricted(ViewOf(c).needs, inSet), indeg, dependents)
  {
    hide EdgesFor, CountIn, Distinct, Elements;
    EdgesKeys(inSet, none, zeros, map[]);
    ghost var full := Restricted(ViewOf(c).needs, inSet);
    assert forall m :: m in inSet ==> full[m] == c.pkgIdx[m].needs;
    hide ViewOf, Restricted;
    indeg, dependents := zeros, map[];
    ghost var counted := none;
    for i := 0 to |names|
      invariant counted.Keys == inSet
      invariant EdgesFor(inSet, counted, indeg, dependents)
      invariant forall m :: m in inSet ==> counted[m] == if m in names[..i] then full[m] else []
    {
      PrefixStep(names, i);
      var reqs := c.pkgIdx[names[i]].needs;
      indeg, dependents := CountNeeds(inSet, inSet, counted, indeg, dependents, names[i], reqs);
      counted := counted[names[i] := reqs];
    }
    AllCounted(names, counted, full);
  }

  lemma AllCounted(names: seq<string>, counted: map<string, seq<string>>, full: map<string, seq<string>>)
    requires counted.Keys == full.Keys == Elements(names)
    requires forall m :: m in full ==> counted[m] == if m in names[..|names|] then full[m] else []
    ensures counted == full
  {
    assert names[..|names|] == names;
  }

  // ---------------------------------------------------------------------------------------------
  // Releasing the dependents of a placed name

  /** The inner decrement loop. */
  method Release(freed: seq<string>, counts: map<string, int>, waiting: seq<string>)
    returns (indeg: map<string, int>, ready: seq<string>)
    requires forall m :: m in freed ==> m in counts && m !in waiting
    requires forall m :: m in counts ==> multiset(freed)[m] <= counts[m]
    requires Distinct(waiting) && Sorted(waiting)
    ensures indeg.Keys == counts.Keys
    ensures forall m :: m in counts ==> indeg[m] == counts[m] - multiset(freed)[m]
    ensures Distinct(ready) && Sorted(ready)
    ensures forall x :: x in ready <==> x in waiting || (x in freed && indeg[x] == 0)
  {
    indeg, ready := counts, waiting;
    var grew := false;
    for j := 0 to |freed|
      invariant indeg.Keys == counts.Keys
      invariant forall m :: m in counts ==> indeg[m] == counts[m] - multiset(freed[..j])[m]
      invariant Distinct(ready) && (!grew ==> ready == waiting)
      invariant forall x :: x in ready <==> x in waiting || (x in freed[..j] && indeg[x] == 0)
    {
      var m := freed[j];
      assert freed[..j + 1] == freed[..j] + [m];
      assert freed == freed[..j + 1] + freed[j + 1..];
      indeg := indeg[m := indeg[m] - 1];
      if indeg[m] == 0 {
        ready := ready + [m];
        grew := true;
      }
    }
    assert freed[..|freed|] == freed;
    if grew {
      SortKeeps(ready);
      ready := Sort(ready);
    }
  }

  lemma SortKeeps(s: seq<string>)
    ensures Elements(Sort(s)) == Elements(s) && (forall x :: x in Sort(s) <==> x in s)
    ensures Distinct(s) ==> Distinct(Sort(s))
  {
    SameElements(s, Sort(s));
    assert forall x :: x in s <==> x in Elements(s);
    assert forall x :: x in Sort(s) <==> x in Elements(Sort(s));
  }

  // ---------------------------------------------------------------------------------------------
  // The main loop

  /** In-degrees count the unplaced requirements. */
  ghost predicate Degrees(needs: map<string, seq<string>>, names: set<string>, placed: set<string>, indeg: map<string, int>) {
    indeg.Keys == names && forall m :: m in names ==> indeg[m] == CountIn(At(needs, m), names - placed)
  }

  ghost predicate ReadyList(needs: map<string, seq<string>>, names: set<string>, placed: set<string>, ready: seq<string>) {
    Sorted(ready) && Distinct(ready) && forall x :: x in ready <==> Ready(Requires(needs), names, placed, x)
  }

  lemma ReadyIffZero(needs: map<string, seq<string>>, names: set<string>, placed: set<string>, x: string)
    ensures Ready(Requires(needs), names, placed, x)
            <==> x in names && x !in placed && CountIn(At(needs, x), names - placed) == 0
  {
    CountZero(At(needs, x), names - placed);
  }

  /** A placed name's requirements inside the set are placed. */
  lemma PlacedNeeds(e: Relation, names: set<string>, order: seq<string>, x: string, y: string)
    requires Ordered(e, names, order) && x in order && y in names && e(x, y)
    ensures y in order
  {
    var i :| 0 <= i < |order| && order[i] == x;
    assert Ready(e, names, Elements(order[..i]), order[i]);
    assert y in order[..i];
  }

  /** What freeing n means: its dependents are unplaced, not yet ready, and counted high enough. */
  lemma FreedFacts(needs: map<string, seq<string>>, names: set<string>, placed: set<string>, indeg: map<string, int>,
                   freed: seq<string>, n: string, m: string)
    requires Degrees(needs, names, placed, indeg) && n in names && n !in placed && m in names
    requires Occurs(freed, m) == Occurs(At(needs, m), n)
    ensures indeg[m] - Occurs(freed, m) == CountIn(At(needs, m), names - (placed + {n}))
    ensures Occurs(freed, m) > 0 ==> !Ready(Requires(needs), names, placed, m)
    ensures m in freed <==> n in At(needs, m)
  {
    CountRemove(At(needs, m), names - placed, n);
    assert names - placed - {n} == names - (placed + {n});
    ReadyIffZero(needs, names, placed, m);
  }

  lemma ReadyAfter(needs: map<string, seq<string>>, names: set<string>, order: seq<string>, indeg: map<string, int>,
                   freed: seq<string>, n: string, x: string)
    requires Ordered(Requires(needs), names, order) && Degrees(needs, names, Elements(order), indeg)
    requires Ready(Requires(needs), names, Elements(order), n)
    requires forall m :: m in names ==> Occurs(freed, m) == Occurs(At(needs, m), n)
    requires forall m :: m in freed ==> m in names
    ensures Ready(Requires(needs), names, Elements(order) + {n}, x)
            <==> (x != n && Ready(Requires(needs), names, Elements(order), x))
                 || (x in freed && indeg[x] - Occurs(freed, x) == 0)
  {
    var placed := Elements(order);
    ReadyIffZero(needs, names, placed + {n}, x);
    ReadyIffZero(needs, names, placed, x);
    ReadyIffZero(needs, names, placed, n);
    if x in names {
      FreedFacts(needs, names, placed, indeg, freed, n, x);
      FreedFacts(needs, names, placed, indeg, freed, n, n);
      CountRemove(At(needs, x), names - placed, n);
      if x in order && n in At(needs, x) {
        PlacedNeeds(Requires(needs), names, order, x, n);
      }
    }
  }

  lemma OrderedExtends(e: Relation, names: set<string>, order: seq<string>, ready: seq<string>)
    requires Ordered(e, names, order) && Greedy(e, names, order) && ready != []
    requires Sorted(ready) && forall x :: x in ready <==> Ready(e, names, Elements(order), x)
    ensures Ordered(e, names, order + [ready[0]]) && Greedy(e, names, order + [ready[0]])
    ensures Elements(order + [ready[0]]) == Elements(order) + {ready[0]}
  {
    var n := ready[0];
    var next := order + [n];
    hide Ready;
    forall i | 0 <= i < |next|
      ensures Ready(e, names, Elements(next[..i]), next[i])
      ensures next[..i] == order[..i]
    {
      assert next[..i] == order[..i];
      if i == |order| {
        assert order[..i] == order && n in ready;
      }
    }
    forall i, y | 0 <= i < |next| && Ready(e, names, Elements(next[..i]), y)
      ensures Le(next[i], y)
    {
      if i == |order| {
        assert order[..i] == order && y in ready;
        LeTotal(n, n);
      }
    }
  }

  ghost predicate Progress(needs: map<string, seq<string>>, names: set<string>, order: seq<string>,
                           indeg: map<string, int>, ready: seq<string>)
  {
    && Ordered(Requires(needs), names, order) && Greedy(Requires(needs), names, order)
    && Degrees(needs, names, Elements(order), indeg) && ReadyList(needs, names, Elements(order), ready)
  }

  lemma BeforeRelease(needs: map<string, seq<string>>, names: set<string>, dependents: map<string, seq<string>>,
                      order: seq<string>, indeg: map<string, int>, ready: seq<string>)
    requires TableFor(names, Restricted(needs, names), dependents) && ready != []
    requires Progress(needs, names, order, indeg, ready)
    ensures var freed := At(dependents, ready[0]);
            && (forall m :: m in freed ==> m in indeg && m !in ready[1..])
            && (forall m :: m in indeg ==> multiset(freed)[m] <= indeg[m])
    ensures Distinct(ready[1..]) && Sorted(ready[1..])
  {
    hide Ordered, Greedy, CountIn;
    var n := ready[0];
    assert n in ready && ready == [n] + ready[1..];
    var freed := At(dependents, n);
    forall m | m in names
      ensures Occurs(freed, m) <= indeg[m] && (m in freed ==> m !in ready[1..])
    {
      assert Occurs(freed, m) == Occurs(At(needs, m), n);
      FreedFacts(needs, names, Elements(order), indeg, freed, n, m);
    }
  }

  lemma DegreesAfter(needs: map<string, seq<string>>, names: set<string>, dependents: map<string, seq<string>>,
                     placed: set<string>, was: map<string, int>, n: string, indeg: map<string, int>)
    requires TableFor(names, Restricted(needs, names), dependents) && Degrees(needs, names, placed, was)
    requires n in names && n !in placed && indeg.Keys == was.Keys
    requires forall m :: m in was ==> indeg[m] == was[m] - Occurs(At(dependents, n), m)
    ensures Degrees(needs, names, placed + {n}, indeg)
    ensures forall m :: m in names ==> Occurs(At(dependents, n), m) == Occurs(At(needs, m), n)
    ensures forall m :: m in At(dependents, n) ==> m in names
  {
    hide CountIn, Occurs, At;
    forall m | m in names
      ensures Occurs(At(dependents, n), m) == Occurs(At(needs, m), n)
      ensures indeg[m] == CountIn(At(needs, m), names - (placed + {n}))
    {
      assert Restricted(needs, names)[m] == At(needs, m);
      FreedFacts(needs, names, placed, was, At(dependents, n), n, m);
    }
  }

  lemma ReadyListAfter(needs: map<string, seq<string>>, names: set<string>, order: seq<string>, was: map<string, int>,
                       freed: seq<string>, waiting: seq<string>, indeg: map<string, int>, ready: seq<string>)
    requires waiting != [] && Progress(needs, names, order, was, waiting)
    requires forall m :: m in names ==> Occurs(freed, m) == Occurs(At(needs, m), waiting[0])
    requires forall m :: m in freed ==> m in names
    requires indeg.Keys == was.Keys && forall m :: m in was ==> indeg[m] == was[m] - Occurs(freed, m)
    requires Distinct(ready) && Sorted(ready)
    requires forall x :: x in ready <==> x in waiting[1..] || (x in freed && indeg[x] == 0)
    ensures ReadyList(needs, names, Elements(order) + {waiting[0]}, ready)
  {
    hide CountIn, Ordered, Greedy, Occurs, At, Elements, Ready;
    var n := waiting[0];
    assert n in waiting && waiting == [n] + waiting[1..];
    assert Ready(Requires(needs), names, Elements(order), n);
    forall x
      ensures x in ready <==> Ready(Requires(needs), names, Elements(order) + {n}, x)
    {
      ReadyAfter(needs, names, order, was, freed, n, x);
    }
  }

  lemma AfterRelease(needs: map<string, seq<string>>, names: set<string>, dependents: map<string, seq<string>>,
                     order: seq<string>, was: map<string, int>, waiting: seq<string>,
                     indeg: map<string, int>, ready: seq<string>)
    requires TableFor(names, Restricted(needs, names), dependents) && waiting != []
    requires Progress(needs, names, order, was, waiting)
    requires indeg.Keys == was.Keys && Distinct(ready) && Sorted(ready)
    requires forall m :: m in was ==> indeg[m] == was[m] - multiset(At(dependents, waiting[0]))[m]
    requires forall x :: x in ready <==> x in waiting[1..] || (x in At(dependents, waiting[0]) && indeg[x] == 0)
    ensures Progress(needs, names, order + [waiting[0]], indeg, ready)
  {
    var n := waiting[0];
    assert n in waiting;
    assert Ready(Requires(needs), names, Elements(order), n);
    var freed := At(dependents, n);
    assert forall m :: m in was ==> indeg[m] == was[m] - Occurs(freed, m);
    hide CountIn, Occurs, At, Elements, Restricted, TableFor, Degrees, Ordered, Greedy;
    OrderedExtends(Requires(needs), names, order, waiting);
    DegreesAfter(needs, names, dependents, Elements(order), was, n, indeg);
    ReadyListAfter(needs, names, order, was, freed, waiting, indeg, ready);
  }

  datatype OrderResult = Order(names: seq<string>) | Cycle(stuck: seq<string>)

  /** Catalog.topo: the first topological order in dictionary order, or exactly the names caught above a cycle. */
  method Topo(c: Catalog, names: seq<string>) returns (r: OrderResult)
    requires Distinct(names) && Elements(names) <= c.pkgIdx.Keys
    ensures r.Order? <==> Acyclic(Requires(ViewOf(c).needs), Elements(names))
    ensures r.Order? ==> IsLeastTopological(Requires(ViewOf(c).needs), Elements(names), r.names)
    ensures r.Cycle? ==> r.stuck != [] && Sorted(r.stuck) && Distinct(r.stuck)
    ensures r.Cycle? ==> forall x :: x in r.stuck <==>
                           x in names && ReachesCycle(Within(Requires(ViewOf(c).needs), Elements(names)), x)
  {
    ghost var needs, all := ViewOf(c).needs, Elements(names);
    var indeg, dependents := CountEdges(c, names);
    assert TableFor(all, Restricted(needs, all), dependents);
    var ready := InitialReady(c, names, indeg, dependents);
    var order: seq<string> := [];
    hide TableFor, Progress, Distinct, Elements, ViewOf;
    while |ready| > 0
      invariant Progress(needs, all, order, indeg, ready)
      decreases |names| - |order|
    {
      ProgressBounded(needs, names, order, indeg, ready);
      ghost var was, waiting := indeg, ready;
      var n := ready[0];
      BeforeRelease(needs, all, dependents, order, indeg, ready);
      indeg, ready := Release(At(dependents, n), indeg, ready[1..]);
      AfterRelease(needs, all, dependents, order, was, waiting, indeg, ready);
      order := order + [n];
    }
    Finished(needs, names, order, indeg, ready);
    if |order| != |names| {
      var stuck := Leftover(names, order);
      return Cycle(stuck);
    }
    return Order(order);
  }

  /** The names without unplaced requirements, sorted. */
  method InitialReady(c: Catalog, names: seq<string>, indeg: map<string, int>, ghost dependents: map<string, seq<string>>)
    returns (ready: seq<string>)
    requires Distinct(names) && Elements(names) <= c.pkgIdx.Keys
    requires EdgesFor(Elements(names), Restricted(ViewOf(c).needs, Elements(names)), indeg, dependents)
    ensures Progress(ViewOf(c).needs, Elements(names), [], indeg, ready)
  {
    ready := [];
    for i := 0 to |names|
      invariant Distinct(ready)
      invariant forall x :: x in ready <==> x in names[..i] && indeg[x] == 0
    {
      hide CountIn;
      PrefixStep(names, i);
      if indeg[names[i]] == 0 {
        ready := ready + [names[i]];
      }
    }
    assert names[..|names|] == names;
    SortKeeps(ready);
    ready := Sort(ready);
    StartsReady(ViewOf(c).needs, names, indeg, dependents, ready);
  }

  lemma StartsReady(needs: map<string, seq<string>>, names: seq<string>, indeg: map<string, int>,
                    dependents: map<string, seq<string>>, ready: seq<string>)
    requires EdgesFor(Elements(names), Restricted(needs, Elements(names)), indeg, dependents)
    requires Sorted(ready) && Distinct(ready) && forall x :: x in ready <==> x in names && indeg[x] == 0
    ensures Progress(needs, Elements(names), [], indeg, ready)
  {
    var all := Elements(names);
    assert all - {} == all && Elements([]) == {};
    forall x
      ensures x in ready <==> Ready(Requires(needs), all, {}, x)
    {
      ReadyIffZero(needs, all, {}, x);
    }
  }

  lemma ProgressBounded(needs: map<string, seq<string>>, names: seq<string>, order: seq<string>,
                        indeg: map<string, int>, ready: seq<string>)
    requires Progress(needs, Elements(names), order, indeg, ready) && ready != []
    ensures |order| < |names|
  {
    OrderedDistinct(Requires(needs), Elements(names), order);
    assert ready[0] in ready;
    assert Ready(Requires(needs), Elements(names), Elements(order), ready[0]);
    DistinctBounded(order, Elements(names) - {ready[0]});
    ElementsBounded(names);
  }

  lemma {:induction false} ElementsBounded(names: seq<string>)
    ensures |Elements(names)| <= |names|
  {
    if names == [] {
      assert Elements(names) == {};
    } else {
      var front := names[..|names| - 1];
      ElementsBounded(front);
      assert Elements(names) == Elements(front) + {names[|names| - 1]};
    }
  }

  lemma Finished(needs: map<string, seq<string>>, names: seq<string>, order: seq<string>, indeg: map<string, int>,
                 ready: seq<string>)
    requires Distinct(names) && Progress(needs, Elements(names), order, indeg, ready) && ready == []
    ensures |order| == |names| <==> Acyclic(Requires(needs), Elements(names))
    ensures |order| == |names| ==> IsLeastTopological(Requires(needs), Elements(names), order)
    ensures forall x :: x in names ==>
                          (x !in order <==> ReachesCycle(Within(Requires(needs), Elements(names)), x))
    ensures Distinct(order) && Elements(order) <= Elements(names)
  {
    var e, all := Requires(needs), Elements(names);
    OrderedDistinct(e, all, order);
    assert forall x :: !Ready(e, all, Elements(order), x);
    StuckReachesCycle(e, all, order);
    TopologicalIffAcyclic(e, all, order);
    SameSize(order, names);
    if |order| == |names| {
      GreedyIsLeast(e, all, order);
    }
  }

  lemma SameSize(order: seq<string>, names: seq<string>)
    requires Distinct(order) && Distinct(names) && Elements(order) <= Elements(names)
    ensures |order| == |names| <==> Elements(order) == Elements(names)
  {
    DistinctBounded(order, Elements(names));
    DistinctBounded(names, Elements(names));
    if |order| == |names| {
      SubsetOfSameSize(Elements(order), Elements(names));
    }
  }

  lemma SubsetOfSameSize(a: set<string>, b: set<string>)
    requires a <= b && |a| == |b|
    ensures a == b
  {
    assert |b - a| == |b| - |a|;
  }

  /** The names that were never placed, sorted. */
  method Leftover(names: seq<string>, order: seq<string>) returns (stuck: seq<string>)
    requires Distinct(names)
    ensures Sorted(stuck) && Distinct(stuck)
    ensures forall x :: x in stuck <==> x in names && x !in order
  {
    var done: set<string> := {};
    for i := 0 to |order|
      invariant done == Elements(order[..i])
    {
      assert order[..i + 1] == order[..i] + [order[i]];
      done := done + {order[i]};
    }
    assert order[..|order|] == order;
    stuck := [];
    for i := 0 to |names|
      invariant Distinct(stuck)
      invariant forall x :: x in stuck <==> x in names[..i] && x !in order
    {
      PrefixStep(names, i);
      assert names[i] in done <==> names[i] in order;
      if names[i] !in done {
        stuck := stuck + [names[i]];
      }
    }
    assert names[..|names|] == names;
    SortKeeps(stuck);
    stuck := Sort(stuck);
  }
}
