/** Dependency relations: reachability, greedy topological orders and cycles. The relation reads
    "x requires y"; nothing here depends on how the catalog stores it. */
module DependencyGraph {
  import opened Names

  type Relation = (string, string) -> bool

  // ---------------------------------------------------------------------------------------------
  // Reachability

  ghost predicate IsWalk(e: Relation, p: seq<string>) {
    |p| > 0 && (|p| == 1 || (e(p[0], p[1]) && IsWalk(e, p[1..])))
  }

  ghost predicate Walks(e: Relation, p: seq<string>, a: string, b: string) {
    |p| > 0 && IsWalk(e, p) && p[0] == a && p[|p| - 1] == b
  }

  ghost predicate Reaches(e: Relation, a: string, b: string) {
    exists p :: Walks(e, p, a, b)
  }

  lemma ReachesSelf(e: Relation, a: string)
    ensures Reaches(e, a, a)
  {
    assert Walks(e, [a], a, a);
  }

  lemma {:induction false} WalkJoin(e: Relation, p: seq<string>, q: seq<string>)
    requires IsWalk(e, p) && IsWalk(e, q) && p[|p| - 1] == q[0]
    ensures IsWalk(e, p + q[1..])
  {
    if |p| == 1 {
      assert p + q[1..] == q;
    } else {
      WalkJoin(e, p[1..], q);
      assert (p + q[1..])[1..] == p[1..] + q[1..];
    }
  }

  lemma ReachesTransitive(e: Relation, a: string, b: string, c: string)
    requires Reaches(e, a, b) && Reaches(e, b, c)
    ensures Reaches(e, a, c)
  {
    var p :| Walks(e, p, a, b);
    var q :| Walks(e, q, b, c);
    WalkJoin(e, p, q);
    assert Walks(e, p + q[1..], a, c);
  }

  lemma ReachesStep(e: Relation, a: string, b: string, c: string)
    requires Reaches(e, a, b) && e(b, c)
    ensures Reaches(e, a, c)
  {
    assert Walks(e, [b, c], b, c) by { assert IsWalk(e, [b, c][1..]); }
    ReachesTransitive(e, a, b, c);
  }

  ghost predicate ReachedFrom(e: Relation, seeds: seq<string>, x: string) {
    exists s :: s in seeds && Reaches(e, s, x)
  }

  ghost predicate Closed(e: Relation, t: iset<string>) {
    forall x, y :: x in t && e(x, y) ==> y in t
  }

  lemma {:induction false} WalkStaysInside(e: Relation, t: iset<string>, p: seq<string>)
    requires Closed(e, t) && IsWalk(e, p) && p[0] in t
    ensures p[|p| - 1] in t
  {
    if |p| == 1 {
    } else {
      WalkStaysInside(e, t, p[1..]);
    }
  }

  /** What is reached from the seeds is the least set that holds the seeds and is closed under the relation. */
  lemma ReachedIsLeastClosed(e: Relation, seeds: seq<string>)
    ensures var r := iset x | ReachedFrom(e, seeds, x);
            && Closed(e, r) && (forall s :: s in seeds ==> s in r)
            && forall t: iset<string> :: Closed(e, t) && (forall s :: s in seeds ==> s in t) ==> r <= t
  {
    var r := iset x | ReachedFrom(e, seeds, x);
    forall x, y | x in r && e(x, y)
      ensures y in r
    {
      var s :| s in seeds && Reaches(e, s, x);
      ReachesStep(e, s, x, y);
    }
    forall s | s in seeds
      ensures s in r
    {
      ReachesSelf(e, s);
    }
    forall t: iset<string>, x | Closed(e, t) && (forall s :: s in seeds ==> s in t) && x in r
      ensures x in t
    {
      var s :| s in seeds && Reaches(e, s, x);
      var p :| Walks(e, p, s, x);
      WalkStaysInside(e, t, p);
    }
  }

  // ---------------------------------------------------------------------------------------------
  // Topological orders of a finite set of names; edges that leave the set are ignored

  /** Everything x requires inside the set is already placed, and x is not. */
  ghost predicate Ready(e: Relation, names: set<string>, placed: set<string>, x: string) {
    x in names && x !in placed && forall y :: y in names && e(x, y) ==> y in placed
  }

  ghost predicate Ordered(e: Relation, names: set<string>, order: seq<string>) {
    forall i :: 0 <= i < |order| ==> Ready(e, names, Elements(order[..i]), order[i])
  }

  ghost predicate IsTopological(e: Relation, names: set<string>, order: seq<string>) {
    Ordered(e, names, order) && Elements(order) == names
  }

  /** Each step places the least ready name. */
  ghost predicate Greedy(e: Relation, names: set<string>, order: seq<string>) {
    forall i, y :: 0 <= i < |order| && Ready(e, names, Elements(order[..i]), y) ==> Le(order[i], y)
  }

  ghost predicate IsLeastTopological(e: Relation, names: set<string>, order: seq<string>) {
    && IsTopological(e, names, order)
    && forall other :: IsTopological(e, names, other) ==> LexLe(order, other)
  }

  lemma {:induction false} GreedyLeastFrom(e: Relation, names: set<string>, order: seq<string>, other: seq<string>, k: nat)
    requires IsTopological(e, names, order) && Greedy(e, names, order) && IsTopological(e, names, other)
    requires k <= |order| && k <= |other| && order[..k] == other[..k]
    ensures LexLe(order[k..], other[k..])
    decreases |order| - k
  {
    if k == |order| {
    } else {
      assert Ready(e, names, Elements(order[..k]), order[k]);
      assert other[..|other|] == other;
      if k < |other| {
        assert Ready(e, names, Elements(other[..k]), other[k]);
        assert Le(order[k], other[k]);
        if order[k] == other[k] {
          assert order[..k + 1] == order[..k] + [order[k]] && other[..k + 1] == other[..k] + [other[k]];
          GreedyLeastFrom(e, names, order, other, k + 1);
          assert order[k..][1..] == order[k + 1..] && other[k..][1..] == other[k + 1..];
        }
      }
    }
  }

  /** The greedy order comes first in dictionary order among all topological orders. */
  lemma GreedyIsLeast(e: Relation, names: set<string>, order: seq<string>)
    requires IsTopological(e, names, order) && Greedy(e, names, order)
    ensures IsLeastTopological(e, names, order)
  {
    forall other | IsTopological(e, names, other)
      ensures LexLe(order, other)
    {
      GreedyLeastFrom(e, names, order, other, 0);
      assert order[0..] == order && other[0..] == other;
    }
  }

  lemma LeastTopologicalUnique(e: Relation, names: set<string>, a: seq<string>, b: seq<string>)
    requires IsLeastTopological(e, names, a) && IsLeastTopological(e, names, b)
    ensures a == b
  {
    LexAntisymmetric(a, b);
  }

  lemma OrderedDistinct(e: Relation, names: set<string>, order: seq<string>)
    requires Ordered(e, names, order)
    ensures Distinct(order) && Elements(order) <= names
  {
    forall i, j | 0 <= i < j < |order|
      ensures order[i] != order[j]
    {
      assert Ready(e, names, Elements(order[..j]), order[j]);
      assert order[..j][i] in Elements(order[..j]);
    }
    forall x | x in Elements(order)
      ensures x in names
    {
      var i :| 0 <= i < |order| && order[i] == x;
      assert Ready(e, names, Elements(order[..i]), order[i]);
    }
  }

  // ---------------------------------------------------------------------------------------------
  // Cycles

  function Within(e: Relation, names: set<string>): Relation {
    (x, y) => x in names && y in names && e(x, y)
  }

  ghost predicate OnCycle(e: Relation, x: string) {
    exists y :: e(x, y) && Reaches(e, y, x)
  }

  ghost predicate ReachesCycle(e: Relation, x: string) {
    exists y :: Reaches(e, x, y) && OnCycle(e, y)
  }

  /** A walk from a placed name only visits names placed no later. */
  lemma {:induction false} WalkGoesDown(e: Relation, names: set<string>, order: seq<string>, i: nat, p: seq<string>)
    returns (j: nat)
    requires Ordered(e, names, order) && i < |order|
    requires |p| > 0 && IsWalk(Within(e, names), p) && p[0] == order[i]
    ensures j <= i && order[j] == p[|p| - 1]
    ensures |p| > 1 ==> j < i
  {
    if |p| == 1 {
      j := i;
    } else {
      assert Ready(e, names, Elements(order[..i]), order[i]);
      assert p[1] in Elements(order[..i]);
      var k :| 0 <= k < i && order[..i][k] == p[1];
      j := WalkGoesDown(e, names, order, k, p[1..]);
    }
  }

  lemma WalkPrepend(e: Relation, x: string, p: seq<string>)
    requires |p| > 0 && IsWalk(e, p) && e(x, p[0])
    ensures IsWalk(e, [x] + p)
  {
    assert ([x] + p)[1..] == p;
  }

  lemma PlacedNotOnCycle(e: Relation, names: set<string>, order: seq<string>, i: nat)
    requires Ordered(e, names, order) && i < |order|
    ensures !OnCycle(Within(e, names), order[i])
  {
    hide IsWalk, Ordered;
    var g := Within(e, names);
    var x := order[i];
    if OnCycle(g, x) {
      OrderedDistinct(e, names, order);
      var y :| g(x, y) && Reaches(g, y, x);
      var p :| Walks(g, p, y, x);
      WalkPrepend(g, x, p);
      var j := WalkGoesDown(e, names, order, i, [x] + p);
    }
  }

  lemma PlacedAvoidsCycles(e: Relation, names: set<string>, order: seq<string>, i: nat)
    requires Ordered(e, names, order) && i < |order|
    ensures !ReachesCycle(Within(e, names), order[i])
  {
    hide IsWalk, Ordered, OnCycle;
    var g := Within(e, names);
    forall y | Reaches(g, order[i], y)
      ensures !OnCycle(g, y)
    {
      var p :| Walks(g, p, order[i], y);
      var j := WalkGoesDown(e, names, order, i, p);
      PlacedNotOnCycle(e, names, order, j);
    }
  }

  lemma {:induction false} WalkSuffix(e: Relation, p: seq<string>, k: nat)
    requires IsWalk(e, p) && k < |p|
    ensures IsWalk(e, p[k..])
  {
    if k == 0 {
      assert p[0..] == p;
    } else {
      WalkSuffix(e, p[1..], k - 1);
      assert p[1..][k - 1..] == p[k..];
    }
  }

  lemma ClosingStep(g: Relation, p: seq<string>, y: string)
    requires IsWalk(g, p) && y in p && g(p[|p| - 1], y)
    ensures ReachesCycle(g, p[0])
  {
    var last := p[|p| - 1];
    assert Walks(g, p, p[0], last);
    var k :| 0 <= k < |p| && p[k] == y;
    WalkSuffix(g, p, k);
    assert Walks(g, p[k..], y, last);
    assert OnCycle(g, last);
  }

  lemma WalkExtend(g: Relation, p: seq<string>, y: string)
    requires IsWalk(g, p) && g(p[|p| - 1], y)
    ensures IsWalk(g, p + [y])
  {
    var step := [p[|p| - 1], y];
    assert step[1..] == [y];
    WalkJoin(g, p, step);
  }

  lemma ExtendDistinct(p: seq<string>, y: string, stuck: set<string>)
    requires Distinct(p) && Elements(p) <= stuck && y in stuck && y !in p
    ensures Distinct(p + [y]) && Elements(p + [y]) <= stuck && |p| < |stuck|
  {
    assert Elements(p + [y]) == Elements(p) + {y};
    DistinctBounded(p + [y], stuck);
  }

  ghost predicate HasSuccessor(g: Relation, stuck: set<string>, x: string) {
    exists y :: y in stuck && g(x, y)
  }

  ghost predicate NoSink(g: Relation, stuck: set<string>) {
    forall x :: x in stuck ==> HasSuccessor(g, stuck, x)
  }

  lemma Successor(g: Relation, stuck: set<string>, x: string) returns (y: string)
    requires HasSuccessor(g, stuck, x)
    ensures y in stuck && g(x, y)
  {
    y :| y in stuck && g(x, y);
  }

  /** In a finite set where every name has a successor in the set, every walk runs into a cycle. */
  lemma {:induction false} WalkFindsCycle(g: Relation, stuck: set<string>, p: seq<string>)
    requires |p| > 0 && IsWalk(g, p) && Distinct(p) && Elements(p) <= stuck
    requires NoSink(g, stuck)
    ensures ReachesCycle(g, p[0])
    decreases |stuck| - |p|
  {
    assert p[|p| - 1] in Elements(p);
    hide IsWalk, ReachesCycle, Distinct, Elements, HasSuccessor;
    var y := Successor(g, stuck, p[|p| - 1]);
    if y in p {
      ClosingStep(g, p, y);
    } else {
      WalkExtend(g, p, y);
      ExtendDistinct(p, y, stuck);
      WalkFindsCycle(g, stuck, p + [y]);
    }
  }

  /** When nothing is ready, the names left over are exactly those from which a cycle is reached. */
  lemma StuckReachesCycle(e: Relation, names: set<string>, order: seq<string>)
    requires Ordered(e, names, order)
    requires forall x :: !Ready(e, names, Elements(order), x)
    ensures forall x :: x in names ==> (x !in order <==> ReachesCycle(Within(e, names), x))
  {
    var g := Within(e, names);
    var stuck := names - Elements(order);
    StuckHasNoSink(e, names, order);
    hide ReachesCycle, NoSink, HasSuccessor;
    forall x | x in names
      ensures x !in order <==> ReachesCycle(g, x)
    {
      if x in order {
        var i :| 0 <= i < |order| && order[i] == x;
        PlacedAvoidsCycles(e, names, order, i);
      } else {
        assert IsWalk(g, [x]) && Elements([x]) <= stuck;
        WalkFindsCycle(g, stuck, [x]);
      }
    }
  }

  lemma StuckHasNoSink(e: Relation, names: set<string>, order: seq<string>)
    requires forall x :: !Ready(e, names, Elements(order), x)
    ensures NoSink(Within(e, names), names - Elements(order))
  {
    forall x | x in names - Elements(order)
      ensures HasSuccessor(Within(e, names), names - Elements(order), x)
    {
      assert !Ready(e, names, Elements(order), x);
      var y :| y in names && e(x, y) && y !in Elements(order);
      assert Within(e, names)(x, y);
    }
  }

  ghost predicate Acyclic(e: Relation, names: set<string>) {
    forall x :: x in names ==> !OnCycle(Within(e, names), x)
  }

  lemma CycleIsReached(e: Relation, names: set<string>, x: string)
    ensures OnCycle(Within(e, names), x) ==> x in names && ReachesCycle(Within(e, names), x)
    ensures ReachesCycle(Within(e, names), x) ==> !Acyclic(e, names)
  {
    ReachesSelf(Within(e, names), x);
    if ReachesCycle(Within(e, names), x) {
      var y :| Reaches(Within(e, names), x, y) && OnCycle(Within(e, names), y);
      assert y in names;
    }
  }

  /** A topological order exists exactly when the restricted relation has no cycle. */
  lemma TopologicalIffAcyclic(e: Relation, names: set<string>, order: seq<string>)
    requires Ordered(e, names, order)
    requires forall x :: !Ready(e, names, Elements(order), x)
    ensures IsTopological(e, names, order) <==> Acyclic(e, names)
  {
    OrderedDistinct(e, names, order);
    StuckReachesCycle(e, names, order);
    forall x
      ensures OnCycle(Within(e, names), x) ==> x in names && ReachesCycle(Within(e, names), x)
      ensures ReachesCycle(Within(e, names), x) ==> !Acyclic(e, names)
    {
      CycleIsReached(e, names, x);
    }
  }
}
