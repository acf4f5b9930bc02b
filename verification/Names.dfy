/** Byte order on names, sorting, and the lexicographic order on lists of names (Go's string comparison
    and sort.Strings; code-point order and UTF-8 byte order agree). */
module Names {

  predicate Le(a: string, b: string) {
    a == "" || (b != "" && (a[0] < b[0] || (a[0] == b[0] && Le(a[1..], b[1..]))))
  }

  lemma {:induction false} LeTotal(a: string, b: string)
    ensures Le(a, b) || Le(b, a)
  {
    if a == "" || b == "" || a[0] != b[0] {
    } else {
      LeTotal(a[1..], b[1..]);
    }
  }

  lemma {:induction false} LeAntisymmetric(a: string, b: string)
    requires Le(a, b) && Le(b, a)
    ensures a == b
  {
    if a == "" || b == "" {
    } else {
      LeAntisymmetric(a[1..], b[1..]);
      assert a == [a[0]] + a[1..] && b == [b[0]] + b[1..];
    }
  }

  lemma {:induction false} LeTransitive(a: string, b: string, c: string)
    requires Le(a, b) && Le(b, c)
    ensures Le(a, c)
  {
    if a != "" && b != "" && c != "" && a[0] == b[0] == c[0] {
      LeTransitive(a[1..], b[1..], c[1..]);
    }
  }

  /** Dictionary order by bytes: a comes before b when it is a prefix of b, or smaller where they first differ. */
  lemma {:induction false} LeIsDictionaryOrder(a: string, b: string)
    ensures Le(a, b) <==> a <= b || exists i :: 0 <= i < |a| && i < |b| && a[..i] == b[..i] && a[i] < b[i]
  {
    if a == "" {
    } else if b == "" || a[0] != b[0] {
      assert a[..0] == b[..0];
      assert b != "" ==> forall i :: 0 < i < |a| && i < |b| ==> a[..i][0] != b[..i][0];
    } else {
      var c, d := a[1..], b[1..];
      LeIsDictionaryOrder(c, d);
      assert a == [a[0]] + c && b == [b[0]] + d;
      if i :| 0 <= i < |c| && i < |d| && c[..i] == d[..i] && c[i] < d[i] {
        assert a[..i + 1] == [a[0]] + c[..i] && b[..i + 1] == [b[0]] + d[..i];
      }
      if i :| 0 <= i < |a| && i < |b| && a[..i] == b[..i] && a[i] < b[i] {
        assert c[..i - 1] == a[..i][1..] && d[..i - 1] == b[..i][1..];
        assert c[i - 1] < d[i - 1];
      }
    }
  }

  predicate Sorted(s: seq<string>) {
    forall i, j :: 0 <= i < j < |s| ==> Le(s[i], s[j])
  }

  predicate Distinct(s: seq<string>) {
    forall i, j :: 0 <= i < j < |s| ==> s[i] != s[j]
  }

  function Elements(s: seq<string>): set<string> { set x | x in s }

  function Insert(s: seq<string>, x: string): (r: seq<string>)
    ensures multiset(r) == multiset(s) + multiset{x}
  {
    if s == [] || Le(x, s[0]) then [x] + s
    else
      assert s == [s[0]] + s[1..];
      [s[0]] + Insert(s[1..], x)
  }

  lemma {:induction false} InsertSorted(s: seq<string>, x: string)
    requires Sorted(s)
    ensures Sorted(Insert(s, x))
  {
    if s == [] {
    } else if Le(x, s[0]) {
      forall j | 0 <= j < |s|
        ensures Le(x, s[j])
      {
        if j > 0 {
          LeTransitive(x, s[0], s[j]);
        }
      }
    } else {
      InsertSorted(s[1..], x);
      LeTotal(x, s[0]);
      var rest := Insert(s[1..], x);
      forall j | 0 <= j < |rest|
        ensures Le(s[0], rest[j])
      {
        assert rest[j] in multiset(rest);
        assert rest[j] == x || rest[j] in s[1..];
      }
    }
  }

  /** sort.Strings */
  function Sort(s: seq<string>): (r: seq<string>)
    ensures multiset(r) == multiset(s) && |r| == |s|
    ensures Sorted(r)
  {
    if s == [] then []
    else
      assert s == [s[0]] + s[1..];
      InsertSorted(Sort(s[1..]), s[0]);
      var r := Insert(Sort(s[1..]), s[0]);
      assert |r| == |multiset(r)| && |s| == |multiset(s)|;
      r
  }

  lemma SameElements(a: seq<string>, b: seq<string>)
    requires multiset(a) == multiset(b)
    ensures Elements(a) == Elements(b)
    ensures Distinct(a) ==> Distinct(b)
  {
    forall x
      ensures x in a <==> x in b
    {
      assert x in a <==> x in multiset(a);
      assert x in b <==> x in multiset(b);
    }
    if Distinct(a) {
      DistinctCounts(a);
      forall i, j | 0 <= i < j < |b|
        ensures b[i] != b[j]
      {
        assert b == b[..j] + b[j..] && b[i] in b[..j] && b[j] in b[j..];
        assert multiset(b)[b[i]] <= 1;
      }
    }
  }

  lemma {:induction false} DistinctCounts(a: seq<string>)
    requires Distinct(a)
    ensures forall x :: multiset(a)[x] <= 1
  {
    if a == [] {
    } else {
      DistinctCounts(a[1..]);
      assert a == [a[0]] + a[1..];
      assert a[0] !in multiset(a[1..]);
    }
  }

  /** A set has one sorted, duplicate-free listing. */
  lemma {:induction false} SortedListingUnique(a: seq<string>, b: seq<string>)
    requires Sorted(a) && Sorted(b) && Distinct(a) && Distinct(b) && Elements(a) == Elements(b)
    ensures a == b
  {
    if a != [] {
      assert a[0] in Elements(a);
    }
    if b != [] {
      assert b[0] in Elements(b);
    }
    if a == [] || b == [] {
    } else {
      var i :| 0 <= i < |b| && b[i] == a[0];
      var j :| 0 <= j < |a| && a[j] == b[0];
      if a[0] != b[0] {
        LeAntisymmetric(a[0], b[0]);
      }
      forall x
        ensures x in a[1..] <==> x in b[1..]
      {
        assert x in a <==> x in Elements(a);
        assert x in b <==> x in Elements(b);
        assert a == [a[0]] + a[1..] && b == [b[0]] + b[1..];
      }
      SortedListingUnique(a[1..], b[1..]);
    }
  }

  /** A duplicate-free list drawn from a set is no longer than the set. */
  lemma {:induction false} DistinctBounded(a: seq<string>, s: set<string>)
    requires Distinct(a) && Elements(a) <= s
    ensures |a| <= |s| && |Elements(a)| == |a|
  {
    if a == [] {
      assert Elements(a) == {};
    } else {
      var front := a[..|a| - 1];
      var last := a[|a| - 1];
      assert last in Elements(a) && Elements(front) == Elements(a) - {last};
      DistinctBounded(front, s - {last});
    }
  }

  /** Dictionary order on lists of names. */
  predicate LexLe(a: seq<string>, b: seq<string>) {
    a == [] || (b != [] && if a[0] == b[0] then LexLe(a[1..], b[1..]) else Le(a[0], b[0]))
  }

  /** It goes by the first position where the lists differ. */
  lemma {:induction false} LexLeIsDictionaryOrder(a: seq<string>, b: seq<string>)
    ensures LexLe(a, b)
            <==> a <= b || exists i :: 0 <= i < |a| && i < |b| && a[..i] == b[..i] && a[i] != b[i] && Le(a[i], b[i])
  {
    if a == [] {
    } else if b == [] || a[0] != b[0] {
      assert a[..0] == b[..0];
      assert b != [] ==> forall i :: 0 < i < |a| && i < |b| ==> a[..i][0] != b[..i][0];
    } else {
      var c, d := a[1..], b[1..];
      LexLeIsDictionaryOrder(c, d);
      assert a == [a[0]] + c && b == [b[0]] + d;
      if i :| 0 <= i < |c| && i < |d| && c[..i] == d[..i] && c[i] != d[i] && Le(c[i], d[i]) {
        assert a[..i + 1] == [a[0]] + c[..i] && b[..i + 1] == [b[0]] + d[..i];
      }
      if i :| 0 <= i < |a| && i < |b| && a[..i] == b[..i] && a[i] != b[i] && Le(a[i], b[i]) {
        assert c[..i - 1] == a[..i][1..] && d[..i - 1] == b[..i][1..];
        assert c[i - 1] != d[i - 1];
      }
    }
  }

  lemma {:induction false} LexAntisymmetric(a: seq<string>, b: seq<string>)
    requires LexLe(a, b) && LexLe(b, a)
    ensures a == b
  {
    if a == [] || b == [] {
    } else {
      if a[0] != b[0] {
        LeAntisymmetric(a[0], b[0]);
      }
      LexAntisymmetric(a[1..], b[1..]);
      assert a == [a[0]] + a[1..] && b == [b[0]] + b[1..];
    }
  }
}
