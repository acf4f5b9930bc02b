/** Denied-egress observations (internal/engine/container/egress_observation.go) and their acknowledgement
    filter (internal/cli/session.go, filterAcknowledgedEgressObservations). */
module Observations {
  import opened Wrappers
  import opened Names
  import opened Sequences

  datatype Target = Target(host: string, port: int)

  /** A well-formed denied line. */
  datatype Denial = Denial(target: Target, seen: int)

  datatype Observation = Observation(target: Target, lastSeen: int, count: nat)

  /** bufio.Scanner stops for good at a line this long. */
  const TOO_LONG: nat := 65_536

  // ---------------------------------------------------------------------------------------------
  // From lines to denials

  /** The lines the scanner delivers: those before the first over-long one. */
  function Scanned(lines: seq<string>): (read: seq<string>)
    ensures read <= lines
  {
    if lines == [] || |lines[0]| >= TOO_LONG then [] else [lines[0]] + Scanned(lines[1..])
  }

  /** The denials among lines; parse is parseDeniedObservationLine. */
  function Denials(parse: string -> Option<Denial>, lines: seq<string>): seq<Denial> {
    if lines == [] then []
    else
      var front := Denials(parse, lines[..|lines| - 1]);
      match parse(lines[|lines| - 1]) case None => front case Some(d) => front + [d]
  }

  // ---------------------------------------------------------------------------------------------
  // The report of a list of denials

  function Count(ds: seq<Denial>, t: Target): nat {
    if ds == [] then 0 else Count(ds[..|ds| - 1], t) + if ds[|ds| - 1].target == t then 1 else 0
  }

  predicate IsLatest(ds: seq<Denial>, t: Target, last: int) {
    Denial(t, last) in ds && forall d :: d in ds && d.target == t ==> d.seen <= last
  }

  predicate Before(a: Target, b: Target) {
    if a.host == b.host then a.port < b.port else Le(a.host, b.host)
  }

  predicate StrictlySorted(out: seq<Observation>) {
    forall i, j :: 0 <= i < j < |out| ==> Before(out[i].target, out[j].target)
  }

  predicate Represented(out: seq<Observation>, t: Target) {
    exists o :: o in out && o.target == t
  }

  /** One row per denied destination, counting its denials and carrying the latest, strictly sorted. */
  predicate IsReport(ds: seq<Denial>, out: seq<Observation>) {
    && StrictlySorted(out)
    && (forall o :: o in out ==> o.count == Count(ds, o.target) && IsLatest(ds, o.target, o.lastSeen))
    && forall d :: d in ds ==> Represented(out, d.target)
  }

  lemma BeforeTotal(a: Target, b: Target)
    ensures a == b || Before(a, b) || Before(b, a)
    ensures !(Before(a, b) && Before(b, a))
  {
    LeTotal(a.host, b.host);
    if Le(a.host, b.host) && Le(b.host, a.host) {
      LeAntisymmetric(a.host, b.host);
    }
  }

  /** Rows go by host in dictionary order, and by port within a host. */
  lemma ByHostThenPort(a: Target, b: Target)
    ensures a.host == b.host ==> (Before(a, b) <==> a.port < b.port)
    ensures a.host != b.host ==>
              (Before(a, b) <==> a.host <= b.host
                                 || exists i :: 0 <= i < |a.host| && i < |b.host| && a.host[..i] == b.host[..i]
                                                && a.host[i] < b.host[i])
  {
    LeIsDictionaryOrder(a.host, b.host);
  }

  lemma BeforeTransitive(a: Target, b: Target, c: Target)
    requires Before(a, b) && Before(b, c)
    ensures Before(a, c)
  {
    if a.host != b.host && b.host != c.host {
      LeTransitive(a.host, b.host, c.host);
      if a.host == c.host {
        LeAntisymmetric(a.host, b.host);
      }
    }
  }

  /** Inserting a new destination's row at its place. */
  function Insert(out: seq<Observation>, o: Observation): (r: seq<Observation>)
    ensures forall x :: x in r <==> x in out || x == o
  {
    if out == [] then [o]
    else if Before(o.target, out[0].target) then [o] + out
    else
      assert out == [out[0]] + out[1..];
      [out[0]] + Insert(out[1..], o)
  }

  lemma {:induction false} InsertSorted(out: seq<Observation>, o: Observation)
    requires StrictlySorted(out) && forall x :: x in out ==> x.target != o.target
    ensures StrictlySorted(Insert(out, o))
  {
    if out == [] {
    } else if Before(o.target, out[0].target) {
      forall j | 0 <= j < |out|
        ensures Before(o.target, out[j].target)
      {
        if j > 0 {
          BeforeTransitive(o.target, out[0].target, out[j].target);
        }
      }
    } else {
      InsertSorted(out[1..], o);
      BeforeTotal(o.target, out[0].target);
      var rest := Insert(out[1..], o);
      forall j | 0 <= j < |rest|
        ensures Before(out[0].target, rest[j].target)
      {
        assert rest[j] in rest;
      }
    }
  }

  // ---------------------------------------------------------------------------------------------
  // Parsing

  /** The tally so far, as the map the parser keeps. */
  predicate Tallies(ds: seq<Denial>, tally: map<Target, Observation>) {
    && (forall t :: t in tally ==> tally[t].target == t && tally[t].count == Count(ds, t) && IsLatest(ds, t, tally[t].lastSeen))
    && forall d :: d in ds ==> d.target in tally
  }

  lemma {:induction false} CountZero(ds: seq<Denial>, t: Target)
    requires forall d :: d in ds ==> d.target != t
    ensures Count(ds, t) == 0
  {
    if ds == [] {
    } else {
      assert ds[|ds| - 1] in ds;
      CountZero(ds[..|ds| - 1], t);
    }
  }

  lemma LatestMore(ds: seq<Denial>, d: Denial, t: Target, last: int)
    requires IsLatest(ds, t, last)
    ensures IsLatest(ds + [d], t, if d.target == t && d.seen > last then d.seen else last)
  {
    if d.target == t && d.seen > last {
      assert Denial(t, d.seen) == d;
    }
  }

  lemma LatestFirst(ds: seq<Denial>, d: Denial)
    requires forall e :: e in ds ==> e.target != d.target
    ensures IsLatest(ds + [d], d.target, d.seen)
  {
    assert Denial(d.target, d.seen) == d;
  }

  lemma TallyStep(ds: seq<Denial>, tally: map<Target, Observation>, d: Denial)
    requires Tallies(ds, tally)
    ensures var row := if d.target !in tally then Observation(d.target, d.seen, 1)
                       else Observation(d.target, if d.seen > tally[d.target].lastSeen then d.seen else tally[d.target].lastSeen,
                                        tally[d.target].count + 1);
            Tallies(ds + [d], tally[d.target := row])
  {
    forall t
      ensures Count(ds + [d], t) == Count(ds, t) + if t == d.target then 1 else 0
    {
      assert (ds + [d])[..|ds + [d]| - 1] == ds;
    }
    hide Count, IsLatest;
    if d.target !in tally {
      CountZero(ds, d.target);
      LatestFirst(ds, d);
    }
    forall t | t in tally
      ensures IsLatest(ds + [d], t, if d.target == t && d.seen > tally[t].lastSeen then d.seen else tally[t].lastSeen)
    {
      LatestMore(ds, d, t, tally[t].lastSeen);
    }
  }

  /** ParseDeniedEgressObservations on the lines of a log. */
  method Parse(parse: string -> Option<Denial>, lines: seq<string>) returns (out: seq<Observation>)
    ensures IsReport(Denials(parse, Scanned(lines)), out)
  {
    hide IsLatest, Count, Tallies, Denials, Scanned, IsReport;
    ghost var read := Scanned(lines);
    var tally: map<Target, Observation> := map[];
    NothingScanned(parse, lines);
    var i := 0;
    while i < |lines| && |lines[i]| < TOO_LONG
      invariant i <= |read| && i <= |lines| && Tallies(Denials(parse, read[..i]), tally)
      invariant Scanned(lines[i..]) == read[i..]
      decreases |lines| - i
    {
      ScanStep(parse, lines, read, i);
      var parsed := parse(lines[i]);
      if parsed.Some? {
        var d := parsed.value;
        TallyStep(Denials(parse, read[..i]), tally, d);
        if d.target !in tally {
          tally := tally[d.target := Observation(d.target, d.seen, 1)];
        } else {
          var was := tally[d.target];
          tally := tally[d.target := Observation(d.target, if d.seen > was.lastSeen then d.seen else was.lastSeen, was.count + 1)];
        }
      }
      i := i + 1;
    }
    ScanEnds(lines, i);
    assert read[..i] == read;
    out := Sorted(Denials(parse, read), tally);
  }

  lemma NothingScanned(parse: string -> Option<Denial>, lines: seq<string>)
    ensures Tallies(Denials(parse, Scanned(lines)[..0]), map[]) && lines[0..] == lines
  {
  }

  lemma ScanEnds(lines: seq<string>, i: nat)
    requires i <= |lines| && (i == |lines| || |lines[i]| >= TOO_LONG)
    ensures Scanned(lines[i..]) == []
  {
  }

  lemma ScanStep(parse: string -> Option<Denial>, lines: seq<string>, read: seq<string>, i: nat)
    requires i < |lines| && |lines[i]| < TOO_LONG && i <= |read| && Scanned(lines[i..]) == read[i..]
    ensures i < |read| && Scanned(lines[i + 1..]) == read[i + 1..]
    ensures Denials(parse, read[..i + 1])
            == match parse(lines[i]) case None => Denials(parse, read[..i]) case Some(d) => Denials(parse, read[..i]) + [d]
  {
    assert lines[i..][1..] == lines[i + 1..];
    assert read[i..][1..] == read[i + 1..];
    assert read[..i + 1][..i] == read[..i];
    hide Denials;
    DenialsStep(parse, read[..i + 1]);
  }

  lemma DenialsStep(parse: string -> Option<Denial>, lines: seq<string>)
    requires lines != []
    ensures Denials(parse, lines)
            == var front := Denials(parse, lines[..|lines| - 1]);
               match parse(lines[|lines| - 1]) case None => front case Some(d) => front + [d]
  {
  }

  /** The rows of the map in order: ranging over it visits the keys in no particular order. */
  method Sorted(ghost ds: seq<Denial>, tally: map<Target, Observation>) returns (out: seq<Observation>)
    requires Tallies(ds, tally)
    ensures IsReport(ds, out)
  {
    out := [];
    var rest := tally.Keys;
    while rest != {}
      invariant rest <= tally.Keys && StrictlySorted(out)
      invariant forall o :: o in out <==> o.target in tally && o.target !in rest && tally[o.target] == o
      decreases rest
    {
      hide IsLatest, Count;
      var t :| t in rest;
      InsertSorted(out, tally[t]);
      out := Insert(out, tally[t]);
      rest := rest - {t};
    }
    forall d | d in ds
      ensures Represented(out, d.target)
    {
      assert tally[d.target] in out;
    }
  }

  // ---------------------------------------------------------------------------------------------
  // Theorems about reports

  /** Denials determine the report. */
  lemma {:induction false} SortedRowsUnique(a: seq<Observation>, b: seq<Observation>)
    requires StrictlySorted(a) && StrictlySorted(b) && forall o :: o in a <==> o in b
    ensures a == b
  {
    if a != [] {
      assert a[0] in b;
    }
    if b != [] {
      assert b[0] in a;
    }
    if a == [] || b == [] {
    } else {
      var i :| 0 <= i < |b| && b[i] == a[0];
      var j :| 0 <= j < |a| && a[j] == b[0];
      BeforeTotal(a[0].target, b[0].target);
      assert a[0] == b[0];
      TailMembers(a);
      TailMembers(b);
      SortedRowsUnique(a[1..], b[1..]);
    }
  }

  lemma TailMembers(a: seq<Observation>)
    requires a != [] && StrictlySorted(a)
    ensures forall o :: o in a[1..] <==> o in a && o != a[0]
    ensures forall o :: o in a[1..] ==> o.target != a[0].target
  {
    assert a == [a[0]] + a[1..];
    forall k | 0 < k < |a|
      ensures a[k].target != a[0].target
    {
      BeforeTotal(a[0].target, a[k].target);
    }
  }

  /** Where an element of a permutation sits, and what is left without it. */
  lemma Extract<T>(es: seq<T>, front: seq<T>, x: T) returns (k: nat)
    requires multiset(es) == multiset(front + [x])
    ensures k < |es| && es[k] == x && multiset(es[..k] + es[k + 1..]) == multiset(front)
  {
    assert x in multiset(front + [x]) && x in es;
    k :| 0 <= k < |es| && es[k] == x;
    assert es == es[..k] + [x] + es[k + 1..];
    assert multiset(es[..k] + es[k + 1..]) == multiset(es) - multiset{x};
  }

  lemma OneCount(d: Denial, t: Target)
    ensures Count([d], t) == if d.target == t then 1 else 0
  {
    assert [d][..0] == [];
  }

  lemma CountCut(es: seq<Denial>, k: nat, t: Target)
    requires k < |es|
    ensures Count(es, t) == Count(es[..k] + es[k + 1..], t) + if es[k].target == t then 1 else 0
  {
    var a, x, b := es[..k], [es[k]], es[k + 1..];
    assert es == a + (x + b);
    hide Count;
    OneCount(es[k], t);
    CountConcat(a, x + b, t);
    CountConcat(x, b, t);
    CountConcat(a, b, t);
  }

  lemma {:induction false} CountIsMultiplicity(ds: seq<Denial>, es: seq<Denial>, t: Target)
    requires multiset(ds) == multiset(es)
    ensures Count(ds, t) == Count(es, t)
    decreases |ds|
  {
    assert |ds| == |multiset(ds)| && |es| == |multiset(es)|;
    if ds == [] {
    } else {
      var front, last := ds[..|ds| - 1], ds[|ds| - 1];
      assert ds == front + [last];
      var k := Extract(es, front, last);
      CountIsMultiplicity(front, es[..k] + es[k + 1..], t);
      CountCut(es, k, t);
    }
  }

  lemma {:induction false} CountConcat(a: seq<Denial>, b: seq<Denial>, t: Target)
    ensures Count(a + b, t) == Count(a, t) + Count(b, t)
  {
    if b == [] {
      assert a + b == a;
    } else {
      CountConcat(a, b[..|b| - 1], t);
      assert (a + b)[..|a + b| - 1] == a + b[..|b| - 1];
    }
  }

  /** The report is a function of the multiset of denials. */
  lemma ReportIsOrderFree(ds: seq<Denial>, es: seq<Denial>, a: seq<Observation>, b: seq<Observation>)
    requires multiset(ds) == multiset(es) && IsReport(ds, a) && IsReport(es, b)
    ensures a == b
  {
    forall d
      ensures d in ds <==> d in es
    {
      assert d in multiset(ds) <==> d in multiset(es);
    }
    forall t
      ensures Count(ds, t) == Count(es, t)
    {
      CountIsMultiplicity(ds, es, t);
    }
    RowsAgree(ds, es, a, b);
    RowsAgree(es, ds, b, a);
    SortedRowsUnique(a, b);
  }

  lemma RowsAgree(ds: seq<Denial>, es: seq<Denial>, a: seq<Observation>, b: seq<Observation>)
    requires IsReport(ds, a) && IsReport(es, b)
    requires (forall d :: d in ds <==> d in es) && forall t :: Count(ds, t) == Count(es, t)
    ensures forall o :: o in a ==> o in b
  {
    hide Count, StrictlySorted, IsLatest;
    forall o | o in a
      ensures o in b
    {
      LatestDenial(ds, o.target, o.lastSeen);
      var other :| other in b && other.target == o.target;
      LatestAgree(ds, es, o.target, o.lastSeen, other.lastSeen);
      assert other == o;
    }
  }

  lemma LatestDenial(ds: seq<Denial>, t: Target, last: int)
    requires IsLatest(ds, t, last)
    ensures Denial(t, last) in ds
  {
  }

  lemma LatestAgree(ds: seq<Denial>, es: seq<Denial>, t: Target, a: int, b: int)
    requires IsLatest(ds, t, a) && IsLatest(es, t, b) && forall d :: d in ds <==> d in es
    ensures a == b
  {
  }

  function Sum(out: seq<Observation>): nat {
    if out == [] then 0 else out[0].count + Sum(out[1..])
  }

  function Without(ds: seq<Denial>, t: Target): seq<Denial> {
    if ds == [] then []
    else
      var front := Without(ds[..|ds| - 1], t);
      if ds[|ds| - 1].target == t then front else front + [ds[|ds| - 1]]
  }

  lemma {:induction false} WithoutFacts(ds: seq<Denial>, t: Target, u: Target)
    ensures |Without(ds, t)| + Count(ds, t) == |ds|
    ensures u != t ==> Count(Without(ds, t), u) == Count(ds, u)
    ensures forall d :: d in Without(ds, t) <==> d in ds && d.target != t
  {
    if ds == [] {
    } else {
      var front, last := ds[..|ds| - 1], ds[|ds| - 1];
      WithoutFacts(front, t, u);
      assert ds == front + [last];
      assert (Without(front, t) + [last])[..|Without(front, t)|] == Without(front, t);
    }
  }

  lemma LatestWithout(ds: seq<Denial>, t: Target, u: Target, last: int)
    requires IsLatest(ds, u, last) && u != t
    ensures IsLatest(Without(ds, t), u, last)
  {
    WithoutFacts(ds, t, u);
  }

  lemma TailSorted(out: seq<Observation>)
    requires out != [] && StrictlySorted(out)
    ensures StrictlySorted(out[1..])
  {
  }

  lemma ReportWithout(ds: seq<Denial>, out: seq<Observation>)
    requires out != [] && IsReport(ds, out)
    ensures IsReport(Without(ds, out[0].target), out[1..])
  {
    hide IsLatest, Count, Without, StrictlySorted;
    var t := out[0].target;
    var rest := Without(ds, t);
    TailMembers(out);
    TailSorted(out);
    WithoutFacts(ds, t, t);
    forall o | o in out[1..]
      ensures o.count == Count(rest, o.target) && IsLatest(rest, o.target, o.lastSeen)
    {
      WithoutFacts(ds, t, o.target);
      LatestWithout(ds, t, o.target, o.lastSeen);
    }
    forall d | d in rest
      ensures Represented(out[1..], d.target)
    {
      var o :| o in out && o.target == d.target;
      assert o in out[1..];
    }
  }

  /** The counts add up to the number of denied lines that were read. */
  lemma {:induction false} CountsAddUp(ds: seq<Denial>, out: seq<Observation>)
    requires IsReport(ds, out)
    ensures Sum(out) == |ds|
    decreases |out|
  {
    hide Count, Without, IsLatest;
    if ds != [] {
      assert ds[0] in ds;
    }
    if out == [] {
    } else {
      ReportWithout(ds, out);
      CountsAddUp(Without(ds, out[0].target), out[1..]);
      assert out[0] in out;
      WithoutFacts(ds, out[0].target, out[0].target);
    }
  }

  // ---------------------------------------------------------------------------------------------
  // Line order

  predicate HasLong(lines: seq<string>) { exists l :: l in lines && |l| >= TOO_LONG }

  /** Some line that can be read is a denial. */
  predicate HasDenial(parse: string -> Option<Denial>, lines: seq<string>) {
    exists l :: l in lines && |l| < TOO_LONG && parse(l).Some?
  }

  /** other holds the same lines; a and b are the two reports. */
  ghost predicate Reordered(parse: string -> Option<Denial>, lines: seq<string>, other: seq<string>,
                            a: seq<Observation>, b: seq<Observation>)
  {
    && multiset(other) == multiset(lines)
    && IsReport(Denials(parse, Scanned(lines)), a) && IsReport(Denials(parse, Scanned(other)), b)
  }

  /** Every reordering of the lines gives the same report. */
  ghost predicate OrderFree(parse: string -> Option<Denial>, lines: seq<string>) {
    forall other, a, b :: Reordered(parse, lines, other, a, b) ==> a == b
  }

  lemma {:induction false} ScannedAll(lines: seq<string>)
    requires !HasLong(lines)
    ensures Scanned(lines) == lines
  {
    if lines == [] {
    } else {
      assert lines[0] in lines;
      forall l | l in lines[1..]
        ensures |l| < TOO_LONG
      {
        assert l in lines;
      }
      ScannedAll(lines[1..]);
      assert [lines[0]] + lines[1..] == lines;
    }
  }

  lemma {:induction false} NoDenials(parse: string -> Option<Denial>, lines: seq<string>)
    requires forall l :: l in lines ==> parse(l).None?
    ensures Denials(parse, lines) == []
  {
    if lines == [] {
    } else {
      assert lines[|lines| - 1] in lines;
      NoDenials(parse, lines[..|lines| - 1]);
    }
  }

  lemma {:induction false} ScannedShort(lines: seq<string>)
    ensures forall l :: l in Scanned(lines) ==> l in lines && |l| < TOO_LONG
  {
    if lines == [] {
    } else {
      ScannedShort(lines[1..]);
    }
  }

  function Parsed(parse: string -> Option<Denial>, line: string): multiset<Denial> {
    match parse(line) case None => multiset{} case Some(d) => multiset{d}
  }

  lemma {:induction false} DenialsConcat(parse: string -> Option<Denial>, a: seq<string>, b: seq<string>)
    ensures Denials(parse, a + b) == Denials(parse, a) + Denials(parse, b)
  {
    if b == [] {
      assert a + b == a;
    } else {
      DenialsConcat(parse, a, b[..|b| - 1]);
      assert (a + b)[..|a + b| - 1] == a + b[..|b| - 1];
    }
  }

  lemma DenialsCut(parse: string -> Option<Denial>, b: seq<string>, k: nat)
    requires k < |b|
    ensures multiset(Denials(parse, b)) == multiset(Denials(parse, b[..k] + b[k + 1..])) + Parsed(parse, b[k])
  {
    hide *;
    CutsAt(b, k);
    DenialsMiddle(parse, b[..k], b[k], b[k + 1..]);
  }

  lemma CutsAt(b: seq<string>, k: nat)
    requires k < |b|
    ensures b == b[..k] + ([b[k]] + b[k + 1..])
  {
  }

  lemma DenialsMiddle(parse: string -> Option<Denial>, front: seq<string>, line: string, rest: seq<string>)
    ensures multiset(Denials(parse, front + ([line] + rest)))
            == multiset(Denials(parse, front + rest)) + Parsed(parse, line)
  {
    hide *;
    OneLine(parse, line);
    DenialsConcat(parse, front, [line] + rest);
    DenialsConcat(parse, [line], rest);
    DenialsConcat(parse, front, rest);
    MiddleOut(Denials(parse, front), Denials(parse, [line]), Denials(parse, rest));
  }

  lemma MiddleOut(front: seq<Denial>, middle: seq<Denial>, rest: seq<Denial>)
    ensures multiset(front + (middle + rest)) == multiset(front + rest) + multiset(middle)
  {
  }

  lemma OneLine(parse: string -> Option<Denial>, line: string)
    ensures multiset(Denials(parse, [line])) == Parsed(parse, line)
  {
    assert [line][..0] == [];
  }

  lemma {:induction false} DenialsPermute(parse: string -> Option<Denial>, a: seq<string>, b: seq<string>)
    requires multiset(a) == multiset(b)
    ensures multiset(Denials(parse, a)) == multiset(Denials(parse, b))
    decreases |a|
  {
    assert |a| == |multiset(a)| && |b| == |multiset(b)|;
    if a == [] {
    } else {
      var front, last := a[..|a| - 1], a[|a| - 1];
      assert a == front + [last];
      var k := Extract(b, front, last);
      DenialsPermute(parse, front, b[..k] + b[k + 1..]);
      DenialsCut(parse, b, k);
      DenialsCut(parse, a, |front|);
      assert a[..|front|] + a[|front| + 1..] == front;
    }
  }

  lemma SameMembers(a: seq<string>, b: seq<string>)
    requires multiset(a) == multiset(b)
    ensures forall l :: l in a <==> l in b
  {
    forall l
      ensures l in a <==> l in b
    {
      assert l in a <==> l in multiset(a);
      assert l in b <==> l in multiset(b);
    }
  }

  /** Line order cannot be seen when no line is over-long, or when no line is a denial. */
  lemma OrderFreeIf(parse: string -> Option<Denial>, lines: seq<string>)
    requires !HasLong(lines) || !HasDenial(parse, lines)
    ensures OrderFree(parse, lines)
  {
    forall other, a, b | Reordered(parse, lines, other, a, b)
      ensures a == b
    {
      SameMembers(lines, other);
      if !HasLong(lines) {
        ScannedAll(lines);
        ScannedAll(other);
        DenialsPermute(parse, lines, other);
      } else {
        ScannedShort(lines);
        ScannedShort(other);
        NoDenials(parse, Scanned(lines));
        NoDenials(parse, Scanned(other));
      }
      ReportIsOrderFree(Denials(parse, Scanned(lines)), Denials(parse, Scanned(other)), a, b);
    }
  }

  lemma MoveToFront(lines: seq<string>, l: string) returns (other: seq<string>)
    requires l in lines
    ensures other != [] && other[0] == l && multiset(other) == multiset(lines)
  {
    var k :| 0 <= k < |lines| && lines[k] == l;
    other := [l] + lines[..k] + lines[k + 1..];
    assert lines == lines[..k] + [l] + lines[k + 1..];
  }

  lemma EmptyReport()
    ensures IsReport([], [])
  {
  }

  lemma FirstDenialCounts(parse: string -> Option<Denial>, lines: seq<string>)
    requires lines != [] && |lines[0]| < TOO_LONG && parse(lines[0]).Some?
    ensures parse(lines[0]).value in Denials(parse, Scanned(lines))
  {
    var read := Scanned(lines);
    DenialsConcat(parse, [lines[0]], Scanned(lines[1..]));
    assert [lines[0]][..0] == [];
  }

  /** Reports exist for every log. */
  lemma {:induction false} ReportExists(ds: seq<Denial>) returns (out: seq<Observation>)
    ensures IsReport(ds, out)
  {
    var tally := TallyOf(ds);
    out := RowsOf(ds, tally, tally.Keys);
    forall d | d in ds
      ensures Represented(out, d.target)
    {
      assert tally[d.target] in out;
    }
  }

  lemma {:induction false} TallyOf(ds: seq<Denial>) returns (tally: map<Target, Observation>)
    ensures Tallies(ds, tally)
  {
    if ds == [] {
      tally := map[];
    } else {
      var d := ds[|ds| - 1];
      tally := TallyOf(ds[..|ds| - 1]);
      TallyStep(ds[..|ds| - 1], tally, d);
      assert ds[..|ds| - 1] + [d] == ds;
      tally := tally[d.target := if d.target !in tally then Observation(d.target, d.seen, 1)
                                 else Observation(d.target, if d.seen > tally[d.target].lastSeen then d.seen
                                                            else tally[d.target].lastSeen, tally[d.target].count + 1)];
    }
  }

  lemma {:induction false} RowsOf(ds: seq<Denial>, tally: map<Target, Observation>, keys: set<Target>)
    returns (out: seq<Observation>)
    requires Tallies(ds, tally) && keys <= tally.Keys
    ensures StrictlySorted(out) && forall o :: o in out <==> o.target in keys && tally[o.target] == o
    decreases keys
  {
    hide IsLatest, Count;
    if keys == {} {
      out := [];
    } else {
      var t :| t in keys;
      var rest := RowsOf(ds, tally, keys - {t});
      InsertSorted(rest, tally[t]);
      out := Insert(rest, tally[t]);
    }
  }

  lemma RowFor(ds: seq<Denial>, out: seq<Observation>, d: Denial)
    requires IsReport(ds, out) && d in ds
    ensures out != []
  {
  }

  lemma LongFirstSilences(parse: string -> Option<Denial>, lines: seq<string>)
    requires lines != [] && |lines[0]| >= TOO_LONG
    ensures Denials(parse, Scanned(lines)) == []
  {
  }

  /** With the over-long line first every denial is lost; with a denial first it is reported. */
  lemma OrderMatters(parse: string -> Option<Denial>, lines: seq<string>, long: string, hit: string)
    returns (other: seq<string>, a: seq<Observation>, b: seq<Observation>)
    requires long in lines && |long| >= TOO_LONG
    requires hit in lines && |hit| < TOO_LONG && parse(hit).Some?
    ensures Reordered(parse, lines, other, a, b) && a != b
  {
    hide IsReport, Denials, Scanned;
    var silent := MoveToFront(lines, long);
    var loud := MoveToFront(lines, hit);
    FirstDenialCounts(parse, loud);
    LongFirstSilences(parse, silent);
    EmptyReport();
    a := ReportExists(Denials(parse, Scanned(lines)));
    b := ReportExists(Denials(parse, Scanned(loud)));
    RowFor(Denials(parse, Scanned(loud)), b, parse(hit).value);
    if a == [] {
      other := loud;
    } else {
      other, b := silent, [];
    }
  }

  /** The multiset of lines determines the report exactly when no line is over-long or none is a denial. */
  lemma OrderFreeIff(parse: string -> Option<Denial>, lines: seq<string>)
    ensures OrderFree(parse, lines) <==> !HasLong(lines) || !HasDenial(parse, lines)
  {
    hide Reordered;
    if !HasLong(lines) || !HasDenial(parse, lines) {
      OrderFreeIf(parse, lines);
    } else {
      var long :| long in lines && |long| >= TOO_LONG;
      var hit :| hit in lines && |hit| < TOO_LONG && parse(hit).Some?;
      var other, a, b := OrderMatters(parse, lines, long, hit);
    }
  }

  // ---------------------------------------------------------------------------------------------
  // Acknowledgements

  datatype Ack = Ack(target: Target, at: int)

  /** The last acknowledgement of a destination counts. */
  function LastAck(acks: seq<Ack>, t: Target): Option<int> {
    if acks == [] then None
    else if acks[|acks| - 1].target == t then Some(acks[|acks| - 1].at)
    else LastAck(acks[..|acks| - 1], t)
  }

  predicate Hidden(acks: seq<Ack>, o: Observation) {
    LastAck(acks, o.target).Some? && o.lastSeen <= LastAck(acks, o.target).value
  }

  function Pending(acks: seq<Ack>, out: seq<Observation>): seq<Observation> {
    if out == [] then []
    else
      var front, last := Pending(acks, out[..|out| - 1]), out[|out| - 1];
      if Hidden(acks, last) then front else front + [last]
  }

  /** filterAcknowledgedEgressObservations: the rows not hidden, in order. */
  method Filter(acks: seq<Ack>, observations: seq<Observation>) returns (out: seq<Observation>)
    ensures out == Pending(acks, observations)
  {
    assert observations[..|observations|] == observations;
    if |observations| == 0 || |acks| == 0 {
      NothingHidden(observations);
      return observations;
    }
    var at: map<Target, int> := map[];
    for i := 0 to |acks|
      invariant forall t :: t in at <==> LastAck(acks[..i], t).Some?
      invariant forall t :: t in at ==> LastAck(acks[..i], t) == Some(at[t])
    {
      assert acks[..i + 1][..i] == acks[..i];
      at := at[acks[i].target := acks[i].at];
    }
    assert acks[..|acks|] == acks;
    out := [];
    for i := 0 to |observations|
      invariant out == Pending(acks, observations[..i])
    {
      assert observations[..i + 1][..i] == observations[..i];
      var o := observations[i];
      if !(o.target in at && o.lastSeen <= at[o.target]) {
        out := out + [o];
      }
    }
  }

  lemma {:induction false} NothingHidden(out: seq<Observation>)
    ensures Pending([], out) == out
  {
    if out == [] {
    } else {
      NothingHidden(out[..|out| - 1]);
      assert out[..|out| - 1] + [out[|out| - 1]] == out;
    }
  }

  lemma {:induction false} PendingIff(acks: seq<Ack>, out: seq<Observation>, o: Observation)
    ensures o in Pending(acks, out) <==> o in out && !Hidden(acks, o)
  {
    if out == [] {
    } else {
      PendingIff(acks, out[..|out| - 1], o);
      assert out == out[..|out| - 1] + [out[|out| - 1]];
    }
  }

  predicate OneAckEach(acks: seq<Ack>) {
    forall i, j :: 0 <= i < j < |acks| ==> acks[i].target != acks[j].target
  }

  lemma {:induction false} LastAckOnly(acks: seq<Ack>, k: nat)
    requires OneAckEach(acks) && k < |acks|
    ensures LastAck(acks, acks[k].target) == Some(acks[k].at)
  {
    if k < |acks| - 1 {
      LastAckOnly(acks[..|acks| - 1], k);
    }
  }

  /** A denial later than its destination's acknowledgement brings the row back, whatever else the log holds. */
  lemma LaterDenialReappears(ds: seq<Denial>, d: Denial, out: seq<Observation>, acks: seq<Ack>, k: nat) returns (o: Observation)
    requires IsReport(ds, out) && d in ds && OneAckEach(acks)
    requires k < |acks| && acks[k].target == d.target && acks[k].at < d.seen
    ensures o in Pending(acks, out) && o.target == d.target
  {
    hide Count;
    o :| o in out && o.target == d.target;
    LastAckOnly(acks, k);
    PendingIff(acks, out, o);
  }

  /** The last acknowledgement of the row's destination decides. */
  lemma {:induction false} LastAckDecides(acks: seq<Ack>, o: Observation)
    ensures Hidden(acks, o)
            <==> exists k :: 0 <= k < |acks| && acks[k].target == o.target && o.lastSeen <= acks[k].at
                             && forall j :: k < j < |acks| ==> acks[j].target != o.target
  {
    if acks == [] {
    } else {
      var n := |acks| - 1;
      LastAckDecides(acks[..n], o);
      if acks[n].target != o.target {
        assert forall k :: 0 <= k < n ==> acks[..n][k] == acks[k];
      }
    }
  }

  /** With one acknowledgement per destination a row is shown exactly when none of its destination is as late as its
      last denial. */
  lemma ShownIffNotAcknowledged(acks: seq<Ack>, out: seq<Observation>, o: Observation)
    requires OneAckEach(acks) && o in out
    ensures o in Pending(acks, out) <==> forall k :: 0 <= k < |acks| && acks[k].target == o.target ==> acks[k].at < o.lastSeen
  {
    hide Hidden, Pending;
    PendingIff(acks, out, o);
    LastAckDecides(acks, o);
  }

  /** The rows that stay keep their order. */
  lemma {:induction false} PendingInOrder(acks: seq<Ack>, out: seq<Observation>)
    ensures IsSubsequence(Pending(acks, out), out)
  {
    if out == [] {
    } else {
      var front, last := out[..|out| - 1], out[|out| - 1];
      PendingInOrder(acks, front);
      assert front + [last] == out;
      SubsequenceMore(Pending(acks, front), front, last);
    }
  }

  // ---------------------------------------------------------------------------------------------
  // What a report says of the log's lines

  /** The lines before the first over-long one are read, all of them and no more. */
  lemma {:induction false} ScannedStopsAtLong(lines: seq<string>)
    ensures Scanned(lines) == lines[..|Scanned(lines)|] && forall l :: l in Scanned(lines) ==> |l| < TOO_LONG
    ensures |Scanned(lines)| < |lines| ==> |lines[|Scanned(lines)|]| >= TOO_LONG
  {
    if lines == [] || |lines[0]| >= TOO_LONG {
    } else {
      ScannedStopsAtLong(lines[1..]);
      assert Scanned(lines)[1..] == Scanned(lines[1..]);
    }
  }

  predicate Denies(parse: string -> Option<Denial>, line: string, t: Target) {
    parse(line).Some? && parse(line).value.target == t
  }

  /** Where among the lines the destination is denied. */
  function DeniedAt(parse: string -> Option<Denial>, lines: seq<string>, t: Target): set<nat> {
    set i: nat | i < |lines| && Denies(parse, lines[i], t)
  }

  lemma {:induction false} CountIsLines(parse: string -> Option<Denial>, lines: seq<string>, t: Target)
    ensures Count(Denials(parse, lines), t) == |DeniedAt(parse, lines, t)|
  {
    if lines == [] {
      assert DeniedAt(parse, lines, t) == {};
    } else {
      var n := |lines| - 1;
      var front := lines[..n];
      CountIsLines(parse, front, t);
      var more := if Denies(parse, lines[n], t) then {n} else {};
      assert DeniedAt(parse, lines, t) == DeniedAt(parse, front, t) + more by {
        assert forall i: nat :: i < n ==> front[i] == lines[i];
      }
      CountStep(Denials(parse, front), parse(lines[n]), t);
    }
  }

  lemma CountStep(ds: seq<Denial>, parsed: Option<Denial>, t: Target)
    ensures parsed.Some? ==> Count(ds + [parsed.value], t) == Count(ds, t) + if parsed.value.target == t then 1 else 0
  {
    if parsed.Some? {
      assert (ds + [parsed.value])[..|ds|] == ds;
    }
  }

  lemma {:induction false} DenialsAreParsed(parse: string -> Option<Denial>, lines: seq<string>, d: Denial)
    ensures d in Denials(parse, lines) <==> exists l :: l in lines && parse(l) == Some(d)
  {
    if lines == [] {
    } else {
      var front, last := lines[..|lines| - 1], lines[|lines| - 1];
      DenialsAreParsed(parse, front, d);
      assert forall l :: l in lines <==> l in front || l == last;
    }
  }

  /** Each row of the report, read off the lines before the first over-long one: how many of them deny its
      destination, at least one, and the latest time any of them gives. And every denied destination has a row. */
  lemma ReportReadsLines(parse: string -> Option<Denial>, lines: seq<string>, out: seq<Observation>)
    requires IsReport(Denials(parse, Scanned(lines)), out)
    ensures forall o :: o in out ==>
              && o.count == |DeniedAt(parse, Scanned(lines), o.target)|
              && (exists l :: l in Scanned(lines) && parse(l) == Some(Denial(o.target, o.lastSeen)))
              && (forall l :: l in Scanned(lines) && Denies(parse, l, o.target) ==> parse(l).value.seen <= o.lastSeen)
    ensures forall l :: l in Scanned(lines) && parse(l).Some? ==> Represented(out, parse(l).value.target)
  {
    hide Scanned, Denials, Count, DeniedAt;
    var read := Scanned(lines);
    forall d
      ensures d in Denials(parse, read) <==> exists l :: l in read && parse(l) == Some(d)
    {
      DenialsAreParsed(parse, read, d);
    }
    forall t
      ensures Count(Denials(parse, read), t) == |DeniedAt(parse, read, t)|
    {
      CountIsLines(parse, read, t);
    }
    forall l | l in read && parse(l).Some?
      ensures parse(l).value in Denials(parse, read)
    {
      assert parse(l) == Some(parse(l).value);
    }
  }
}
