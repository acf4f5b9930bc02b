/** What the overlay text means to the proxy, and how that compares with the policy oracle
    (internal/engine/egress/generation.go, internal/engine/container/policy.go).

    The text is read back by an interpreter for the directives the overlay uses: named ACLs, which
    accumulate when a name is repeated, and allow rules that fire when every ACL they name matches. */
module OverlayMeaning {
  import opened Text
  import opened ExactEgress
  import opened Overlay
  import SessionRecord

  // ---------------------------------------------------------------------------------------------
  // Regular expressions: literals, escapes, any-character and the two anchors

  predicate MatchHere(re: string, s: string)
    decreases |re|
  {
    if re == "" then true
    else if re == "$" then s == ""
    else if re[0] == '\\' && |re| > 1 then s != "" && s[0] == re[1] && MatchHere(re[2..], s[1..])
    else s != "" && (re[0] == '.' || re[0] == s[0]) && MatchHere(re[1..], s[1..])
  }

  /** An unanchored search, as dstdom_regex does. */
  predicate RegexMatches(re: string, s: string) {
    if re != "" && re[0] == '^' then MatchHere(re[1..], s)
    else exists i :: 0 <= i <= |s| && MatchHere(re, s[i..])
  }

  predicate HostText(h: string) {
    forall c :: c in h ==> AlphaNum(c) || c == '-' || c == '.'
  }

  lemma {:induction false} EscapedMatchesOnlyItself(h: string, s: string)
    requires HostText(h)
    ensures MatchHere(Escape(h) + "$", s) <==> s == h
  {
    if h == "" {
      assert Escape(h) + "$" == "$";
    } else {
      var re := Escape(h) + "$";
      var tail := Escape(h[1..]) + "$";
      assert h[0] in h && |re| > 1;
      if h[0] == '.' {
        assert re[2..] == tail;
      } else {
        assert re[1..] == tail;
      }
      if s != "" {
        EscapedMatchesOnlyItself(h[1..], s[1..]);
        assert s == [s[0]] + s[1..] && h == [h[0]] + h[1..];
      }
    }
  }

  /** The pattern the overlay writes for a host finds that host and nothing else. */
  lemma PatternIsExact(h: string, s: string)
    requires HostText(h)
    ensures RegexMatches("^" + Escape(h) + "$", s) <==> s == h
  {
    assert ("^" + Escape(h) + "$")[1..] == Escape(h) + "$";
    EscapedMatchesOnlyItself(h, s);
  }

  // ---------------------------------------------------------------------------------------------
  // The ACL interpreter

  datatype Acl = HostAny(patterns: seq<string>) | PortAny(ports: seq<nat>)

  datatype Verdict = Malformed | Allowed | NotDecided

  function Value(s: string): nat
    requires forall c :: c in s ==> IsDigit(c)
  {
    if s == "" then 0 else 10 * Value(s[..|s| - 1]) + DigitValue(s[|s| - 1])
  }

  predicate AclMatches(acl: Acl, host: string, port: int) {
    match acl
    case HostAny(patterns) => exists p :: p in patterns && RegexMatches(p, host)
    case PortAny(ports) => port in ports
  }

  predicate RuleFires(names: seq<string>, acls: map<string, Acl>, host: string, port: int)
    requires forall n :: n in names ==> n in acls
  {
    forall n :: n in names ==> AclMatches(acls[n], host, port)
  }

  predicate IsHostAcl(f: seq<string>) {
    |f| == 5 && f[0] == "acl" && f[2] == "dstdom_regex" && f[3] == "-n"
  }

  predicate IsPortAcl(f: seq<string>) {
    |f| == 4 && f[0] == "acl" && f[2] == "port" && f[3] != "" && forall c :: c in f[3] ==> IsDigit(c)
  }

  predicate IsAllowRule(f: seq<string>) {
    |f| >= 3 && f[0] == "http_access" && f[1] == "allow"
  }

  predicate IsComment(line: string) { line == "" || line[0] == '#' }

  /** Reads the lines top down; the first allow rule that fires decides. */
  function Interpret(lines: seq<string>, acls: map<string, Acl>, host: string, port: int): Verdict {
    if lines == [] then NotDecided
    else if IsComment(lines[0]) then Interpret(lines[1..], acls, host, port)
    else
      var f := Split(lines[0], ' ');
      if IsHostAcl(f) then
        if f[1] !in acls then Interpret(lines[1..], acls[f[1] := HostAny([f[4]])], host, port)
        else if acls[f[1]].PortAny? then Malformed
        else Interpret(lines[1..], acls[f[1] := HostAny(acls[f[1]].patterns + [f[4]])], host, port)
      else if IsPortAcl(f) then
        if f[1] !in acls then Interpret(lines[1..], acls[f[1] := PortAny([Value(f[3])])], host, port)
        else if acls[f[1]].HostAny? then Malformed
        else Interpret(lines[1..], acls[f[1] := PortAny(acls[f[1]].ports + [Value(f[3])])], host, port)
      else if IsAllowRule(f) then
        if exists n :: n in f[2..] && n !in acls then Malformed
        else if RuleFires(f[2..], acls, host, port) then Allowed
        else Interpret(lines[1..], acls, host, port)
      else Malformed
  }

  function Meaning(text: string, host: string, port: int): Verdict {
    Interpret(Split(text, '\n'), map[], host, port)
  }

  // ---------------------------------------------------------------------------------------------
  // Reading back what Render wrote

  lemma {:induction false} ValueDecimal(n: nat)
    ensures Value(Decimal(n)) == n
  {
    var s := Decimal(n);
    if n < 10 {
      assert s[..|s| - 1] == "";
    } else {
      ValueDecimal(n / 10);
      assert s[..|s| - 1] == Decimal(n / 10);
    }
  }

  lemma {:induction false} FQDNText(h: string)
    requires IsFQDN(h)
    ensures HostText(h)
  {
    hide IsLabel;
    var labels := Split(h, '.');
    forall l | l in labels
      ensures HostText(l)
    {
      LabelText(l);
    }
    JoinText(labels);
    JoinSplit(h, '.');
  }

  lemma LabelText(l: string)
    requires IsLabel(l)
    ensures HostText(l)
  {
  }

  lemma {:induction false} JoinText(labels: seq<string>)
    requires forall l :: l in labels ==> HostText(l)
    ensures HostText(Join(labels, '.'))
  {
    if labels == [] {
    } else {
      assert labels[0] in labels;
      JoinText(labels[1..]);
    }
  }

  lemma {:induction false} EscapeText(h: string)
    requires HostText(h)
    ensures forall c :: c in Escape(h) ==> AlphaNum(c) || c == '-' || c == '.' || c == '\\'
  {
    if h == "" {
    } else {
      EscapeText(h[1..]);
    }
  }

  lemma FieldsFree(i: nat, d: Destination)
    requires Grantable(d)
    ensures forall f :: f in HostFields(i, d) + PortFields(i, d) + RuleFields(i) ==> Free(f, ' ') && Free(f, '\n')
  {
    hide Decimal, IsFQDN, IsDottedQuad, Escape;
    FQDNText(d.host);
    EscapeText(d.host);
    assert forall c :: c in Decimal(i) + Decimal(d.port) ==> c != ' ' && c != '\n';
  }

  /** Every line of a destination splits back into the fields it was written from. */
  lemma DestinationFields(i: nat, d: Destination)
    requires Grantable(d)
    ensures Split(DestinationLines(i, d)[0], ' ') == HostFields(i, d)
    ensures Split(DestinationLines(i, d)[1], ' ') == PortFields(i, d)
    ensures Split(DestinationLines(i, d)[2], ' ') == RuleFields(i)
    ensures forall l :: l in DestinationLines(i, d) ==> !IsComment(l) && Free(l, '\n')
  {
    FieldsFree(i, d);
    LineOf(HostFields(i, d));
    LineOf(PortFields(i, d));
    LineOf(RuleFields(i));
  }

  lemma LineOf(fields: seq<string>)
    requires |fields| > 1 && fields[0] in {"acl", "http_access"}
    requires forall f :: f in fields ==> Free(f, ' ') && Free(f, '\n')
    ensures Split(Join(fields, ' '), ' ') == fields
    ensures !IsComment(Join(fields, ' ')) && Free(Join(fields, ' '), '\n')
  {
    SplitJoin(fields, ' ');
    JoinHead(fields);
    JoinFree(fields);
  }

  lemma JoinHead(fields: seq<string>)
    requires |fields| > 1 && fields[0] != ""
    ensures Join(fields, ' ') != "" && Join(fields, ' ')[0] == fields[0][0]
  {
  }

  lemma {:induction false} JoinFree(fields: seq<string>)
    requires forall f :: f in fields ==> Free(f, '\n')
    ensures Free(Join(fields, ' '), '\n')
  {
    if fields == [] {
    } else {
      assert fields[0] in fields;
      JoinFree(fields[1..]);
    }
  }

  /** The names of destinations i and later are not taken yet. */
  ghost predicate FreshNames(acls: map<string, Acl>, i: nat) {
    forall k: nat :: k >= i ==> HostAcl(k) !in acls && PortAcl(k) !in acls
  }

  lemma NamesDiffer(i: nat, k: nat)
    ensures i != k ==> HostAcl(i) != HostAcl(k) && PortAcl(i) != PortAcl(k)
    ensures HostAcl(i) != PortAcl(k)
  {
    hide Decimal;
    var h, p := HostAcl(i), PortAcl(k);
    assert h[|h| - 2] == 's' && p[|p| - 2] == 'r';
    if Decimal(i) == Decimal(k) {
      DecimalInjective(i, k);
    } else {
      assert HostAcl(i)[6..|HostAcl(i)| - 5] == Decimal(i) && HostAcl(k)[6..|HostAcl(k)| - 5] == Decimal(k);
      assert PortAcl(i)[6..|PortAcl(i)| - 5] == Decimal(i) && PortAcl(k)[6..|PortAcl(k)| - 5] == Decimal(k);
    }
  }

  /** One destination's three lines: its rule fires on exactly its own pair. */
  lemma DestinationMeaning(i: nat, d: Destination, rest: seq<string>, acls: map<string, Acl>, host: string, port: int)
    returns (next: map<string, Acl>)
    requires Grantable(d) && FreshNames(acls, i)
    ensures FreshNames(next, i + 1)
    ensures Interpret(DestinationLines(i, d) + rest, acls, host, port)
            == if Destination(host, port) == d then Allowed else Interpret(rest, next, host, port)
  {
    hide Split, Decimal, Join, IsFQDN, IsDottedQuad, Escape, Value, RegexMatches, MatchHere, HostAcl, PortAcl;
    DestinationFields(i, d);
    var lines := DestinationLines(i, d) + rest;
    var pattern := "^" + Escape(d.host) + "$";
    var mid := acls[HostAcl(i) := HostAny([pattern])];
    NamesDiffer(i, i);
    ValueDecimal(d.port);
    next := mid[PortAcl(i) := PortAny([d.port])];
    assert next[HostAcl(i)] == HostAny([pattern]);
    forall k: nat | k >= i + 1
      ensures HostAcl(k) !in next && PortAcl(k) !in next
    {
      NamesDiffer(i, k);
      NamesDiffer(k, i);
    }
    FQDNText(d.host);
    PatternIsExact(d.host, host);
    assert lines[1..] == [DestinationLines(i, d)[1], DestinationLines(i, d)[2]] + rest;
    assert lines[1..][1..] == [DestinationLines(i, d)[2]] + rest;
    assert lines[1..][1..][1..] == rest;
    HostLineMeaning(lines, i, d, acls, host, port);
    PortLineMeaning(lines[1..], i, d, mid, host, port);
    RuleLineMeaning(lines[1..][1..], i, d, next, host, port);
  }

  lemma HostLineMeaning(lines: seq<string>, i: nat, d: Destination, acls: map<string, Acl>, host: string, port: int)
    requires lines != [] && !IsComment(lines[0]) && Split(lines[0], ' ') == HostFields(i, d) && HostAcl(i) !in acls
    ensures Interpret(lines, acls, host, port)
            == Interpret(lines[1..], acls[HostAcl(i) := HostAny(["^" + Escape(d.host) + "$"])], host, port)
  {
    hide Split, Decimal, HostAcl, Escape, RegexMatches, Value;
  }

  lemma PortLineMeaning(lines: seq<string>, i: nat, d: Destination, acls: map<string, Acl>, host: string, port: int)
    requires d.port >= 0 && lines != [] && !IsComment(lines[0])
    requires Split(lines[0], ' ') == PortFields(i, d) && PortAcl(i) !in acls
    ensures Interpret(lines, acls, host, port)
            == Interpret(lines[1..], acls[PortAcl(i) := PortAny([d.port])], host, port)
  {
    hide Split, Decimal, PortAcl, RegexMatches, Value;
    ValueDecimal(d.port);
  }

  lemma RuleLineMeaning(lines: seq<string>, i: nat, d: Destination, acls: map<string, Acl>, host: string, port: int)
    requires HostText(d.host) && lines != [] && !IsComment(lines[0]) && Split(lines[0], ' ') == RuleFields(i)
    requires HostAcl(i) in acls && acls[HostAcl(i)] == HostAny(["^" + Escape(d.host) + "$"])
    requires PortAcl(i) in acls && d.port >= 0 && acls[PortAcl(i)] == PortAny([d.port])
    ensures Interpret(lines, acls, host, port)
            == if Destination(host, port) == d then Allowed else Interpret(lines[1..], acls, host, port)
  {
    hide Split, Decimal, HostAcl, PortAcl, Escape, RegexMatches, Value;
    PatternIsExact(d.host, host);
    var names := RuleFields(i)[2..];
    assert names == [HostAcl(i), PortAcl(i)];
    assert AclMatches(acls[HostAcl(i)], host, port) <==> host == d.host;
    assert AclMatches(acls[PortAcl(i)], host, port) <==> port == d.port;
    assert HostAcl(i) in names && PortAcl(i) in names;
    assert RuleFires(names, acls, host, port) <==> Destination(host, port) == d;
  }

  lemma {:induction false} LinesMeaning(ds: seq<Destination>, i: nat, acls: map<string, Acl>, host: string, port: int)
    requires i <= |ds| && NonNegativePorts(ds) && (forall d :: d in ds ==> Grantable(d)) && FreshNames(acls, i)
    ensures Interpret(LinesFrom(ds, i) + [""], acls, host, port)
            == if Destination(host, port) in ds[i..] then Allowed else NotDecided
    decreases |ds| - i
  {
    hide HostFields, PortFields, RuleFields, FreshNames, Grantable, DestinationLines;
    if i == |ds| {
      assert LinesFrom(ds, i) + [""] == [""];
      assert [""][1..] == [];
    } else {
      var rest := LinesFrom(ds, i + 1) + [""];
      assert LinesFrom(ds, i) + [""] == DestinationLines(i, ds[i]) + rest;
      var next := DestinationMeaning(i, ds[i], rest, acls, host, port);
      LinesMeaning(ds, i + 1, next, host, port);
      assert ds[i..] == [ds[i]] + ds[i + 1..];
    }
  }

  lemma {:induction false} SplitUnlines(lines: seq<string>)
    requires forall l :: l in lines ==> Free(l, '\n')
    ensures Split(Unlines(lines), '\n') == lines + [""]
  {
    if lines == [] {
    } else {
      SplitUnlines(lines[1..]);
      SplitPrepend(lines[0], Unlines(lines[1..]), '\n');
      assert lines == [lines[0]] + lines[1..];
    }
  }

  lemma {:induction false} LinesFree(ds: seq<Destination>, i: nat)
    requires i <= |ds| && NonNegativePorts(ds) && forall d :: d in ds ==> Grantable(d)
    ensures forall l :: l in LinesFrom(ds, i) ==> Free(l, '\n')
    decreases |ds| - i
  {
    hide Grantable, DestinationLines;
    if i == |ds| {
    } else {
      LinesFree(ds, i + 1);
      DestinationFields(i, ds[i]);
    }
  }

  lemma HeaderFree(revision: nat)
    ensures Free(Header(revision), '\n')
  {
    hide Decimal;
    assert forall c :: c in Decimal(revision) ==> c != '\n';
  }

  lemma NoteFree()
    ensures Free(EMPTY_NOTE, '\n') && IsComment(EMPTY_NOTE)
  {
  }

  /** The text splits back into exactly the rendered lines. */
  lemma BodyLines(ds: seq<Destination>, revision: nat)
    requires NonNegativePorts(ds) && forall d :: d in ds ==> Grantable(d)
    ensures Split(Body(ds, revision), '\n') == [Header(revision)] + RenderLines(ds) + [""]
  {
    hide Split, Decimal, Grantable, Unlines, LinesFrom;
    LinesFree(ds, 0);
    HeaderFree(revision);
    NoteFree();
    var lines := [Header(revision)] + RenderLines(ds);
    forall l | l in lines
      ensures Free(l, '\n')
    {
      assert l == Header(revision) || l in RenderLines(ds);
    }
    SplitUnlines([Header(revision)] + RenderLines(ds));
  }

  /** The overlay allows a host and port exactly when that pair is one of the destinations. */
  lemma OverlayMeansItsDestinations(ds: seq<Destination>, revision: nat, host: string, port: int)
    requires NonNegativePorts(ds) && forall d :: d in ds ==> Grantable(d)
    ensures Meaning(Body(ds, revision), host, port)
            == if Destination(host, port) in ds then Allowed else NotDecided
  {
    hide Split, Decimal, Grantable, Unlines, LinesFrom, Body;
    BodyLines(ds, revision);
    var lines := [Header(revision)] + RenderLines(ds) + [""];
    assert lines[1..] == RenderLines(ds) + [""];
    assert Interpret(lines, map[], host, port) == Interpret(RenderLines(ds) + [""], map[], host, port) by {
      assert IsComment(lines[0]);
    }
    if ds == [] {
      NoteFree();
      assert ([EMPTY_NOTE] + [""])[1..] == [""] && [""][1..] == [];
      assert Interpret([""], map[], host, port) == NotDecided;
    } else {
      LinesMeaning(ds, 0, map[], host, port);
      assert ds[0..] == ds;
    }
  }

  // ---------------------------------------------------------------------------------------------
  // Injectivity

  lemma EscapeInjective(h: string, k: string)
    requires HostText(h) && HostText(k) && Escape(h) == Escape(k)
    ensures h == k
  {
    EscapedMatchesOnlyItself(h, k);
    EscapedMatchesOnlyItself(k, k);
  }

  lemma DestinationLinesInjective(i: nat, d: Destination, e: Destination)
    requires Grantable(d) && Grantable(e) && DestinationLines(i, d) == DestinationLines(i, e)
    ensures d == e
  {
    hide Split, Decimal, Join, IsFQDN, IsDottedQuad, Escape;
    DestinationFields(i, d);
    DestinationFields(i, e);
    var p, q := HostFields(i, d)[4], HostFields(i, e)[4];
    assert p[1..|p| - 1] == Escape(d.host) && q[1..|q| - 1] == Escape(e.host);
    FQDNText(d.host);
    FQDNText(e.host);
    EscapeInjective(d.host, e.host);
    assert PortFields(i, d)[3] == PortFields(i, e)[3];
    DecimalInjective(d.port, e.port);
  }

  lemma RenderLinesInjective(ds: seq<Destination>, es: seq<Destination>)
    requires NonNegativePorts(ds) && NonNegativePorts(es)
    requires (forall d :: d in ds ==> Grantable(d)) && forall e :: e in es ==> Grantable(e)
    requires RenderLines(ds) == RenderLines(es)
    ensures ds == es
  {
    hide Grantable, DestinationLines, LinesFrom;
    LinesSuffix(ds, 0, 0);
    LinesSuffix(es, 0, 0);
    assert |ds| == |es|;
    forall i | 0 <= i < |ds|
      ensures ds[i] == es[i]
    {
      LinesSplit(ds, i);
      LinesSplit(es, i);
      DestinationLinesInjective(i, ds[i], es[i]);
    }
  }

  /** Equal overlay bytes come from the same revision and the same destinations in the same order. */
  lemma BodyInjective(ds: seq<Destination>, r: nat, es: seq<Destination>, q: nat)
    requires NonNegativePorts(ds) && NonNegativePorts(es)
    requires (forall d :: d in ds ==> Grantable(d)) && forall e :: e in es ==> Grantable(e)
    requires Body(ds, r) == Body(es, q)
    ensures ds == es && r == q
  {
    hide Split, Decimal, Grantable, LinesFrom, Body;
    BodyLines(ds, r);
    BodyLines(es, q);
    var a, b := [Header(r)] + RenderLines(ds) + [""], [Header(q)] + RenderLines(es) + [""];
    assert a[1..|a| - 1] == RenderLines(ds) && b[1..|b| - 1] == RenderLines(es);
    RenderLinesInjective(ds, es);
    assert a[0][28..] == Decimal(r) && b[0][28..] == Decimal(q);
    DecimalInjective(r, q);
  }

  /** Two different texts with one digest. */
  ghost predicate Collision<H>(sha256: string -> H, a: string, b: string) {
    a != b && sha256(a) == sha256(b)
  }

  /** Equal digests mean equal revision and authority, or exhibit a digest collision. */
  lemma EqualDigestsAgree<H>(sha256: string -> H, ds: seq<Destination>, r: nat, es: seq<Destination>, q: nat)
    requires NonNegativePorts(ds) && NonNegativePorts(es)
    requires (forall d :: d in ds ==> Grantable(d)) && forall e :: e in es ==> Grantable(e)
    requires sha256(Body(ds, r)) == sha256(Body(es, q))
    ensures (ds == es && r == q) || Collision(sha256, Body(ds, r), Body(es, q))
  {
    hide Grantable, Body;
    if Body(ds, r) == Body(es, q) {
      BodyInjective(ds, r, es, q);
    }
  }

  /** The symbolic digest of the session record (module SessionRecord) stands for the bytes exactly. */
  lemma DigestStandsForBytes(a: SessionRecord.Digest, b: SessionRecord.Digest)
    requires a.revision >= 0 && b.revision >= 0
    requires (forall d :: d in a.overlay ==> Grantable(d)) && forall d :: d in b.overlay ==> Grantable(d)
    ensures NonNegativePorts(a.overlay) && NonNegativePorts(b.overlay)
    ensures a == b <==> Body(a.overlay, a.revision) == Body(b.overlay, b.revision)
  {
    hide IsFQDN, IsDottedQuad, Body;
    if Body(a.overlay, a.revision) == Body(b.overlay, b.revision) {
      BodyInjective(a.overlay, a.revision, b.overlay, b.revision);
    }
  }
}
