/** The proxy generation compiler (internal/engine/egress/generation.go) and the meaning of its text.

    Build renders destinations into Squid ACL lines. Here that text is given a meaning by an
    interpreter of the ACL language it uses, and compared with the oracle of
    internal/engine/container/policy.go. */
module Overlay {
  import opened Text
  import opened ExactEgress

  // ---------------------------------------------------------------------------------------------
  // Rendering

  /** strings.ReplaceAll(host, ".", "\\.") */
  function Escape(host: string): string {
    if host == "" then ""
    else (if host[0] == '.' then ['\\', '.'] else [host[0]]) + Escape(host[1..])
  }

  function HostAcl(i: nat): string { "grant_" + Decimal(i) + "_host" }

  function PortAcl(i: nat): string { "grant_" + Decimal(i) + "_port" }

  function HostFields(i: nat, d: Destination): seq<string> {
    ["acl", HostAcl(i), "dstdom_regex", "-n", "^" + Escape(d.host) + "$"]
  }

  function PortFields(i: nat, d: Destination): seq<string>
    requires d.port >= 0
  {
    ["acl", PortAcl(i), "port", Decimal(d.port)]
  }

  function RuleFields(i: nat): seq<string> { ["http_access", "allow", HostAcl(i), PortAcl(i)] }

  /** The three lines of one destination. */
  function DestinationLines(i: nat, d: Destination): (lines: seq<string>)
    requires d.port >= 0
    ensures |lines| == 3
  {
    [Join(HostFields(i, d), ' '), Join(PortFields(i, d), ' '), Join(RuleFields(i), ' ')]
  }

  predicate NonNegativePorts(ds: seq<Destination>) {
    forall d :: d in ds ==> d.port >= 0
  }

  function LinesFrom(ds: seq<Destination>, i: nat): seq<string>
    requires i <= |ds| && NonNegativePorts(ds)
    decreases |ds| - i
  {
    if i == |ds| then [] else DestinationLines(i, ds[i]) + LinesFrom(ds, i + 1)
  }

  /** One line of text, in three short literals: Dafny does not look at the characters of a long one. */
  const EMPTY_NOTE := "# generated by safeslop; no " + "session egress grants " + "(final deny-all remains)"

  function RenderLines(ds: seq<Destination>): seq<string>
    requires NonNegativePorts(ds)
  {
    if ds == [] then [EMPTY_NOTE] else LinesFrom(ds, 0)
  }

  function Unlines(lines: seq<string>): string {
    if lines == [] then "" else lines[0] + "\n" + Unlines(lines[1..])
  }

  function Header(revision: nat): string { "# safeslop-egress-revision: " + Decimal(revision) }

  /** The overlay bytes of a generation. */
  function Body(ds: seq<Destination>, revision: nat): string
    requires NonNegativePorts(ds)
  {
    Unlines([Header(revision)] + RenderLines(ds))
  }

  lemma {:induction false} UnlinesAppend(a: seq<string>, b: seq<string>)
    ensures Unlines(a + b) == Unlines(a) + Unlines(b)
  {
    if a == [] {
      assert a + b == b;
    } else {
      UnlinesAppend(a[1..], b);
      assert (a + b)[1..] == a[1..] + b;
    }
  }

  lemma LinesSplit(ds: seq<Destination>, i: nat)
    requires i < |ds| && NonNegativePorts(ds)
    ensures |LinesFrom(ds, 0)| == 3 * |ds|
    ensures LinesFrom(ds, 0)[3 * i..3 * i + 3] == DestinationLines(i, ds[i])
  {
    hide HostFields, PortFields, RuleFields, Join;
    LinesSuffix(ds, 0, i);
    var whole := LinesFrom(ds, 0);
    assert LinesFrom(ds, i) == DestinationLines(i, ds[i]) + LinesFrom(ds, i + 1);
    hide LinesFrom, DestinationLines;
    assert whole[3 * i..3 * i + 3] == whole[3 * i..][..3];
  }

  lemma {:induction false} LinesSuffix(ds: seq<Destination>, j: nat, i: nat)
    requires j <= i <= |ds| && NonNegativePorts(ds)
    ensures |LinesFrom(ds, j)| == 3 * (|ds| - j)
    ensures LinesFrom(ds, j)[3 * (i - j)..] == LinesFrom(ds, i)
    decreases |ds| - j
  {
    hide DestinationLines;
    if j == |ds| {
    } else {
      var rest := LinesFrom(ds, j + 1);
      LinesSuffix(ds, j + 1, if i == j then j + 1 else i);
      if j < i {
        DropThree(DestinationLines(j, ds[j]), rest, 3 * (i - j));
      }
    }
  }

  lemma DropThree(three: seq<string>, rest: seq<string>, n: nat)
    requires |three| == 3 <= n <= 3 + |rest|
    ensures (three + rest)[n..] == rest[n - 3..]
  {
  }

  lemma UnlinesThree(a: string, b: string, c: string)
    ensures Unlines([a, b, c]) == a + "\n" + b + "\n" + c + "\n"
  {
    assert [a, b, c][1..] == [b, c] && [b, c][1..] == [c] && [c][1..] == [];
    assert Unlines([c]) == c + "\n" + "";
    assert Unlines([b, c]) == b + "\n" + Unlines([c]);
  }

  lemma RenderStep(ds: seq<Destination>, i: nat)
    requires i < |ds| && NonNegativePorts(ds)
    ensures |LinesFrom(ds, 0)| == 3 * |ds|
    ensures var lines := DestinationLines(i, ds[i]);
            Unlines(LinesFrom(ds, 0)[..3 * (i + 1)])
            == Unlines(LinesFrom(ds, 0)[..3 * i]) + lines[0] + "\n" + lines[1] + "\n" + lines[2] + "\n"
  {
    hide LinesFrom, Unlines, HostFields, PortFields, RuleFields, Join;
    LinesSplit(ds, i);
    var lines := DestinationLines(i, ds[i]);
    var whole := LinesFrom(ds, 0);
    assert whole[..3 * (i + 1)] == whole[..3 * i] + lines;
    UnlinesAppend(whole[..3 * i], lines);
    assert lines == [lines[0], lines[1], lines[2]];
    UnlinesThree(lines[0], lines[1], lines[2]);
  }

  lemma EmptyRenders(ds: seq<Destination>)
    requires ds == []
    ensures NonNegativePorts(ds) && Unlines(RenderLines(ds)) == "" + EMPTY_NOTE + "\n"
  {
    assert Unlines([EMPTY_NOTE][1..]) == "";
  }

  lemma LinesRender(ds: seq<Destination>)
    requires ds != [] && NonNegativePorts(ds)
    ensures RenderLines(ds) == LinesFrom(ds, 0) && |LinesFrom(ds, 0)| == 3 * |ds|
    ensures Unlines(LinesFrom(ds, 0)[..0]) == "" && forall i :: 0 <= i < |ds| ==> ds[i].port >= 0
  {
    LinesSuffix(ds, 0, 0);
  }

  /** Render: the builder loop writes exactly the rendered lines. */
  method Render(ds: seq<Destination>) returns (body: string)
    requires NonNegativePorts(ds)
    ensures body == Unlines(RenderLines(ds))
  {
    hide *;
    body := "";
    if |ds| == 0 {
      body := body + EMPTY_NOTE + "\n";
      EmptyRenders(ds);
      return;
    }
    ghost var whole := LinesFrom(ds, 0);
    LinesRender(ds);
    assert whole[..0] == [];
    for i := 0 to |ds|
      invariant body == Unlines(whole[..3 * i])
    {
      RenderStep(ds, i);
      var lines := DestinationLines(i, ds[i]);
      body := body + lines[0] + "\n";
      body := body + lines[1] + "\n";
      body := body + lines[2] + "\n";
    }
    assert whole[..3 * |ds|] == whole;
  }

  datatype BuildResult = Refused | Built(revision: nat, body: string)

  /** Build: refuses a negative revision or any destination that is not its own normal form. */
  method Build(ds: seq<Destination>, revision: int) returns (r: BuildResult)
    ensures r.Built? <==> revision >= 0 && forall d :: d in ds ==> Grantable(d)
    ensures r.Built? ==> r.revision == revision && NonNegativePorts(ds) && r.body == Body(ds, revision)
  {
    hide *;
    if revision < 0 {
      return Refused;
    }
    for i := 0 to |ds|
      invariant forall k :: 0 <= k < i ==> Grantable(ds[k])
    {
      if !Grantable(ds[i]) {
        return Refused;
      }
    }
    GrantablePorts(ds);
    var rendered := Render(ds);
    HeaderFirst(ds, revision);
    return Built(revision, Header(revision) + "\n" + rendered);
  }

  lemma GrantablePorts(ds: seq<Destination>)
    requires forall d :: d in ds ==> Grantable(d)
    ensures NonNegativePorts(ds)
  {
  }

  lemma HeaderFirst(ds: seq<Destination>, revision: nat)
    requires NonNegativePorts(ds)
    ensures Body(ds, revision) == Header(revision) + "\n" + Unlines(RenderLines(ds))
  {
    hide Header, RenderLines;
    assert ([Header(revision)] + RenderLines(ds))[1..] == RenderLines(ds);
  }
}
