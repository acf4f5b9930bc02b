/** The policy oracle (internal/engine/container/policy.go, DecideWithGrants) against the overlay text.

    The oracle promises to decide as the proxy does. Host by host it does, except that its hard-deny
    list holds textual prefixes such as "10.", which also cover grantable names such as
    10.example.com: a grant for such a name is in the overlay and refused by the oracle. */
module PolicyOracle {
  import opened Text
  import opened ExactEgress
  import opened Overlay
  import opened OverlayMeaning

  datatype Allowlist = Unreadable | Entries(domains: seq<string>)

  const BLOCKED_PREFIXES := ["127.", "169.254.", "10.", "172.16.", "192.168."]

  const BLOCKED_HOSTS := ["metadata.google.internal", "metadata", "instance-data.ec2.internal"]

  function Bare(entry: string): string {
    if entry != "" && entry[0] == '.' then entry[1..] else entry
  }

  predicate Covers(entry: string, host: string) {
    host == Bare(entry) || HasSuffix(host, "." + Bare(entry))
  }

  predicate Allowlisted(a: Allowlist, host: string) {
    a.Entries? && exists e :: e in a.domains && Covers(e, host)
  }

  predicate BlockedPrefix(host: string) {
    exists p :: p in BLOCKED_PREFIXES && p <= host
  }

  /** hardDenied; isIP is net.ParseIP on the bracket-trimmed host. */
  predicate HardDenied(isIP: string -> bool, host: string, network: string) {
    BlockedPrefix(host) || host in BLOCKED_HOSTS || (network != "allow" && isIP(host))
  }

  predicate Decision(isIP: string -> bool, host: string, port: int, network: string, grants: seq<Destination>,
                     allowlist: Allowlist)
  {
    !HardDenied(isIP, host, network)
    && (network == "allow" || Destination(host, port) in grants || Allowlisted(allowlist, host))
  }

  method IsHardDenied(isIP: string -> bool, host: string, network: string) returns (denied: bool)
    ensures denied == HardDenied(isIP, host, network)
  {
    for i := 0 to |BLOCKED_PREFIXES|
      invariant forall k :: 0 <= k < i ==> !(BLOCKED_PREFIXES[k] <= host)
    {
      if BLOCKED_PREFIXES[i] <= host {
        assert BLOCKED_PREFIXES[i] in BLOCKED_PREFIXES;
        return true;
      }
    }
    for i := 0 to |BLOCKED_HOSTS|
      invariant forall k :: 0 <= k < i ==> BLOCKED_HOSTS[k] != host
    {
      if host == BLOCKED_HOSTS[i] {
        return true;
      }
    }
    return network != "allow" && isIP(host);
  }

  /** DecideWithGrants: hard denies first, then open mode, then grants, then the static allowlist. */
  method DecideWithGrants(isIP: string -> bool, host: string, port: int, network: string, grants: seq<Destination>,
                          allowlist: Allowlist)
    returns (allowed: bool)
    ensures allowed == Decision(isIP, host, port, network, grants, allowlist)
  {
    var denied := IsHardDenied(isIP, host, network);
    if denied {
      return false;
    }
    if network == "allow" {
      return true;
    }
    for i := 0 to |grants|
      invariant forall k :: 0 <= k < i ==> grants[k] != Destination(host, port)
    {
      if host == grants[i].host && port == grants[i].port {
        return true;
      }
    }
    if allowlist.Unreadable? {
      return false;
    }
    for i := 0 to |allowlist.domains|
      invariant forall k :: 0 <= k < i ==> !Covers(allowlist.domains[k], host)
    {
      if Covers(allowlist.domains[i], host) {
        return true;
      }
    }
    return false;
  }

  // ---------------------------------------------------------------------------------------------
  // What the oracle decides, case by case

  lemma SuffixIsTail(host: string, tail: string)
    ensures HasSuffix(host, tail) <==> exists under :: host == under + tail
  {
    if HasSuffix(host, tail) {
      assert host == host[..|host| - |tail|] + tail;
    }
  }

  /** A list entry, with or without its leading dot, covers its own name and everything under it. */
  lemma EntryCovers(name: string, host: string)
    requires name == "" || name[0] != '.'
    ensures Covers(name, host) <==> Covers("." + name, host)
    ensures Covers(name, host) <==> host == name || exists under :: host == under + ("." + name)
  {
    assert Bare("." + name) == name == Bare(name) by {
      assert ("." + name)[1..] == name;
    }
    hide HasSuffix, Bare;
    SuffixIsTail(host, "." + name);
  }

  lemma BlockedPrefixesAre(host: string)
    ensures BlockedPrefix(host)
            <==> "127." <= host || "169.254." <= host || "10." <= host || "172.16." <= host || "192.168." <= host
  {
    var all := BLOCKED_PREFIXES;
    assert all[0] == "127." && all[1] == "169.254." && all[2] == "10." && all[3] == "172.16." && all[4] == "192.168.";
    if p :| p in all && p <= host {
      var i :| 0 <= i < |all| && all[i] == p;
      assert i in {0, 1, 2, 3, 4};
    }
    assert forall i :: 0 <= i < |all| && all[i] <= host ==> all[i] in all;
  }

  /** Private and metadata names are denied in every mode. An IP literal is denied exactly outside open mode. What is
      left passes in open mode, and otherwise exactly as a granted pair or by a list entry that covers it. */
  lemma DecisionCases(isIP: string -> bool, host: string, port: int, network: string, grants: seq<Destination>,
                      allowlist: Allowlist)
    ensures var blocked := "127." <= host || "169.254." <= host || "10." <= host || "172.16." <= host || "192.168." <= host
                           || host == "metadata.google.internal" || host == "metadata" || host == "instance-data.ec2.internal";
            && (blocked ==> !Decision(isIP, host, port, network, grants, allowlist))
            && (!blocked && network == "allow" ==> Decision(isIP, host, port, network, grants, allowlist))
            && (network != "allow" && isIP(host) ==> !Decision(isIP, host, port, network, grants, allowlist))
            && (!blocked && network != "allow" && !isIP(host) ==>
                  (Decision(isIP, host, port, network, grants, allowlist)
                   <==> || (exists g :: g in grants && g.host == host && g.port == port)
                        || (allowlist.Entries? && exists e :: e in allowlist.domains && Covers(e, host))))
  {
    BlockedPrefixesAre(host);
    hide BlockedPrefix, Covers;
    assert Destination(host, port) in grants <==> exists g :: g in grants && g.host == host && g.port == port;
  }

  // ---------------------------------------------------------------------------------------------
  // The oracle and the overlay

  /** On names the IP parser can only recognise a dotted quad: every other literal needs a colon. */
  ghost predicate ParsesNames(isIP: string -> bool) {
    forall h :: IsFQDN(h) ==> isIP(h) == IsDottedQuad(h)
  }

  /** In deny mode the oracle is: not hard denied, and allowed by the overlay text or the static list. */
  lemma OracleReadsTheOverlay(isIP: string -> bool, host: string, port: int, ds: seq<Destination>, revision: nat,
                              allowlist: Allowlist)
    requires NonNegativePorts(ds) && forall d :: d in ds ==> Grantable(d)
    ensures Decision(isIP, host, port, "deny", ds, allowlist)
            <==> !HardDenied(isIP, host, "deny")
                 && (Meaning(Body(ds, revision), host, port).Allowed? || Allowlisted(allowlist, host))
  {
    hide Meaning, Body, Grantable, HardDenied, Allowlisted;
    OverlayMeansItsDestinations(ds, revision, host, port);
  }

  /** A grantable destination is hard denied exactly when its name starts with a blocked prefix. */
  lemma GrantableHardDenied(isIP: string -> bool, d: Destination)
    requires Grantable(d) && ParsesNames(isIP)
    ensures HardDenied(isIP, d.host, "deny") <==> BlockedPrefix(d.host)
  {
    hide IsFQDN, IsDottedQuad, BlockedPrefix;
    assert d.host !in BLOCKED_HOSTS;
  }

  ghost predicate OracleHonoursOverlay(isIP: string -> bool, ds: seq<Destination>, revision: nat, allowlist: Allowlist)
    requires NonNegativePorts(ds)
  {
    forall host, port ::
      Meaning(Body(ds, revision), host, port).Allowed? ==> Decision(isIP, host, port, "deny", ds, allowlist)
  }

  /** The oracle honours every pair the overlay allows exactly when no granted name starts with a blocked prefix. */
  lemma OracleHonoursOverlayIff(isIP: string -> bool, ds: seq<Destination>, revision: nat, allowlist: Allowlist)
    requires NonNegativePorts(ds) && (forall d :: d in ds ==> Grantable(d)) && ParsesNames(isIP)
    ensures OracleHonoursOverlay(isIP, ds, revision, allowlist) <==> forall d :: d in ds ==> !BlockedPrefix(d.host)
  {
    hide Meaning, Body, Grantable, HardDenied, BlockedPrefix, Allowlisted, ParsesNames;
    forall host, port
      ensures Meaning(Body(ds, revision), host, port).Allowed? <==> Destination(host, port) in ds
    {
      OverlayMeansItsDestinations(ds, revision, host, port);
    }
    forall d | d in ds
      ensures HardDenied(isIP, d.host, "deny") <==> BlockedPrefix(d.host)
      ensures Meaning(Body(ds, revision), d.host, d.port).Allowed?
    {
      assert d == Destination(d.host, d.port);
      GrantableHardDenied(isIP, d);
    }
  }

  const TEN := Destination("10.example.com", 443)

  lemma TenFields()
    ensures Split(TEN.host, '.') == ["10", "example", "com"]
  {
    hide Split;
    assert TEN.host == "10" + ['.'] + "example.com" && "example.com" == "example" + ['.'] + "com";
    SplitPrepend("10", "example.com", '.');
    SplitPrepend("example", "com", '.');
    SplitFree("com", '.');
  }

  lemma TenGrantable()
    ensures Grantable(TEN) && BlockedPrefix(TEN.host)
  {
    hide Split;
    TenFields();
    assert BLOCKED_PREFIXES[2] in BLOCKED_PREFIXES && BLOCKED_PREFIXES[2] <= TEN.host;
    assert TEN.host[0] == '1';
    assert forall h :: h in NON_GRANTABLE ==> h[0] != '1';
  }

  /** The prefix list does catch grantable names: the proxy overlay allows this one, the oracle denies it. */
  lemma PrefixDenyContradictsGrant(isIP: string -> bool, revision: nat, allowlist: Allowlist)
    ensures Grantable(TEN)
    ensures Meaning(Body([TEN], revision), TEN.host, TEN.port) == Allowed
    ensures !Decision(isIP, TEN.host, TEN.port, "deny", [TEN], allowlist)
  {
    hide Meaning, Body, Grantable, BlockedPrefix, Allowlisted;
    TenGrantable();
    assert TEN in [TEN] && NonNegativePorts([TEN]);
    OverlayMeansItsDestinations([TEN], revision, TEN.host, TEN.port);
    assert Destination(TEN.host, TEN.port) == TEN;
  }
}
