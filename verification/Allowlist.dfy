/** Composing the proxy's domain allowlist (internal/engine/container/launch.go, composeAllowlist). */
module Allowlist {
  import opened Text
  import opened Names
  import opened Sequences

  // ---------------------------------------------------------------------------------------------
  // Trimming

  /** unicode.IsSpace */
  predicate IsSpace(c: char) {
    || c == ' ' || '\t' <= c <= '\r' || c == '\U{85}' || c == '\U{A0}' || c == '\U{1680}'
    || '\U{2000}' <= c <= '\U{200A}' || c in {'\U{2028}', '\U{2029}', '\U{202F}', '\U{205F}', '\U{3000}'}
  }

  function TrimLeft(s: string): string {
    if s != "" && IsSpace(s[0]) then TrimLeft(s[1..]) else s
  }

  function TrimRight(s: string): string {
    if s != "" && IsSpace(s[|s| - 1]) then TrimRight(s[..|s| - 1]) else s
  }

  /** strings.TrimSpace */
  function Trim(s: string): string { TrimRight(TrimLeft(s)) }

  predicate Trimmed(s: string) {
    s == "" || (!IsSpace(s[0]) && !IsSpace(s[|s| - 1]))
  }

  lemma {:induction false} TrimLeftStarts(s: string)
    ensures TrimLeft(s) == "" || !IsSpace(TrimLeft(s)[0])
  {
    if s == "" || !IsSpace(s[0]) {
    } else {
      TrimLeftStarts(s[1..]);
    }
  }

  lemma {:induction false} TrimRightEnds(s: string)
    ensures TrimRight(s) <= s
    ensures TrimRight(s) == "" || !IsSpace(TrimRight(s)[|TrimRight(s)| - 1])
  {
    if s == "" || !IsSpace(s[|s| - 1]) {
    } else {
      TrimRightEnds(s[..|s| - 1]);
    }
  }

  lemma TrimTrims(s: string)
    ensures Trimmed(Trim(s)) && (Trimmed(s) ==> Trim(s) == s)
  {
    TrimLeftStarts(s);
    TrimRightEnds(TrimLeft(s));
  }

  predicate AllSpace(s: string) {
    forall c :: c in s ==> IsSpace(c)
  }

  lemma {:induction false} TrimLeftCuts(s: string) returns (lead: string)
    ensures s == lead + TrimLeft(s) && AllSpace(lead)
  {
    if s == "" || !IsSpace(s[0]) {
      lead := "";
    } else {
      var rest := TrimLeftCuts(s[1..]);
      lead := [s[0]] + rest;
    }
  }

  lemma {:induction false} TrimRightCuts(s: string) returns (trail: string)
    ensures s == TrimRight(s) + trail && AllSpace(trail)
  {
    if s == "" || !IsSpace(s[|s| - 1]) {
      trail := "";
    } else {
      var rest := TrimRightCuts(s[..|s| - 1]);
      trail := rest + [s[|s| - 1]];
    }
  }

  /** Trimming takes space off both ends and nothing else: what is left has none there. */
  lemma TrimCuts(s: string) returns (lead: string, trail: string)
    ensures s == lead + Trim(s) + trail && AllSpace(lead) && AllSpace(trail) && Trimmed(Trim(s))
  {
    hide TrimLeft, TrimRight;
    lead := TrimLeftCuts(s);
    trail := TrimRightCuts(TrimLeft(s));
    TrimTrims(s);
  }

  // ---------------------------------------------------------------------------------------------
  // Entries and what they reach

  predicate IsWildcard(e: string) { e != "" && e[0] == '.' }

  /** The proxy's reading of an entry: ".D" is D and everything under it, a bare name is itself. */
  predicate Reaches(e: string, host: string) {
    if IsWildcard(e) then host == e[1..] || HasSuffix(host, e) else host == e
  }

  /** An entry reaches its own name and, with a leading dot, also every name under it. */
  lemma ReachesMeans(name: string, host: string)
    requires name == "" || name[0] != '.'
    ensures Reaches(name, host) <==> host == name
    ensures Reaches("." + name, host) <==> host == name || exists under :: host == under + "." + name
  {
    var e := "." + name;
    assert e[1..] == name;
    if HasSuffix(host, e) {
      assert host == host[..|host| - |e|] + "." + name;
    }
    if under :| host == under + "." + name {
      assert host[|host| - |e|..] == e;
    }
  }

  predicate AnyReaches(entries: seq<string>, host: string) {
    exists e :: e in entries && Reaches(e, host)
  }

  /** A bare entry equal to or under some wildcard's domain. */
  predicate Covered(entries: seq<string>, e: string) {
    !IsWildcard(e) && exists w :: w in entries && IsWildcard(w) && Reaches(w, e)
  }

  // ---------------------------------------------------------------------------------------------
  // Composition

  /** The trimmed, non-empty entries, each once, in first-seen order. */
  function FirstSeen(inputs: seq<string>): seq<string> {
    if inputs == [] then []
    else
      var front, e := FirstSeen(inputs[..|inputs| - 1]), Trim(inputs[|inputs| - 1]);
      if e == "" || e in front then front else front + [e]
  }

  /** all's wildcards and uncovered entries, in order, among entries. */
  function Kept(all: seq<string>, entries: seq<string>): seq<string> {
    if entries == [] then []
    else
      var front, e := Kept(all, entries[..|entries| - 1]), entries[|entries| - 1];
      if Covered(all, e) then front else front + [e]
  }

  function Entries(base: string, extra: seq<string>): seq<string> {
    var all := FirstSeen(Split(base, '\n') + extra);
    Kept(all, all)
  }

  function Compose(base: string, extra: seq<string>): string {
    Join(Entries(base, extra), '\n') + "\n"
  }

  method FirstSeenOf(inputs: seq<string>) returns (all: seq<string>)
    ensures all == FirstSeen(inputs)
  {
    all := [];
    var seen: set<string> := {};
    for i := 0 to |inputs|
      invariant all == FirstSeen(inputs[..i]) && seen == set e | e in all
    {
      assert inputs[..i + 1][..i] == inputs[..i];
      var s := Trim(inputs[i]);
      if s != "" && s !in seen {
        seen := seen + {s};
        all := all + [s];
      }
    }
    assert inputs[..|inputs|] == inputs;
  }

  method IsCovered(wildcards: seq<string>, bare: string) returns (covered: bool)
    ensures covered <==> exists w :: w in wildcards && (bare == w || HasSuffix(bare, "." + w))
  {
    for i := 0 to |wildcards|
      invariant forall k :: 0 <= k < i ==> !(bare == wildcards[k] || HasSuffix(bare, "." + wildcards[k]))
    {
      if bare == wildcards[i] || HasSuffix(bare, "." + wildcards[i]) {
        return true;
      }
    }
    return false;
  }

  /** composeAllowlist */
  method ComposeAllowlist(base: string, extra: seq<string>) returns (text: string)
    ensures text == Compose(base, extra)
  {
    var all := FirstSeenOf(Split(base, '\n') + extra);
    var wildcards: seq<string> := [];
    for i := 0 to |all|
      invariant forall w :: w in wildcards <==> exists k :: 0 <= k < i && IsWildcard(all[k]) && all[k][1..] == w
    {
      if IsWildcard(all[i]) {
        wildcards := wildcards + [all[i][1..]];
      }
    }
    assert all[..|all|] == all;
    var lines: seq<string> := [];
    for i := 0 to |all|
      invariant lines == Kept(all, all[..i])
    {
      hide HasSuffix, Kept;
      KeptStep(all, all, i);
      var dropped := false;
      if !IsWildcard(all[i]) {
        dropped := IsCovered(wildcards, all[i]);
        CoveredMeans(all, wildcards, all[i]);
      }
      if !dropped {
        lines := lines + [all[i]];
      }
    }
    return Join(lines, '\n') + "\n";
  }

  lemma KeptStep(all: seq<string>, entries: seq<string>, i: nat)
    requires i < |entries|
    ensures Kept(all, entries[..i + 1])
            == if Covered(all, entries[i]) then Kept(all, entries[..i]) else Kept(all, entries[..i]) + [entries[i]]
  {
    assert entries[..i + 1][..i] == entries[..i];
  }

  lemma CoveredMeans(all: seq<string>, wildcards: seq<string>, bare: string)
    requires !IsWildcard(bare)
    requires forall w :: w in wildcards <==> exists k :: 0 <= k < |all| && IsWildcard(all[k]) && all[k][1..] == w
    ensures Covered(all, bare) <==> exists w :: w in wildcards && (bare == w || HasSuffix(bare, "." + w))
  {
    hide HasSuffix;
    if Covered(all, bare) {
      var e :| e in all && IsWildcard(e) && Reaches(e, bare);
      assert "." + e[1..] == e && e[1..] in wildcards;
    }
    if w :| w in wildcards && (bare == w || HasSuffix(bare, "." + w)) {
      var k :| 0 <= k < |all| && IsWildcard(all[k]) && all[k][1..] == w;
      assert "." + w == all[k] && all[k] in all;
    }
  }

  // ---------------------------------------------------------------------------------------------
  // What composition promises

  lemma {:induction false} FirstSeenFacts(inputs: seq<string>)
    ensures Distinct(FirstSeen(inputs))
    ensures forall e :: e in FirstSeen(inputs) ==> e != "" && Trimmed(e)
    ensures forall e :: e in FirstSeen(inputs) ==> exists s :: s in inputs && Trim(s) == e
    ensures forall s :: s in inputs && Trim(s) != "" ==> Trim(s) in FirstSeen(inputs)
  {
    if inputs == [] {
    } else {
      FirstSeenFacts(inputs[..|inputs| - 1]);
      TrimTrims(inputs[|inputs| - 1]);
      assert inputs == inputs[..|inputs| - 1] + [inputs[|inputs| - 1]];
    }
  }

  lemma {:induction false} KeptFacts(all: seq<string>, entries: seq<string>)
    ensures forall e :: e in Kept(all, entries) <==> e in entries && !Covered(all, e)
    ensures Distinct(entries) ==> Distinct(Kept(all, entries))
  {
    if entries == [] {
    } else {
      KeptFacts(all, entries[..|entries| - 1]);
      assert entries == entries[..|entries| - 1] + [entries[|entries| - 1]];
    }
  }

  /** Whatever reaches a name under a wildcard is reached by the wildcard too. */
  lemma WildcardCovers(w: string, e: string, host: string)
    requires IsWildcard(w) && !IsWildcard(e) && Reaches(w, e) && Reaches(e, host)
    ensures Reaches(w, host)
  {
  }

  /** Exactly the inputs' domains stay reachable, host by host. */
  lemma ComposeKeepsReach(base: string, extra: seq<string>, host: string)
    ensures AnyReaches(Entries(base, extra), host)
            <==> exists s :: s in Split(base, '\n') + extra && Trim(s) != "" && Reaches(Trim(s), host)
  {
    hide FirstSeen, Kept, Reaches, Trim, Split;
    var inputs := Split(base, '\n') + extra;
    var all := FirstSeen(inputs);
    FirstSeenFacts(inputs);
    KeptFacts(all, all);
    if s :| s in inputs && Trim(s) != "" && Reaches(Trim(s), host) {
      var e := Trim(s);
      if Covered(all, e) {
        var w :| w in all && IsWildcard(w) && Reaches(w, e);
        WildcardCovers(w, e, host);
        assert w in Entries(base, extra);
      } else {
        assert e in Entries(base, extra);
      }
    }
    if AnyReaches(Entries(base, extra), host) {
      var e :| e in Entries(base, extra) && Reaches(e, host);
      var s :| s in inputs && Trim(s) == e;
    }
  }

  /** No duplicates, and no bare entry equal to or under an emitted wildcard, which the proxy would refuse. */
  lemma ComposeHasNoOverlap(base: string, extra: seq<string>)
    ensures Distinct(Entries(base, extra))
    ensures forall e :: e in Entries(base, extra) ==> e != "" && Trimmed(e) && !Covered(Entries(base, extra), e)
  {
    hide FirstSeen, Kept, Reaches, Trim, Split;
    var all := FirstSeen(Split(base, '\n') + extra);
    FirstSeenFacts(Split(base, '\n') + extra);
    KeptFacts(all, all);
  }

  /** The k-th input is the first that trims to e. */
  predicate IsFirstOf(inputs: seq<string>, k: nat, e: string) {
    k < |inputs| && Trim(inputs[k]) == e && forall j :: 0 <= j < k ==> Trim(inputs[j]) != e
  }

  /** Entries stand in the order in which the inputs first name them. */
  lemma {:induction false} FirstSeenInOrder(inputs: seq<string>, a: nat, b: nat, k: nat, l: nat)
    requires a < b < |FirstSeen(inputs)| && IsFirstOf(inputs, k, FirstSeen(inputs)[a])
    requires IsFirstOf(inputs, l, FirstSeen(inputs)[b])
    ensures k < l
  {
    hide Trim;
    var n := |inputs| - 1;
    var front := inputs[..n];
    FirstSeenFacts(front);
    FirstSeenFacts(inputs);
    var all := FirstSeen(inputs);
    if b < |FirstSeen(front)| {
      NamedBefore(front, all[a]);
      NamedBefore(front, all[b]);
      FirstSeenInOrder(front, a, b, k, l);
    } else {
      NamedBefore(front, all[a]);
      assert forall j :: 0 <= j < n ==> front[j] in front;
    }
  }

  lemma {:induction false} NamedBefore(front: seq<string>, e: string)
    requires e in FirstSeen(front)
    ensures exists j :: 0 <= j < |front| && Trim(front[j]) == e
  {
    FirstSeenFacts(front);
    var s :| s in front && Trim(s) == e;
    var j :| 0 <= j < |front| && front[j] == s;
  }

  lemma {:induction false} KeptInOrder(all: seq<string>, entries: seq<string>)
    ensures IsSubsequence(Kept(all, entries), entries)
  {
    if entries == [] {
    } else {
      KeptInOrder(all, entries[..|entries| - 1]);
      var front, e := Kept(all, entries[..|entries| - 1]), entries[|entries| - 1];
      assert (front + [e])[..|front + [e]| - 1] == front;
    }
  }

  // ---------------------------------------------------------------------------------------------
  // Reading the text back

  predicate OneLineEach(entries: seq<string>) {
    forall e :: e in entries ==> Free(e, '\n')
  }

  function NonEmpty(lines: seq<string>): seq<string> {
    if lines == [] then []
    else
      var front, l := NonEmpty(lines[..|lines| - 1]), lines[|lines| - 1];
      if l == "" then front else front + [l]
  }

  lemma {:induction false} NonEmptyFacts(lines: seq<string>)
    ensures forall l :: l in NonEmpty(lines) ==> l in lines
    ensures (forall l :: l in lines ==> l != "") ==> NonEmpty(lines) == lines
  {
    if lines == [] {
    } else {
      var front, last := lines[..|lines| - 1], lines[|lines| - 1];
      NonEmptyFacts(front);
      assert lines == front + [last] && last in lines;
      assert forall l :: l in front ==> l in lines;
    }
  }

  lemma TextLines(entries: seq<string>)
    requires OneLineEach(entries)
    ensures Split(Join(entries, '\n') + "\n", '\n') == (if entries == [] then [""] else entries) + [""]
  {
    var text := Join(entries, '\n');
    assert text + "\n" == text + ['\n'] + "";
    SplitConcat(text, "", '\n');
    if entries != [] {
      SplitJoin(entries, '\n');
    }
  }

  /** The proxy reads back exactly the entries when, and only when, no entry has a line break inside it. */
  lemma TextIsEntriesIff(base: string, extra: seq<string>)
    ensures NonEmpty(Split(Compose(base, extra), '\n')) == Entries(base, extra) <==> OneLineEach(Entries(base, extra))
  {
    hide Split, Join, Entries;
    var entries, lines := Entries(base, extra), Split(Compose(base, extra), '\n');
    NonEmptyFacts(lines);
    if OneLineEach(entries) {
      TextLines(entries);
      ComposeHasNoOverlap(base, extra);
      NonEmptyFacts(entries);
      assert lines[..|lines| - 1] == if entries == [] then [""] else entries;
      assert [""][..0] == [];
    } else if NonEmpty(lines) == entries {
      JoinSplit(Compose(base, extra), '\n');
    }
  }

  lemma {:induction false} FirstSeenFixed(entries: seq<string>)
    requires Distinct(entries) && forall e :: e in entries ==> e != "" && Trimmed(e)
    ensures FirstSeen(entries) == entries
  {
    if entries == [] {
    } else {
      var front, e := entries[..|entries| - 1], entries[|entries| - 1];
      assert e in entries && entries == front + [e];
      assert forall f :: f in front ==> f in entries;
      FirstSeenFixed(front);
      TrimTrims(e);
      assert e !in front;
    }
  }

  lemma {:induction false} KeptFixed(all: seq<string>, entries: seq<string>)
    requires forall e :: e in entries ==> !Covered(all, e)
    ensures Kept(all, entries) == entries
  {
    if entries == [] {
    } else {
      var front, e := entries[..|entries| - 1], entries[|entries| - 1];
      assert e in entries && entries == front + [e];
      KeptFixed(all, front);
    }
  }

  lemma FirstSeenEmpty(entries: seq<string>)
    ensures FirstSeen(entries + [""]) == FirstSeen(entries)
  {
    assert (entries + [""])[..|entries|] == entries;
    TrimTrims("");
  }

  lemma FirstSeenNothing()
    ensures FirstSeen([]) == []
  {
  }

  /** Lines a composition leaves alone: none, or distinct trimmed names without overlap. */
  predicate SettledLines(lines: seq<string>) {
    lines == [""] || (Distinct(lines) && forall l :: l in lines ==> l != "" && Trimmed(l) && !Covered(lines, l))
  }

  lemma SettledEntries(body: string)
    requires SettledLines(Split(body, '\n'))
    ensures Compose(body + "\n", []) == body + "\n"
  {
    hide Split, Join, FirstSeen, Kept, Trim, Covered;
    var lines := Split(body, '\n');
    assert body + "\n" == body + ['\n'] + "";
    SplitConcat(body, "", '\n');
    JoinSplit(body, '\n');
    SplitEmpty();
    var inputs := lines + [""] + [];
    assert inputs == lines + [""];
    FirstSeenEmpty(lines);
    if lines == [""] {
      FirstSeenEmpty([]);
      assert [] + [""] == [""];
      FirstSeenNothing();
      KeptFixed([], []);
    } else {
      FirstSeenFixed(lines);
      KeptFixed(lines, lines);
    }
    JoinNothing();
  }

  lemma SplitEmpty()
    ensures Split("", '\n') == [""]
  {
  }

  lemma JoinNothing()
    ensures Join([], '\n') == "" && Join([""], '\n') == ""
  {
  }

  lemma {:induction false} TrimFree(s: string)
    requires Free(s, '\n')
    ensures Free(Trim(s), '\n')
  {
    TrimLeftFree(s);
    TrimRightEnds(TrimLeft(s));
  }

  lemma {:induction false} TrimLeftFree(s: string)
    requires Free(s, '\n')
    ensures Free(TrimLeft(s), '\n')
  {
    if s == "" || !IsSpace(s[0]) {
    } else {
      TrimLeftFree(s[1..]);
    }
  }

  /** What is read back is always free of line breaks. */
  lemma ReadBackIsOneLineEach(text: string)
    ensures OneLineEach(Entries(text, []))
  {
    hide Split, FirstSeen, Kept, Trim, Free;
    var inputs := Split(text, '\n') + [];
    JoinSplit(text, '\n');
    FirstSeenFacts(inputs);
    KeptFacts(FirstSeen(inputs), FirstSeen(inputs));
    forall e | e in Entries(text, [])
      ensures Free(e, '\n')
    {
      var s :| s in inputs && Trim(s) == e;
      var i :| 0 <= i < |inputs| && inputs[i] == s;
      TrimFree(s);
    }
  }

  /** A composed text is left alone by composing again exactly when its lines are settled. */
  lemma ComposeFixedIff(body: string)
    ensures Compose(body + "\n", []) == body + "\n" <==> SettledLines(Split(body, '\n'))
  {
    hide Split, Join, FirstSeen, Kept, Trim, Covered;
    var text := body + "\n";
    if SettledLines(Split(body, '\n')) {
      SettledEntries(body);
    }
    if Compose(text, []) == text {
      var entries := Entries(text, []);
      ReadBackIsOneLineEach(text);
      ComposeHasNoOverlap(text, []);
      TextLines(entries);
      assert body + "\n" == body + ['\n'] + "";
      SplitConcat(body, "", '\n');
      SplitEmpty();
      var lines := Split(body, '\n');
      assert (lines + [""])[..|lines|] == lines;
      assert Split(text, '\n')[..|lines|] == if entries == [] then [""] else entries;
    }
  }

  lemma OneLineIdempotent(base: string, extra: seq<string>)
    requires OneLineEach(Entries(base, extra))
    ensures Compose(Compose(base, extra), []) == Compose(base, extra)
  {
    hide Split, Join, FirstSeen, Kept, Trim, Covered, Entries;
    var entries := Entries(base, extra);
    ComposeHasNoOverlap(base, extra);
    var body := Join(entries, '\n');
    TextLines(entries);
    assert body + "\n" == body + ['\n'] + "";
    SplitConcat(body, "", '\n');
    SplitEmpty();
    var lines := Split(body, '\n');
    assert (lines + [""])[..|lines|] == lines == if entries == [] then [""] else entries;
    SettledEntries(body);
  }

  /** Composing the composed list again changes nothing, when no extra entry has a line break inside it. */
  lemma ComposeIdempotent(base: string, extra: seq<string>)
    requires forall s :: s in extra ==> Free(Trim(s), '\n')
    ensures Compose(Compose(base, extra), []) == Compose(base, extra)
  {
    hide Split, FirstSeen, Kept, Trim, Free, Compose;
    var inputs := Split(base, '\n') + extra;
    JoinSplit(base, '\n');
    FirstSeenFacts(inputs);
    KeptFacts(FirstSeen(inputs), FirstSeen(inputs));
    forall e | e in Entries(base, extra)
      ensures Free(e, '\n')
    {
      var s :| s in inputs && Trim(s) == e;
      if s !in extra {
        var i :| 0 <= i < |Split(base, '\n')| && Split(base, '\n')[i] == s;
        TrimFree(s);
      }
    }
    OneLineIdempotent(base, extra);
  }

  // ---------------------------------------------------------------------------------------------
  // Exactly when composing is idempotent, in terms of the inputs

  /** An input whose trimmed text is neither empty nor a bare name under some wildcard among the inputs. */
  ghost predicate Survives(inputs: seq<string>, e: string) {
    && e != "" && (exists s :: s in inputs && Trim(s) == e)
    && (IsWildcard(e) || forall s :: s in inputs && IsWildcard(Trim(s)) ==> !Reaches(Trim(s), e))
  }

  /** One of the lines a surviving input breaks into. */
  ghost predicate IsLine(inputs: seq<string>, e: string, l: string) {
    Survives(inputs, e) && l in Split(e, '\n')
  }

  /** Each line that the surviving inputs break into is a trimmed name, occurs once, and is not a bare name under
      a wildcard that is one of these lines. All of it holds of single-line inputs among themselves. */
  ghost predicate CleanLines(inputs: seq<string>) {
    && (forall e, l :: IsLine(inputs, e, l) ==> l != "" && Trimmed(l))
    && (forall e :: Survives(inputs, e) ==> Distinct(Split(e, '\n')))
    && (forall e, f, l :: IsLine(inputs, e, l) && IsLine(inputs, f, l) ==> e == f)
    && (forall e, l, f, w :: IsLine(inputs, e, l) && IsLine(inputs, f, w) && IsWildcard(w) && !IsWildcard(l) ==>
                               !Reaches(w, l))
  }

  lemma EntriesAreSurvivors(base: string, extra: seq<string>, e: string)
    ensures e in Entries(base, extra) <==> Survives(Split(base, '\n') + extra, e)
  {
    hide FirstSeen, Kept, Reaches, Trim, Split;
    var inputs := Split(base, '\n') + extra;
    var all := FirstSeen(inputs);
    FirstSeenFacts(inputs);
    KeptFacts(all, all);
    if e in Entries(base, extra) {
      forall s | s in inputs && IsWildcard(Trim(s)) && Reaches(Trim(s), e)
        ensures IsWildcard(e)
      {
        assert Trim(s) in all;
      }
    }
  }

  /** The lines of the entries, in order. */
  function Lines(entries: seq<string>): seq<string> {
    if entries == [] then [] else Split(entries[0], '\n') + Lines(entries[1..])
  }

  lemma {:induction false} LinesOfText(entries: seq<string>)
    requires entries != []
    ensures Split(Join(entries, '\n'), '\n') == Lines(entries)
  {
    hide Split;
    if |entries| == 1 {
      assert Lines(entries[1..]) == [];
    } else {
      LinesOfText(entries[1..]);
      SplitConcat(entries[0], Join(entries[1..], '\n'), '\n');
    }
  }

  lemma {:induction false} LinesAre(entries: seq<string>, l: string)
    ensures l in Lines(entries) <==> exists e :: e in entries && l in Split(e, '\n')
  {
    hide Split;
    if entries == [] {
    } else {
      LinesAre(entries[1..], l);
      assert entries[0] in entries && forall e :: e in entries <==> e == entries[0] || e in entries[1..];
    }
  }

  lemma DistinctConcat(a: seq<string>, b: seq<string>)
    ensures Distinct(a + b) <==> Distinct(a) && Distinct(b) && forall l :: l in a ==> l !in b
  {
    var c := a + b;
    if Distinct(c) {
      assert a == c[..|a|] && b == c[|a|..];
      forall i, j | 0 <= i < |a| && 0 <= j < |b|
        ensures a[i] != b[j]
      {
        assert a[i] == c[i] && b[j] == c[|a| + j];
      }
    }
    if Distinct(a) && Distinct(b) && forall l :: l in a ==> l !in b {
      forall i, j | 0 <= i < j < |c|
        ensures c[i] != c[j]
      {
        if i < |a| <= j {
          assert c[i] in a && c[j] == b[j - |a|];
        } else if j < |a| {
          assert c[i] == a[i] && c[j] == a[j];
        } else {
          assert c[i] == b[i - |a|] && c[j] == b[j - |a|];
        }
      }
    }
  }

  /** No line is in two entries, and none twice in one. */
  ghost predicate DistinctLines(entries: seq<string>) {
    && (forall e :: e in entries ==> Distinct(Split(e, '\n')))
    && (forall e, f, l :: e in entries && f in entries && l in Split(e, '\n') && l in Split(f, '\n') ==> e == f)
  }

  lemma DistinctLinesStep(entries: seq<string>)
    requires entries != [] && Distinct(entries)
    ensures DistinctLines(entries)
            <==> Distinct(Split(entries[0], '\n')) && DistinctLines(entries[1..])
                 && forall l :: l in Split(entries[0], '\n') ==> l !in Lines(entries[1..])
  {
    hide Split, Lines;
    var head, tail := entries[0], entries[1..];
    assert entries == [head] + tail;
    assert head !in tail;
    forall l
      ensures l in Lines(tail) <==> exists e :: e in tail && l in Split(e, '\n')
    {
      LinesAre(tail, l);
    }
  }

  lemma NothingRepeats()
    ensures DistinctLines([])
  {
  }

  lemma {:induction false} LinesDistinctIff(entries: seq<string>)
    requires Distinct(entries)
    ensures Distinct(Lines(entries)) <==> DistinctLines(entries)
  {
    hide Split, DistinctLines;
    if entries == [] {
      NothingRepeats();
    } else {
      LinesDistinctIff(entries[1..]);
      DistinctLinesStep(entries);
      DistinctConcat(Split(entries[0], '\n'), Lines(entries[1..]));
    }
  }

  lemma SharedLines(entries: seq<string>, inputs: seq<string>)
    requires forall e :: e in entries <==> Survives(inputs, e)
    ensures DistinctLines(entries)
            <==> && (forall e :: Survives(inputs, e) ==> Distinct(Split(e, '\n')))
                 && (forall e, f, l :: IsLine(inputs, e, l) && IsLine(inputs, f, l) ==> e == f)
  {
    hide Split, Survives, Distinct;
    if DistinctLines(entries) {
      forall e, f, l | IsLine(inputs, e, l) && IsLine(inputs, f, l)
        ensures e == f
      {
        assert e in entries && f in entries;
      }
    }
    if forall e, f, l :: IsLine(inputs, e, l) && IsLine(inputs, f, l) ==> e == f {
      forall e, f, l | e in entries && f in entries && l in Split(e, '\n') && l in Split(f, '\n')
        ensures e == f
      {
        assert IsLine(inputs, e, l) && IsLine(inputs, f, l);
      }
    }
  }

  /** No line is a bare name under a wildcard line. */
  ghost predicate Uncovered(lines: seq<string>) {
    forall l :: l in lines ==> !Covered(lines, l)
  }

  lemma UncoveredIff(lines: seq<string>, inputs: seq<string>)
    requires forall l :: l in lines <==> exists e :: IsLine(inputs, e, l)
    ensures Uncovered(lines)
            <==> forall e, l, f, w :: IsLine(inputs, e, l) && IsLine(inputs, f, w) && IsWildcard(w) && !IsWildcard(l)
                                      ==> !Reaches(w, l)
  {
    hide IsLine, Reaches, IsWildcard;
    if Uncovered(lines) {
      forall e, l, f, w | IsLine(inputs, e, l) && IsLine(inputs, f, w) && IsWildcard(w) && !IsWildcard(l)
        ensures !Reaches(w, l)
      {
        assert l in lines && w in lines;
      }
    }
  }

  lemma CleanIff(entries: seq<string>, inputs: seq<string>)
    requires Distinct(entries) && forall e :: e in entries <==> Survives(inputs, e)
    ensures CleanLines(inputs)
            <==> && Distinct(Lines(entries)) && Uncovered(Lines(entries))
                 && forall l :: l in Lines(entries) ==> l != "" && Trimmed(l)
  {
    hide Split, Survives, Trimmed, Reaches, Lines, IsWildcard, Uncovered, DistinctLines, Distinct;
    LinesDistinctIff(entries);
    forall l
      ensures l in Lines(entries) <==> exists e :: IsLine(inputs, e, l)
    {
      LinesAre(entries, l);
      if e :| IsLine(inputs, e, l) {
        assert e in entries;
      }
      if e :| e in entries && l in Split(e, '\n') {
        assert IsLine(inputs, e, l);
      }
    }
    SharedLines(entries, inputs);
    UncoveredIff(Lines(entries), inputs);
  }

  /** Composing the composed list again changes nothing exactly when the lines the inputs break into are clean. */
  lemma ComposeIdempotentIff(base: string, extra: seq<string>)
    ensures Compose(Compose(base, extra), []) == Compose(base, extra) <==> CleanLines(Split(base, '\n') + extra)
  {
    hide Split, Join, Entries, Lines, CleanLines, Survives, Trimmed, Covered;
    var inputs, entries := Split(base, '\n') + extra, Entries(base, extra);
    ComposeHasNoOverlap(base, extra);
    forall e
      ensures e in entries <==> Survives(inputs, e)
    {
      EntriesAreSurvivors(base, extra, e);
    }
    CleanIff(entries, inputs);
    var body := Join(entries, '\n');
    ComposeFixedIff(body);
    if entries == [] {
      JoinNothing();
      SplitEmpty();
      NoLines();
    } else {
      LinesOfText(entries);
      assert entries[0] in entries;
      NotBlank(entries, body);
    }
  }

  lemma NoLines()
    ensures Lines([]) == []
  {}

  /** A non-empty entry gives the text something beside an empty line. */
  lemma NotBlank(entries: seq<string>, body: string)
    requires entries != [] && entries[0] != "" && body == Join(entries, '\n')
    ensures Split(body, '\n') != [""]
  {
    hide Split;
    JoinSplit(body, '\n');
    JoinNothing();
  }

  const BROKEN := ["b.com", "a.com\nb.com"]

  lemma BrokenEntries()
    ensures Entries("", BROKEN) == BROKEN
  {
    hide Split;
    SplitEmpty();
    var inputs := [""] + BROKEN;
    assert inputs == ["", "b.com", "a.com\nb.com"];
    assert inputs[..2] == ["", "b.com"] && inputs[..2][..1] == [""] && [""][..0] == [];
    TrimTrims("");
    TrimTrims("b.com");
    TrimTrims("a.com\nb.com");
    hide Trim;
    assert FirstSeen([""]) == [];
    assert FirstSeen(["", "b.com"]) == ["b.com"] by { assert ["", "b.com"][..1] == [""]; }
    assert FirstSeen(inputs) == BROKEN;
    KeptFixed(BROKEN, BROKEN);
  }

  /** An entry with a line break inside it does break it: here composing again drops a repeated line. */
  lemma LineBreakBreaksIdempotence()
    ensures Compose(Compose("", BROKEN), []) != Compose("", BROKEN)
  {
    hide Split, Join, Entries, SettledLines;
    BrokenEntries();
    var body := "b.com" + ['\n'] + ("a.com" + ['\n'] + "b.com");
    JoinConcat(["b.com"], ["a.com\nb.com"], '\n');
    JoinOne("b.com");
    JoinOne("a.com\nb.com");
    assert ["b.com"] + ["a.com\nb.com"] == BROKEN;
    assert Join(BROKEN, '\n') == body;
    SplitConcat("b.com", "a.com" + ['\n'] + "b.com", '\n');
    SplitConcat("a.com", "b.com", '\n');
    SplitFree("a.com", '\n');
    SplitFree("b.com", '\n');
    var lines := ["b.com"] + (["a.com"] + ["b.com"]);
    RepeatedLine(lines);
    ComposeFixedIff(body);
  }

  lemma JoinOne(s: string)
    ensures Join([s], '\n') == s
  {
  }

  lemma RepeatedLine(lines: seq<string>)
    requires |lines| == 3 && lines[0] == lines[2]
    ensures !SettledLines(lines)
  {
    assert !Distinct(lines);
  }
}
