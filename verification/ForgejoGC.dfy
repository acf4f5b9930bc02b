/** Forgejo deploy-key garbage collection (internal/cli/creds_gc.go): discover everything, then re-list and
    delete each exact match, against a server whose every answer is arbitrary. */
module ForgejoGC {
  import opened Wrappers

  const MAX_PAGES: nat := 10_000
  const NOT_FOUND := 404

  datatype Target = Target(owner: string, repo: string)

  /** A deploy key; the id is the JSON number's text. */
  datatype Key = Key(id: string, title: string)

  /** A reply: no response at all, or a status with a body that may not parse as a key list. */
  datatype Reply = Transport | Response(status: int, keys: Option<seq<Key>>)

  datatype Listing = Complete(keys: seq<Key>) | NotThere | Failed(errorClass: string)

  datatype Action = Absent | Errored | DryRun | Deleted

  datatype Row = Row(target: Target, title: string, action: Action, count: nat, errorClass: string)

  function Title(t: Target): string { "safeslop-" + t.owner + "-" + t.repo }

  predicate IsOk(status: int) { 200 <= status < 300 }

  // ---------------------------------------------------------------------------------------------
  // Requested repositories

  predicate ComponentChar(c: char) {
    'A' <= c <= 'Z' || 'a' <= c <= 'z' || '0' <= c <= '9' || c == '.' || c == '_' || c == '-'
  }

  predicate IsComponent(s: string) {
    s != "" && forall c :: c in s ==> ComponentChar(c)
  }

  predicate DistinctTargets(ts: seq<Target>) {
    forall i, j :: 0 <= i < j < |ts| ==> ts[i] != ts[j]
  }

  /** A requested repository, already cut at its slash: None when it had not exactly one. */
  type Request = Option<Target>

  predicate ValidRequest(linked: string -> bool, r: Request) {
    r.Some? && IsComponent(r.value.owner) && IsComponent(r.value.repo) && linked(r.value.owner)
  }

  /** The k-th request is the first of this repository. */
  predicate FirstMention(requests: seq<Request>, k: nat, t: Target) {
    k < |requests| && requests[k] == Some(t) && Some(t) !in requests[..k]
  }

  ghost predicate InMentionOrder(requests: seq<Request>, targets: seq<Target>) {
    forall a: nat, b: nat, k: nat, l: nat ::
      0 <= a < b < |targets| && FirstMention(requests, k, targets[a]) && FirstMention(requests, l, targets[b]) ==> k < l
  }

  lemma {:induction false} OrderKept(requests: seq<Request>, targets: seq<Target>, r: Request)
    requires InMentionOrder(requests, targets) && (forall t :: t in targets ==> Some(t) in requests) && r.Some?
    ensures InMentionOrder(requests + [r], targets)
    ensures r !in requests ==> InMentionOrder(requests + [r], targets + [r.value])
  {
    var more := requests + [r];
    assert more[..|requests|] == requests;
    forall t, k: nat | FirstMention(more, k, t) && Some(t) in requests
      ensures FirstMention(requests, k, t)
    {
      if k < |requests| {
        assert more[..k] == requests[..k];
      }
    }
    forall l: nat | r !in requests && FirstMention(more, l, r.value)
      ensures l == |requests|
    {
    }
  }

  /** forgejoGCTargets: every request valid and linked, duplicates dropped, first mentions in order. */
  method Targets(linked: string -> bool, requests: seq<Request>) returns (ok: bool, targets: seq<Target>)
    ensures ok <==> requests != [] && forall r :: r in requests ==> ValidRequest(linked, r)
    ensures ok ==> DistinctTargets(targets) && forall t :: t in targets <==> Some(t) in requests
    ensures ok ==> InMentionOrder(requests, targets)
  {
    targets := [];
    if |requests| == 0 {
      return false, [];
    }
    for i := 0 to |requests|
      invariant forall k :: 0 <= k < i ==> ValidRequest(linked, requests[k])
      invariant DistinctTargets(targets)
      invariant forall t :: t in targets <==> Some(t) in requests[..i]
      invariant InMentionOrder(requests[..i], targets)
    {
      hide ValidRequest, InMentionOrder;
      var r := requests[i];
      if !ValidRequest(linked, r) {
        return false, [];
      }
      RequestNames(linked, r);
      assert requests[..i + 1] == requests[..i] + [r];
      OrderKept(requests[..i], targets, r);
      if r.value !in targets {
        targets := targets + [r.value];
      }
    }
    assert requests[..|requests|] == requests;
    return true, targets;
  }

  lemma {:induction false} RequestNames(linked: string -> bool, r: Request)
    requires ValidRequest(linked, r)
    ensures r.Some?
  {
  }

  // ---------------------------------------------------------------------------------------------
  // Complete listings

  /** The first key of each id, in order. */
  function FirstOfEachId(keys: seq<Key>): seq<Key> {
    if keys == [] then []
    else
      var front, last := FirstOfEachId(keys[..|keys| - 1]), keys[|keys| - 1];
      if exists k :: k in front && k.id == last.id then front else front + [last]
  }

  predicate DistinctIds(keys: seq<Key>) {
    forall i, j :: 0 <= i < j < |keys| ==> keys[i].id != keys[j].id
  }

  lemma {:induction false} FirstOfEachIdFacts(keys: seq<Key>)
    ensures DistinctIds(FirstOfEachId(keys))
    ensures forall k :: k in FirstOfEachId(keys) ==> k in keys
  {
    if keys == [] {
    } else {
      FirstOfEachIdFacts(keys[..|keys| - 1]);
      assert keys == keys[..|keys| - 1] + [keys[|keys| - 1]];
    }
  }

  /** Every id stays represented. */
  lemma {:induction false} EveryIdKept(keys: seq<Key>, i: nat) returns (f: Key)
    requires i < |keys|
    ensures f in FirstOfEachId(keys) && f.id == keys[i].id
  {
    var n := |keys| - 1;
    if i < n {
      f := EveryIdKept(keys[..n], i);
    } else if k :| k in FirstOfEachId(keys[..n]) && k.id == keys[n].id {
      f := k;
    } else {
      f := keys[n];
    }
  }

  predicate FirstWithId(keys: seq<Key>, i: nat)
    requires i < |keys|
  {
    forall j :: 0 <= j < i ==> keys[j].id != keys[i].id
  }

  /** Some key of the list is k, and the first of its id. */
  predicate HasFirst(keys: seq<Key>, k: Key) {
    exists i :: 0 <= i < |keys| && keys[i] == k && FirstWithId(keys, i)
  }

  lemma {:induction false} FirstMore(keys: seq<Key>, last: Key, k: Key)
    ensures HasFirst(keys + [last], k) <==> HasFirst(keys, k) || (k == last && forall e :: e in keys ==> e.id != last.id)
  {
    var more := keys + [last];
    assert forall i :: 0 <= i < |keys| ==> more[i] == keys[i] && (FirstWithId(more, i) <==> FirstWithId(keys, i));
    assert more[|keys|] == last;
    assert FirstWithId(more, |keys|) <==> forall e :: e in keys ==> e.id != last.id;
  }

  lemma {:induction false} IdKept(keys: seq<Key>, id: string)
    ensures (exists f :: f in FirstOfEachId(keys) && f.id == id) <==> exists e :: e in keys && e.id == id
  {
    hide FirstOfEachId;
    FirstOfEachIdFacts(keys);
    if e :| e in keys && e.id == id {
      var i :| 0 <= i < |keys| && keys[i] == e;
      var f := EveryIdKept(keys, i);
    }
  }

  /** What is kept is exactly each key that is the first of its id. */
  lemma {:induction false} KeptIsFirst(keys: seq<Key>, k: Key)
    ensures k in FirstOfEachId(keys) <==> HasFirst(keys, k)
  {
    if keys == [] {
    } else {
      var front, last := keys[..|keys| - 1], keys[|keys| - 1];
      assert keys == front + [last];
      hide FirstOfEachId, HasFirst;
      KeptIsFirst(front, k);
      FirstOfMore(front, last);
      FirstMore(front, last, k);
      IdKept(front, last.id);
    }
  }

  predicate BadKey(k: Key) { k.title != "" && (k.id == "" || k.id == "0") }

  /** A page that was read: whose keys it asked for, which page, and what came. */
  datatype Page = Page(target: Target, number: nat, keys: seq<Key>)

  function Concat(pages: seq<Page>): seq<Key> {
    if pages == [] then [] else Concat(pages[..|pages| - 1]) + pages[|pages| - 1].keys
  }

  /** The pages of one target, from the first on without a gap. */
  predicate PagesOf(target: Target, pages: seq<Page>) {
    forall i :: 0 <= i < |pages| ==> pages[i].target == target && pages[i].number == i + 1 && pages[i].keys != []
  }

  /** A listing is complete only over consecutive non-empty pages of the target, ended by an empty one. */
  predicate ListingOf(target: Target, pages: seq<Page>, keys: seq<Key>) {
    && |pages| < MAX_PAGES && PagesOf(target, pages)
    && keys == FirstOfEachId(Concat(pages))
    && forall k :: k in Concat(pages) ==> !BadKey(k)
  }

  method Get(target: Target, page: nat) returns (reply: Reply, ghost asked: (Target, nat))
    ensures asked == (target, page)
  {
    reply := *;
    asked := (target, page);
  }

  lemma {:induction false} FirstOfMore(keys: seq<Key>, k: Key)
    ensures FirstOfEachId(keys + [k]) == (if exists f :: f in FirstOfEachId(keys) && f.id == k.id then FirstOfEachId(keys)
                                          else FirstOfEachId(keys) + [k])
  {
    assert (keys + [k])[..|keys + [k]| - 1] == keys;
  }

  /** One page into the list so far. */
  method TakePage(before: seq<Key>, page: seq<Key>, ghost sofar: seq<Key>) returns (ok: bool, keys: seq<Key>)
    requires before == FirstOfEachId(sofar)
    ensures ok <==> forall k :: k in page ==> !BadKey(k)
    ensures ok ==> keys == FirstOfEachId(sofar + page)
  {
    hide FirstOfEachId;
    keys := before;
    assert sofar + page[..0] == sofar;
    for i := 0 to |page|
      invariant forall k :: 0 <= k < i ==> !BadKey(page[k])
      invariant keys == FirstOfEachId(sofar + page[..i])
    {
      if BadKey(page[i]) {
        return false, keys;
      }
      assert sofar + page[..i + 1] == sofar + page[..i] + [page[i]];
      FirstOfMore(sofar + page[..i], page[i]);
      if !exists k :: k in keys && k.id == page[i].id {
        keys := keys + [page[i]];
      }
    }
    assert page[..|page|] == page;
    return true, keys;
  }

  /** What the answer to the last page asked for makes of a listing: done on an empty page, not there on 404, and
      failed, with its class, exactly on no response, another status, an unreadable or invalid page, or no end. */
  predicate Concludes(r: Listing, pages: nat, last: Reply) {
    match last
    case Transport => r == Failed("transport")
    case Response(status, keys) =>
      if status == NOT_FOUND then r == NotThere
      else if !(200 <= status <= 299) then r == Failed("http")
      else match keys
           case None => r == Failed("invalid-response")
           case Some(page) =>
             if page == [] then r.Complete?
             else if exists k :: k in page && k.title != "" && (k.id == "" || k.id == "0") then r == Failed("invalid-response")
             else r == Failed("pagination") && pages == MAX_PAGES
  }

  lemma {:induction false} NothingListed(target: Target)
    ensures PagesOf(target, []) && Concat([]) == [] && FirstOfEachId([]) == []
  {
  }

  lemma {:induction false} ListingEnds(target: Target, pages: seq<Page>)
    requires |pages| < MAX_PAGES && PagesOf(target, pages) && forall k :: k in Concat(pages) ==> !BadKey(k)
    ensures ListingOf(target, pages, FirstOfEachId(Concat(pages))) && DistinctIds(FirstOfEachId(Concat(pages)))
  {
    hide FirstOfEachId;
    FirstOfEachIdFacts(Concat(pages));
  }

  lemma {:induction false} PageRead(target: Target, pages: seq<Page>, page: Page)
    requires PagesOf(target, pages) && page.target == target && page.number == |pages| + 1 && page.keys != []
    ensures PagesOf(target, pages + [page]) && Concat(pages + [page]) == Concat(pages) + page.keys
  {
    assert (pages + [page])[..|pages|] == pages;
  }

  /** listForgejoGCKeys */
  method ListKeys(target: Target) returns (r: Listing, ghost pages: seq<Page>, ghost last: Reply)
    ensures PagesOf(target, pages) && Concludes(r, |pages|, last)
    ensures r.Complete? ==> ListingOf(target, pages, r.keys) && DistinctIds(r.keys)
  {
    pages, last := [], Transport;
    var keys: seq<Key> := [];
    hide FirstOfEachId, PagesOf, Concat, ListingOf, DistinctIds;
    NothingListed(target);
    for page := 1 to MAX_PAGES + 1
      invariant |pages| == page - 1
      invariant PagesOf(target, pages) && keys == FirstOfEachId(Concat(pages))
      invariant forall k :: k in Concat(pages) ==> !BadKey(k)
      invariant page > 1 ==> last.Response? && IsOk(last.status) && last.keys.Some? && last.keys.value != []
                             && forall k :: k in last.keys.value ==> !BadKey(k)
    {
      var reply, asked := Get(target, page);
      last := reply;
      if reply.Transport? {
        return Failed("transport"), pages, last;
      }
      if reply.status == NOT_FOUND {
        return NotThere, pages, last;
      }
      if !IsOk(reply.status) {
        return Failed("http"), pages, last;
      }
      if reply.keys.None? {
        return Failed("invalid-response"), pages, last;
      }
      if |reply.keys.value| == 0 {
        ListingEnds(target, pages);
        return Complete(keys), pages, last;
      }
      var ok: bool;
      ok, keys := TakePage(keys, reply.keys.value, Concat(pages));
      if !ok {
        return Failed("invalid-response"), pages, last;
      }
      ghost var read := Page(asked.0, asked.1, reply.keys.value);
      PageRead(target, pages, read);
      pages := pages + [read];
    }
    return Failed("pagination"), pages, last;
  }

  // ---------------------------------------------------------------------------------------------
  // Discovery

  /** A matching key and the report row that stands for it. */
  datatype Candidate = Candidate(target: Target, key: Key, row: nat)

  function Matches(keys: seq<Key>, title: string): seq<Key> {
    if keys == [] then []
    else
      var front, last := Matches(keys[..|keys| - 1], title), keys[|keys| - 1];
      if last.title == title then front + [last] else front
  }

  function Found(t: Target, count: nat): Row { Row(t, Title(t), DryRun, count, "") }

  function RowsFor(t: Target, l: Listing): seq<Row> {
    match l
    case NotThere => [Row(t, Title(t), Absent, 0, "")]
    case Failed(errorClass) => [Row(t, Title(t), Errored, 0, errorClass)]
    case Complete(keys) =>
      var n := |Matches(keys, Title(t))|;
      if n == 0 then [Found(t, 0)] else seq(n, i => Found(t, 1))
  }

  function CandidatesFor(t: Target, l: Listing, base: nat): seq<Candidate> {
    if l.Complete? then
      var m := Matches(l.keys, Title(t));
      seq(|m|, i requires 0 <= i < |m| => Candidate(t, m[i], base + i))
    else []
  }

  function Rows(targets: seq<Target>, listings: seq<Listing>): seq<Row>
    requires |targets| == |listings|
  {
    if targets == [] then []
    else
      var n := |targets| - 1;
      Rows(targets[..n], listings[..n]) + RowsFor(targets[n], listings[n])
  }

  function Candidates(targets: seq<Target>, listings: seq<Listing>): seq<Candidate>
    requires |targets| == |listings|
  {
    if targets == [] then []
    else
      var n := |targets| - 1;
      Candidates(targets[..n], listings[..n])
      + CandidatesFor(targets[n], listings[n], |Rows(targets[..n], listings[..n])|)
  }

  /** One listing per target, each read from that target's pages. */
  predicate Discovered(targets: seq<Target>, listings: seq<Listing>, scans: seq<seq<Page>>) {
    && |listings| == |scans| == |targets|
    && forall i :: 0 <= i < |targets| ==>
                     && PagesOf(targets[i], scans[i])
                     && (listings[i].Complete? ==>
                           ListingOf(targets[i], scans[i], listings[i].keys) && DistinctIds(listings[i].keys))
  }

  lemma {:induction false} DiscoveredDistinct(targets: seq<Target>, listings: seq<Listing>, scans: seq<seq<Page>>)
    requires Discovered(targets, listings, scans)
    ensures forall l :: l in listings && l.Complete? ==> DistinctIds(l.keys)
  {
  }

  /** The rows and candidates of one complete listing. */
  method Collect(t: Target, keys: seq<Key>, base: nat) returns (rows: seq<Row>, found: seq<Candidate>)
    ensures rows == RowsFor(t, Complete(keys)) && found == CandidatesFor(t, Complete(keys), base)
  {
    rows, found := [], [];
    var matched := false;
    for i := 0 to |keys|
      invariant matched <==> Matches(keys[..i], Title(t)) != []
      invariant |rows| == |found| == |Matches(keys[..i], Title(t))|
      invariant forall k :: 0 <= k < |rows| ==> rows[k] == Found(t, 1)
      invariant forall k :: 0 <= k < |found| ==> found[k] == Candidate(t, Matches(keys[..i], Title(t))[k], base + k)
    {
      assert keys[..i + 1][..i] == keys[..i];
      if keys[i].title == Title(t) {
        matched := true;
        found := found + [Candidate(t, keys[i], base + |rows|)];
        rows := rows + [Found(t, 1)];
      }
    }
    assert keys[..|keys|] == keys;
    if !matched {
      rows := [Found(t, 0)];
    }
  }

  lemma {:induction false} DiscoverStep(targets: seq<Target>, listings: seq<Listing>, i: nat, listing: Listing)
    requires i == |listings| < |targets|
    ensures Rows(targets[..i + 1], listings + [listing]) == Rows(targets[..i], listings) + RowsFor(targets[i], listing)
    ensures Candidates(targets[..i + 1], listings + [listing])
            == Candidates(targets[..i], listings) + CandidatesFor(targets[i], listing, |Rows(targets[..i], listings)|)
  {
    hide RowsFor, CandidatesFor;
    assert targets[..i + 1][..i] == targets[..i] && (listings + [listing])[..i] == listings;
  }

  lemma {:induction false} NothingFound(targets: seq<Target>)
    ensures Rows(targets[..0], []) == [] && Candidates(targets[..0], []) == []
  {
  }

  method Discover(targets: seq<Target>)
    returns (rows: seq<Row>, candidates: seq<Candidate>, failed: bool, ghost listings: seq<Listing>, ghost scans: seq<seq<Page>>)
    ensures Discovered(targets, listings, scans)
    ensures rows == Rows(targets, listings) && candidates == Candidates(targets, listings)
    ensures failed <==> exists l :: l in listings && l.Failed?
  {
    hide DistinctIds, RowsFor, CandidatesFor, Rows, Candidates, ListingOf, PagesOf;
    rows, candidates, failed, listings, scans := [], [], false, [], [];
    NothingFound(targets);
    for i := 0 to |targets|
      invariant |listings| == i && Discovered(targets[..i], listings, scans)
      invariant rows == Rows(targets[..i], listings) && candidates == Candidates(targets[..i], listings)
      invariant failed <==> exists l :: l in listings && l.Failed?
    {
      var listing, pages, _ := ListKeys(targets[i]);
      DiscoverStep(targets, listings, i, listing);
      ghost var base := |rows|;
      match listing {
        case Complete(keys) =>
          var more, found := Collect(targets[i], keys, |rows|);
          rows, candidates := rows + more, candidates + found;
        case NotThere =>
          rows := rows + [Row(targets[i], Title(targets[i]), Absent, 0, "")];
        case Failed(errorClass) =>
          rows := rows + [Row(targets[i], Title(targets[i]), Errored, 0, errorClass)];
          failed := true;
      }
      OtherRows(targets[i], listing, base);
      listings := listings + [listing];
      scans := scans + [pages];
    }
    assert targets[..|targets|] == targets;
  }

  lemma {:induction false} OtherRows(t: Target, l: Listing, base: nat)
    ensures l.NotThere? ==> RowsFor(t, l) == [Row(t, Title(t), Absent, 0, "")]
    ensures l.Failed? ==> RowsFor(t, l) == [Row(t, Title(t), Errored, 0, l.errorClass)]
    ensures !l.Complete? ==> CandidatesFor(t, l, base) == []
  {
  }

  // ---------------------------------------------------------------------------------------------
  // Deletion

  /** A DELETE as it was sent, and its reply. */
  datatype Sent = Sent(target: Target, id: string, reply: Reply)

  /** What happened to one candidate: the re-list, the pages it read, and the DELETE if one was sent. */
  datatype Step = Step(candidate: Candidate, relist: Listing, pages: seq<Page>, sent: Option<Sent>)

  /** A DELETE is sent exactly when the re-list just made, of the same repository, still holds the candidate's id
      with its exact title; and it names that repository and id. */
  predicate Guarded(s: Step) {
    && PagesOf(s.candidate.target, s.pages)
    && (s.relist.Complete? ==> ListingOf(s.candidate.target, s.pages, s.relist.keys))
    && (s.sent.Some? <==> s.relist.Complete? && s.candidate.key in s.relist.keys)
    && (s.sent.Some? ==> s.sent.value.target == s.candidate.target && s.sent.value.id == s.candidate.key.id)
  }

  predicate StepFailed(s: Step) {
    || s.relist.Failed?
    || (s.sent.Some? && (s.sent.value.reply.Transport?
                         || (s.sent.value.reply.status != NOT_FOUND && !IsOk(s.sent.value.reply.status))))
  }

  /** The row a step earns. */
  function Earned(row: Row, s: Step): Row {
    match s.relist
    case NotThere => row.(action := Absent, count := 0)
    case Failed(errorClass) => row.(action := Errored, count := 0, errorClass := errorClass)
    case Complete(_) =>
      match s.sent
      case None => row.(action := Absent, count := 0)
      case Some(Sent(_, _, Transport)) => row.(action := Errored, count := 0, errorClass := "transport")
      case Some(Sent(_, _, Response(status, _))) =>
        if status == NOT_FOUND then row.(action := Absent, count := 0)
        else if !IsOk(status) then row.(action := Errored, count := 0, errorClass := "http")
        else row.(action := Deleted, count := 1)
  }

  function Settled(rows: seq<Row>, steps: seq<Step>): (settled: seq<Row>)
    ensures |settled| == |rows|
  {
    if steps == [] then rows
    else
      var front, s := Settled(rows, steps[..|steps| - 1]), steps[|steps| - 1];
      if s.candidate.row < |rows| then front[s.candidate.row := Earned(front[s.candidate.row], s)] else front
  }

  method HasExactKey(keys: seq<Key>, id: string, title: string) returns (found: bool)
    ensures found <==> Key(id, title) in keys
  {
    for i := 0 to |keys|
      invariant Key(id, title) !in keys[..i]
    {
      if keys[i].id == id && keys[i].title == title {
        return true;
      }
    }
    assert keys[..|keys|] == keys;
    return false;
  }

  method Delete(target: Target, id: string) returns (reply: Reply, ghost sent: Sent)
    ensures sent == Sent(target, id, reply)
  {
    reply := *;
    sent := Sent(target, id, reply);
  }

  /** Re-list one candidate and delete it if it is still there; the row follows. */
  method DeleteOne(c: Candidate, row: Row) returns (earned: Row, failed: bool, ghost step: Step)
    ensures step.candidate == c && Guarded(step) && earned == Earned(row, step) && (failed <==> StepFailed(step))
  {
    hide PagesOf, ListingOf, DistinctIds;
    var listing, pages, _ := ListKeys(c.target);
    step := Step(c, listing, pages, None);
    match listing {
      case NotThere => return row.(action := Absent, count := 0), false, step;
      case Failed(errorClass) => return row.(action := Errored, count := 0, errorClass := errorClass), true, step;
      case Complete(keys) =>
        var exact := HasExactKey(keys, c.key.id, c.key.title);
        if !exact {
          return row.(action := Absent, count := 0), false, step;
        }
        var reply, sent := Delete(c.target, c.key.id);
        step := Step(c, listing, pages, Some(sent));
        if reply.Transport? {
          return row.(action := Errored, count := 0, errorClass := "transport"), true, step;
        }
        if reply.status == NOT_FOUND {
          return row.(action := Absent, count := 0), false, step;
        }
        if !IsOk(reply.status) {
          return row.(action := Errored, count := 0, errorClass := "http"), true, step;
        }
        return row.(action := Deleted, count := 1), false, step;
    }
  }

  lemma {:induction false} SettledNone(rows: seq<Row>)
    ensures Settled(rows, []) == rows
  {
  }

  lemma {:induction false} SettledMore(rows: seq<Row>, steps: seq<Step>, s: Step)
    requires s.candidate.row < |rows|
    ensures var front := Settled(rows, steps);
            Settled(rows, steps + [s]) == front[s.candidate.row := Earned(front[s.candidate.row], s)]
  {
    hide Earned;
    assert (steps + [s])[..|steps + [s]| - 1] == steps;
  }

  datatype Report = Report(rows: seq<Row>, ok: bool)

  /** runCredsGCWithClient after its arguments were accepted: nothing is deleted in a dry run or when any
      discovery failed; otherwise each candidate gets exactly one guarded step and its row follows it. */
  method RunGC(targets: seq<Target>, dryRun: bool)
    returns (report: Report, ghost listings: seq<Listing>, ghost scans: seq<seq<Page>>, ghost steps: seq<Step>)
    ensures Discovered(targets, listings, scans)
    ensures report.rows == Settled(Rows(targets, listings), steps)
    ensures var failed := exists l :: l in listings && l.Failed?;
            && (dryRun || failed ==> steps == [])
            && (!dryRun && !failed ==>
                  && |steps| == |Candidates(targets, listings)|
                  && forall i :: 0 <= i < |steps| ==>
                                   steps[i].candidate == Candidates(targets, listings)[i] && Guarded(steps[i]))
            && (report.ok <==> !failed && forall s :: s in steps ==> !StepFailed(s))
  {
    hide Guarded, StepFailed, Earned, Candidates, Rows, PagesOf, ListingOf, DistinctIds, Settled, OwnRows;
    var rows, candidates, failed := [], [], false;
    rows, candidates, failed, listings, scans := Discover(targets);
    steps := [];
    SettledNone(rows);
    if failed || dryRun {
      return Report(rows, !failed), listings, scans, [];
    }
    CandidatesOwnRows(targets, listings);
    ghost var first := rows;
    var deleteFailed := false;
    for i := 0 to |candidates|
      invariant |steps| == i && rows == Settled(first, steps) && |rows| == |first|
      invariant forall k :: 0 <= k < i ==> steps[k].candidate == candidates[k] && Guarded(steps[k])
      invariant deleteFailed <==> exists s :: s in steps && StepFailed(s)
    {
      var c := candidates[i];
      assert c.row < |rows| by {
        OwnRowInside(Candidates(targets, listings), first, i);
      }
      var earned, bad, step := DeleteOne(c, rows[c.row]);
      SettledMore(first, steps, step);
      rows := rows[c.row := earned];
      deleteFailed := deleteFailed || bad;
      steps := steps + [step];
    }
    return Report(rows, !deleteFailed), listings, scans, steps;
  }

  // ---------------------------------------------------------------------------------------------
  // Trace safety

  /** Each candidate has its own found row, in order. */
  predicate OwnRows(cs: seq<Candidate>, rows: seq<Row>) {
    && (forall i :: 0 <= i < |cs| ==> cs[i].row < |rows| && rows[cs[i].row] == Found(cs[i].target, 1))
    && (forall i, j :: 0 <= i < j < |cs| ==> cs[i].row < cs[j].row)
  }

  lemma {:induction false} OwnRowInside(cs: seq<Candidate>, rows: seq<Row>, i: nat)
    requires OwnRows(cs, rows) && i < |cs|
    ensures cs[i].row < |rows|
  {
  }

  lemma {:induction false} OwnRowsAppend(cs: seq<Candidate>, rows: seq<Row>, t: Target, l: Listing)
    requires OwnRows(cs, rows)
    ensures OwnRows(cs + CandidatesFor(t, l, |rows|), rows + RowsFor(t, l))
  {
    var more, earned := CandidatesFor(t, l, |rows|), RowsFor(t, l);
    assert forall i :: 0 <= i < |more| ==> i < |earned| && more[i].row == |rows| + i && earned[i] == Found(more[i].target, 1);
    hide CandidatesFor, RowsFor;
  }

  lemma {:induction false} CandidatesOwnRows(targets: seq<Target>, listings: seq<Listing>)
    requires |targets| == |listings|
    ensures OwnRows(Candidates(targets, listings), Rows(targets, listings))
  {
    if targets == [] {
    } else {
      var n := |targets| - 1;
      CandidatesOwnRows(targets[..n], listings[..n]);
      OwnRowsAppend(Candidates(targets[..n], listings[..n]), Rows(targets[..n], listings[..n]), targets[n], listings[n]);
    }
  }

  lemma {:induction false} MatchesAre(keys: seq<Key>, title: string)
    ensures forall k :: k in Matches(keys, title) <==> k in keys && k.title == title
    ensures DistinctIds(keys) ==> DistinctIds(Matches(keys, title))
  {
    if keys == [] {
    } else {
      MatchesAre(keys[..|keys| - 1], title);
      assert keys == keys[..|keys| - 1] + [keys[|keys| - 1]];
    }
  }

  /** Every candidate is a key of a requested repository that its complete discovery listed under the exact title. */
  lemma {:induction false} CandidatesAreExact(targets: seq<Target>, listings: seq<Listing>, i: nat) returns (t: nat)
    requires |targets| == |listings| && i < |Candidates(targets, listings)|
    ensures t < |targets| && Candidates(targets, listings)[i].target == targets[t] && listings[t].Complete?
    ensures var key := Candidates(targets, listings)[i].key;
            key in listings[t].keys && key.title == Title(targets[t]) && key in Matches(listings[t].keys, Title(targets[t]))
  {
    var n := |targets| - 1;
    var front := Candidates(targets[..n], listings[..n]);
    if i < |front| {
      t := CandidatesAreExact(targets[..n], listings[..n], i);
    } else {
      t := n;
      MatchesAre(listings[n].keys, Title(targets[n]));
    }
  }

  /** No two of them name the same key id of the same repository. */
  predicate Unrepeated(cs: seq<Candidate>) {
    forall i, j :: 0 <= i < j < |cs| ==> cs[i].target != cs[j].target || cs[i].key.id != cs[j].key.id
  }

  lemma {:induction false} UnrepeatedAppend(cs: seq<Candidate>, t: Target, l: Listing, base: nat)
    requires Unrepeated(cs) && (forall c :: c in cs ==> c.target != t)
    requires l.Complete? ==> DistinctIds(l.keys)
    ensures Unrepeated(cs + CandidatesFor(t, l, base))
  {
    var more := CandidatesFor(t, l, base);
    if l.Complete? {
      MatchesAre(l.keys, Title(t));
    }
    assert forall i :: 0 <= i < |more| ==> more[i].target == t && more[i].key == Matches(l.keys, Title(t))[i];
    hide CandidatesFor, Matches;
  }

  lemma {:induction false} CandidatesDistinct(targets: seq<Target>, listings: seq<Listing>)
    requires |targets| == |listings| && DistinctTargets(targets)
    requires forall l :: l in listings && l.Complete? ==> DistinctIds(l.keys)
    ensures Unrepeated(Candidates(targets, listings))
  {
    if targets == [] {
    } else {
      var n := |targets| - 1;
      var front := Candidates(targets[..n], listings[..n]);
      CandidatesDistinct(targets[..n], listings[..n]);
      assert listings[n] in listings;
      forall i | 0 <= i < |front|
        ensures front[i].target != targets[n]
      {
        var t := CandidatesAreExact(targets[..n], listings[..n], i);
      }
      UnrepeatedAppend(front, targets[n], listings[n], |Rows(targets[..n], listings[..n])|);
    }
  }

  /** Trace safety: a DELETE names a requested repository and a key whose id and exact title were in that
      repository's complete discovery and again in the re-list made just before; no key gets two. */
  lemma {:induction false} DeletesAreSafe(targets: seq<Target>, listings: seq<Listing>, scans: seq<seq<Page>>,
                                          steps: seq<Step>, i: nat, j: nat)
    returns (t: nat)
    requires DistinctTargets(targets) && Discovered(targets, listings, scans)
    requires |steps| == |Candidates(targets, listings)|
    requires forall k :: 0 <= k < |steps| ==> steps[k].candidate == Candidates(targets, listings)[k] && Guarded(steps[k])
    requires i < |steps| && j < |steps| && steps[i].sent.Some? && steps[j].sent.Some?
    ensures t < |targets| && steps[i].sent.value.target == targets[t]
    ensures listings[t].Complete? && Key(steps[i].sent.value.id, Title(targets[t])) in listings[t].keys
    ensures steps[i].relist.Complete? && Key(steps[i].sent.value.id, Title(targets[t])) in steps[i].relist.keys
    ensures i != j ==> steps[i].sent.value.target != steps[j].sent.value.target
                       || steps[i].sent.value.id != steps[j].sent.value.id
  {
    DiscoveredDistinct(targets, listings, scans);
    hide Candidates, Discovered, ListingOf, PagesOf;
    CandidatesDistinct(targets, listings);
    t := CandidatesAreExact(targets, listings, i);
    var key := steps[i].candidate.key;
    assert key == Key(key.id, key.title);
  }

  lemma {:induction false} SettledRow(rows: seq<Row>, steps: seq<Step>, i: nat)
    requires i < |steps| && steps[i].candidate.row < |rows|
    requires forall a, b :: 0 <= a < b < |steps| ==> steps[a].candidate.row != steps[b].candidate.row
    ensures Settled(rows, steps)[steps[i].candidate.row] == Earned(rows[steps[i].candidate.row], steps[i])
    decreases |steps|
  {
    var n := |steps| - 1;
    if i < n {
      SettledRow(rows, steps[..n], i);
    } else {
      UntouchedRow(rows, steps[..n], steps[n].candidate.row);
    }
  }

  lemma {:induction false} UntouchedRow(rows: seq<Row>, steps: seq<Step>, r: nat)
    requires r < |rows| && forall s :: s in steps ==> s.candidate.row != r
    ensures Settled(rows, steps)[r] == rows[r]
  {
    if steps == [] {
    } else {
      UntouchedRow(rows, steps[..|steps| - 1], r);
      assert steps[|steps| - 1] in steps;
    }
  }

  /** Each candidate's report row ends matching its own step, and says deleted exactly when its DELETE succeeded.
      (CandidatesOwnRows: discovery gives every candidate such a row.) */
  lemma {:induction false} RowsTellTheTruth(cs: seq<Candidate>, rows: seq<Row>, steps: seq<Step>, i: nat)
    requires OwnRows(cs, rows) && i < |steps| == |cs|
    requires forall k :: 0 <= k < |steps| ==> steps[k].candidate == cs[k] && Guarded(steps[k])
    ensures var row := Settled(rows, steps)[cs[i].row];
            && row == Earned(Found(cs[i].target, 1), steps[i]) && row.target == cs[i].target
            && (row.action.Deleted? <==>
                  steps[i].sent.Some? && steps[i].sent.value.reply.Response? && IsOk(steps[i].sent.value.reply.status))
            && (row.action.Errored? <==> StepFailed(steps[i]))
            && row.title == Title(row.target) && row.count == (if row.action.Deleted? then 1 else 0)
            && (row.action.Absent? <==> !row.action.Deleted? && !row.action.Errored?)
  {
    SettledRow(rows, steps, i);
    hide Settled;
  }

  // ---------------------------------------------------------------------------------------------
  // Nothing is missed

  /** The rows and the candidates of one target sit together, and nothing elsewhere is about it. */
  predicate PartOf(targets: seq<Target>, listings: seq<Listing>, t: nat, lo: nat, clo: nat)
    requires t < |targets| == |listings|
  {
    var rows, cs := Rows(targets, listings), Candidates(targets, listings);
    var own, mine := RowsFor(targets[t], listings[t]), CandidatesFor(targets[t], listings[t], lo);
    && lo + |own| <= |rows| && rows[lo..lo + |own|] == own
    && clo + |mine| <= |cs| && cs[clo..clo + |mine|] == mine
    && (forall r :: 0 <= r < |rows| && !(lo <= r < lo + |own|) ==> rows[r].target != targets[t])
    && (forall i :: 0 <= i < |cs| && !(clo <= i < clo + |mine|) ==> cs[i].target != targets[t])
  }

  lemma {:induction false} OwnParts(t: Target, l: Listing, base: nat)
    ensures forall r :: r in RowsFor(t, l) ==> r.target == t
    ensures forall c :: c in CandidatesFor(t, l, base) ==> c.target == t
  {
  }

  lemma {:induction false} AllTargeted(targets: seq<Target>, listings: seq<Listing>)
    requires |targets| == |listings|
    ensures forall r :: r in Rows(targets, listings) ==> r.target in targets
    ensures forall c :: c in Candidates(targets, listings) ==> c.target in targets
  {
    hide RowsFor, CandidatesFor;
    if targets == [] {
    } else {
      var n := |targets| - 1;
      AllTargeted(targets[..n], listings[..n]);
      OwnParts(targets[n], listings[n], |Rows(targets[..n], listings[..n])|);
    }
  }

  lemma {:induction false} LastNotBefore(targets: seq<Target>, n: nat)
    requires DistinctTargets(targets) && n < |targets|
    ensures targets[n] !in targets[..n]
  {
  }

  lemma {:induction false} PartHere(targets: seq<Target>, listings: seq<Listing>)
    requires |targets| == |listings| > 0 && DistinctTargets(targets)
    ensures var n := |targets| - 1;
            PartOf(targets, listings, n, |Rows(targets[..n], listings[..n])|, |Candidates(targets[..n], listings[..n])|)
  {
    hide RowsFor, CandidatesFor;
    var n := |targets| - 1;
    var rows, cs := Rows(targets[..n], listings[..n]), Candidates(targets[..n], listings[..n]);
    AllTargeted(targets[..n], listings[..n]);
    LastNotBefore(targets, n);
    var own, mine := RowsFor(targets[n], listings[n]), CandidatesFor(targets[n], listings[n], |rows|);
    assert (rows + own)[|rows|..|rows| + |own|] == own && (cs + mine)[|cs|..|cs| + |mine|] == mine;
  }

  lemma {:induction false} PartGrows(targets: seq<Target>, listings: seq<Listing>, t: nat, lo: nat, clo: nat)
    requires |targets| == |listings| && t < |targets| - 1 && DistinctTargets(targets)
    requires PartOf(targets[..|targets| - 1], listings[..|targets| - 1], t, lo, clo)
    ensures PartOf(targets, listings, t, lo, clo)
  {
    hide RowsFor, CandidatesFor;
    var n := |targets| - 1;
    var rows, cs := Rows(targets[..n], listings[..n]), Candidates(targets[..n], listings[..n]);
    OwnParts(targets[n], listings[n], |rows|);
    assert targets[n] != targets[t];
    var own, mine := RowsFor(targets[t], listings[t]), CandidatesFor(targets[t], listings[t], lo);
    var moreRows, moreCs := Rows(targets, listings), Candidates(targets, listings);
    assert moreRows[lo..lo + |own|] == rows[lo..lo + |own|] && moreCs[clo..clo + |mine|] == cs[clo..clo + |mine|];
  }

  lemma {:induction false} TargetPart(targets: seq<Target>, listings: seq<Listing>, t: nat) returns (lo: nat, clo: nat)
    requires |targets| == |listings| && t < |targets| && DistinctTargets(targets)
    ensures PartOf(targets, listings, t, lo, clo)
    decreases |targets|
  {
    hide Rows, Candidates, PartOf;
    var n := |targets| - 1;
    if t == n {
      PartHere(targets, listings);
      lo, clo := |Rows(targets[..n], listings[..n])|, |Candidates(targets[..n], listings[..n])|;
    } else {
      lo, clo := TargetPart(targets[..n], listings[..n], t);
      PartGrows(targets, listings, t, lo, clo);
    }
  }

  /** Every key of a complete listing with the exact title is a candidate, once. */
  lemma {:induction false} EveryStaleKeyIsFound(targets: seq<Target>, listings: seq<Listing>, scans: seq<seq<Page>>,
                                                t: nat, key: Key)
    returns (i: nat)
    requires DistinctTargets(targets) && Discovered(targets, listings, scans) && t < |targets|
    requires listings[t].Complete? && key in listings[t].keys && key.title == Title(targets[t])
    ensures i < |Candidates(targets, listings)|
    ensures Candidates(targets, listings)[i].target == targets[t] && Candidates(targets, listings)[i].key == key
    ensures forall j :: 0 <= j < |Candidates(targets, listings)| && j != i ==>
                          Candidates(targets, listings)[j].target != targets[t] || Candidates(targets, listings)[j].key != key
  {
    hide Rows, Candidates, Matches, PagesOf, ListingOf;
    MatchesAre(listings[t].keys, Title(targets[t]));
    var m := Matches(listings[t].keys, Title(targets[t]));
    var lo, clo := TargetPart(targets, listings, t);
    var k :| 0 <= k < |m| && m[k] == key;
    i := clo + k;
    var cs, mine := Candidates(targets, listings), CandidatesFor(targets[t], listings[t], lo);
    assert cs[i] == mine[k];
    forall j | 0 <= j < |cs| && cs[j].target == targets[t] && cs[j].key == key
      ensures j == i
    {
      assert clo <= j < clo + |mine| && cs[j] == mine[j - clo];
      assert m[j - clo] == key;
    }
  }

  /** A repository that is not there, could not be listed, or has no such key gets exactly one row, and no candidate:
      absent, an error of that class, or found with count 0. */
  lemma {:induction false} KeylessTargetRow(targets: seq<Target>, listings: seq<Listing>, t: nat) returns (r: nat)
    requires DistinctTargets(targets) && |targets| == |listings| && t < |targets|
    requires listings[t].Complete? ==> forall k :: k in listings[t].keys ==> k.title != Title(targets[t])
    ensures r < |Rows(targets, listings)|
    ensures forall q :: 0 <= q < |Rows(targets, listings)| && Rows(targets, listings)[q].target == targets[t] ==> q == r
    ensures forall c :: c in Candidates(targets, listings) ==> c.target != targets[t]
    ensures Rows(targets, listings)[r]
            == match listings[t]
               case NotThere => Row(targets[t], Title(targets[t]), Absent, 0, "")
               case Failed(errorClass) => Row(targets[t], Title(targets[t]), Errored, 0, errorClass)
               case Complete(_) => Row(targets[t], Title(targets[t]), DryRun, 0, "")
  {
    hide Rows, Candidates, Matches;
    if listings[t].Complete? {
      MatchesAre(listings[t].keys, Title(targets[t]));
      SomeMember(Matches(listings[t].keys, Title(targets[t])));
    }
    var lo, clo := TargetPart(targets, listings, t);
    r := lo;
    assert Rows(targets, listings)[r] == RowsFor(targets[t], listings[t])[0];
  }

  lemma {:induction false} SomeMember(keys: seq<Key>)
    ensures keys != [] ==> exists k :: k in keys
  {
    if keys != [] {
      assert keys[0] in keys;
    }
  }

  /** When it has such keys, each of its rows stands for exactly one of them. */
  lemma {:induction false} RowStandsForKey(targets: seq<Target>, listings: seq<Listing>, scans: seq<seq<Page>>,
                                           t: nat, key: Key, r: nat)
    returns (i: nat)
    requires DistinctTargets(targets) && Discovered(targets, listings, scans) && t < |targets|
    requires listings[t].Complete? && key in listings[t].keys && key.title == Title(targets[t])
    requires r < |Rows(targets, listings)| && Rows(targets, listings)[r].target == targets[t]
    ensures i < |Candidates(targets, listings)| && Candidates(targets, listings)[i].row == r
    ensures Candidates(targets, listings)[i].target == targets[t]
    ensures forall j :: 0 <= j < |Candidates(targets, listings)| && Candidates(targets, listings)[j].row == r ==> j == i
  {
    hide Rows, Candidates, Matches, PagesOf, ListingOf, DistinctIds, PartOf;
    MatchesAre(listings[t].keys, Title(targets[t]));
    var lo, clo := TargetPart(targets, listings, t);
    RowOfPart(targets, listings, t, lo, clo, r);
    i := clo + (r - lo);
    CandidatesOwnRows(targets, listings);
    OwnRowsApart(Candidates(targets, listings), Rows(targets, listings), i);
  }

  lemma {:induction false} RowOfPart(targets: seq<Target>, listings: seq<Listing>, t: nat, lo: nat, clo: nat, r: nat)
    requires t < |targets| == |listings| && PartOf(targets, listings, t, lo, clo)
    requires listings[t].Complete? && Matches(listings[t].keys, Title(targets[t])) != []
    requires r < |Rows(targets, listings)| && Rows(targets, listings)[r].target == targets[t]
    ensures lo <= r && clo + (r - lo) < |Candidates(targets, listings)|
    ensures Candidates(targets, listings)[clo + (r - lo)].row == r
    ensures Candidates(targets, listings)[clo + (r - lo)].target == targets[t]
  {
    hide Rows, Candidates, Matches;
    var mine := CandidatesFor(targets[t], listings[t], lo);
    assert Candidates(targets, listings)[clo + (r - lo)] == mine[r - lo];
  }

  lemma {:induction false} OwnRowsApart(cs: seq<Candidate>, rows: seq<Row>, i: nat)
    requires OwnRows(cs, rows) && i < |cs|
    ensures forall j :: 0 <= j < |cs| && cs[j].row == cs[i].row ==> j == i
  {
  }

  /** After a run that deletes, every such key has exactly one step, and a row of its own that tells how it went; the
      row of a repository without such a key is as discovery left it. */
  lemma {:induction false} EveryStaleKeyIsSettled(targets: seq<Target>, listings: seq<Listing>, scans: seq<seq<Page>>,
                                                  steps: seq<Step>,
                               t: nat, key: Key)
    returns (i: nat)
    requires DistinctTargets(targets) && Discovered(targets, listings, scans) && t < |targets|
    requires |steps| == |Candidates(targets, listings)|
    requires forall k :: 0 <= k < |steps| ==> steps[k].candidate == Candidates(targets, listings)[k] && Guarded(steps[k])
    requires listings[t].Complete? && key in listings[t].keys && key.title == Title(targets[t])
    ensures i < |steps| && steps[i].candidate.target == targets[t] && steps[i].candidate.key == key
    ensures forall j :: 0 <= j < |steps| && steps[j].candidate.target == targets[t] && steps[j].candidate.key == key ==> j == i
    ensures var row := steps[i].candidate.row;
            && row < |Rows(targets, listings)| && (forall j :: 0 <= j < |steps| && steps[j].candidate.row == row ==> j == i)
            && var settled := Settled(Rows(targets, listings), steps)[row];
               && settled.target == targets[t] && settled.title == key.title
               && (settled.action.Deleted? <==>
                     steps[i].sent.Some? && steps[i].sent.value.reply.Response? && IsOk(steps[i].sent.value.reply.status))
  {
    hide Rows, Candidates, PagesOf, ListingOf, DistinctIds, Guarded, Settled, RowsFor, CandidatesFor;
    i := EveryStaleKeyIsFound(targets, listings, scans, t, key);
    CandidatesOwnRows(targets, listings);
    OwnRowsApart(Candidates(targets, listings), Rows(targets, listings), i);
    RowsTellTheTruth(Candidates(targets, listings), Rows(targets, listings), steps, i);
  }

  lemma {:induction false} KeylessRowStays(targets: seq<Target>, listings: seq<Listing>, steps: seq<Step>, t: nat)
    returns (r: nat)
    requires DistinctTargets(targets) && |targets| == |listings| && t < |targets|
    requires |steps| == |Candidates(targets, listings)|
    requires forall k :: 0 <= k < |steps| ==> steps[k].candidate == Candidates(targets, listings)[k]
    requires listings[t].Complete? ==> forall k :: k in listings[t].keys ==> k.title != Title(targets[t])
    ensures r < |Rows(targets, listings)|
    ensures Settled(Rows(targets, listings), steps)[r] == Rows(targets, listings)[r]
    ensures Rows(targets, listings)[r].target == targets[t] && Rows(targets, listings)[r].count == 0
  {
    hide Rows, Candidates, Settled, RowsFor, CandidatesFor;
    r := KeylessTargetRow(targets, listings, t);
    CandidatesOwnRows(targets, listings);
    NotItsRow(Candidates(targets, listings), Rows(targets, listings), steps, targets[t], r);
    UntouchedRow(Rows(targets, listings), steps, r);
  }

  lemma {:induction false} NotItsRow(cs: seq<Candidate>, rows: seq<Row>, steps: seq<Step>, t: Target, r: nat)
    requires OwnRows(cs, rows) && |steps| == |cs| && r < |rows| && rows[r].target == t
    requires forall k :: 0 <= k < |steps| ==> steps[k].candidate == cs[k]
    requires forall c :: c in cs ==> c.target != t
    ensures forall s :: s in steps ==> s.candidate.row != r
  {
    forall k | 0 <= k < |steps|
      ensures steps[k].candidate.row != r
    {
      assert cs[k] in cs && rows[cs[k].row] == Found(cs[k].target, 1);
    }
  }
}
