/** The pinned path walk and the projection law (internal/engine/hostpath/core.go, projection.go).

    Paths are lists of components; link targets and absolute paths are raw text. Every answer of the file
    system is arbitrary and may change between calls. */
module HostPath {
  import opened Text

  const MAX_LINKS: nat := 40

  // ---------------------------------------------------------------------------------------------
  // Lexical paths

  predicate Plain(c: string) {
    c != "" && c != "." && c != ".." && Free(c, '/')
  }

  predicate AllPlain(path: seq<string>) {
    forall c :: c in path ==> Plain(c)
  }

  predicate SlashFree(fields: seq<string>) {
    forall f :: f in fields ==> Free(f, '/')
  }

  /** filepath.Clean on the components of a path; a rooted path has nothing above it. */
  function Clean(rooted: bool, fields: seq<string>): seq<string> {
    if fields == [] then []
    else
      var front := Clean(rooted, fields[..|fields| - 1]);
      var last := fields[|fields| - 1];
      if last == "" || last == "." then front
      else if last != ".." then front + [last]
      else if front != [] && front[|front| - 1] != ".." then front[..|front| - 1]
      else if rooted then front
      else front + [".."]
  }

  /** escapesRoot on a cleaned relative path. */
  predicate Escapes(path: seq<string>) { path != [] && path[0] == ".." }

  predicate IsAbs(s: string) { s != "" && s[0] == '/' }

  /** Some dot-dots followed by plain names. */
  predicate Shape(path: seq<string>) {
    && (forall i :: 0 <= i < |path| ==> path[i] == ".." || Plain(path[i]))
    && (forall i, j :: 0 <= i < j < |path| && path[j] == ".." ==> path[i] == "..")
  }

  lemma {:induction false} CleanShape(rooted: bool, fields: seq<string>)
    requires SlashFree(fields)
    ensures Shape(Clean(rooted, fields)) && (rooted ==> AllPlain(Clean(rooted, fields)))
  {
    if fields == [] {
    } else {
      var rest, last := fields[..|fields| - 1], fields[|fields| - 1];
      assert fields == rest + [last] && last in fields;
      CleanShape(rooted, rest);
      hide Clean, Plain;
      CleanMore(rooted, rest, last);
      if last != "" && last != "." && last != ".." {
        PlainName(last);
      }
    }
  }

  lemma PlainName(c: string)
    requires Free(c, '/') && c != "" && c != "." && c != ".."
    ensures Plain(c)
  {
  }

  lemma CleanIsPlain(rooted: bool, fields: seq<string>)
    requires SlashFree(fields) && !Escapes(Clean(rooted, fields))
    ensures AllPlain(Clean(rooted, fields))
  {
    CleanShape(rooted, fields);
  }

  lemma {:induction false} CleanPlain(rooted: bool, path: seq<string>)
    requires AllPlain(path)
    ensures Clean(rooted, path) == path
  {
    if path == [] {
    } else {
      assert path[|path| - 1] in path;
      CleanPlain(rooted, path[..|path| - 1]);
      assert path[..|path| - 1] + [path[|path| - 1]] == path;
    }
  }

  // ---------------------------------------------------------------------------------------------
  // What the dots do

  lemma {:induction false} CleanContinues(rooted: bool, x: seq<string>, y: seq<string>, rest: seq<string>)
    requires Clean(rooted, x) == Clean(rooted, y)
    ensures Clean(rooted, x + rest) == Clean(rooted, y + rest)
  {
    if rest == [] {
      assert x + rest == x && y + rest == y;
    } else {
      var front := rest[..|rest| - 1];
      CleanContinues(rooted, x, y, front);
      assert (x + rest)[..|x + rest| - 1] == x + front && (y + rest)[..|y + rest| - 1] == y + front;
    }
  }

  lemma CleanMore(rooted: bool, a: seq<string>, field: string)
    ensures Clean(rooted, a + [field])
            == var front := Clean(rooted, a);
               if field == "" || field == "." then front
               else if field != ".." then front + [field]
               else if front != [] && front[|front| - 1] != ".." then front[..|front| - 1]
               else if rooted then front
               else front + [".."]
  {
    assert (a + [field])[..|a|] == a;
  }

  /** A dot-dot takes back the name before it, and nothing else, wherever the two stand. */
  lemma DotDotTakesBack(rooted: bool, a: seq<string>, name: string, b: seq<string>)
    requires Plain(name)
    ensures Clean(rooted, a + [name, ".."] + b) == Clean(rooted, a + b)
  {
    hide Clean;
    CleanMore(rooted, a, name);
    CleanMore(rooted, a + [name], "..");
    assert a + [name] + [".."] == a + [name, ".."];
    CleanContinues(rooted, a + [name, ".."], a, b);
  }

  /** Empty fields and single dots do nothing. */
  lemma DotsDoNothing(rooted: bool, a: seq<string>, b: seq<string>)
    ensures Clean(rooted, a + [""] + b) == Clean(rooted, a + ["."] + b) == Clean(rooted, a + b)
  {
    hide Clean;
    CleanMore(rooted, a, "");
    CleanMore(rooted, a, ".");
    CleanContinues(rooted, a + [""], a, b);
    CleanContinues(rooted, a + ["."], a, b);
  }

  /** A leading dot-dot stays in a relative path and vanishes at the root. */
  lemma {:induction false} LeadingDotDot(b: seq<string>)
    ensures Clean(true, [".."] + b) == Clean(true, b)
    ensures Clean(false, [".."] + b) == [".."] + Clean(false, b)
  {
    hide Clean;
    if b == [] {
      OnlyDotDot();
    } else {
      var front, last := b[..|b| - 1], b[|b| - 1];
      LeadingDotDot(front);
      assert [".."] + b == [".."] + front + [last] && b == front + [last];
      CleanMore(true, [".."] + front, last);
      CleanMore(true, front, last);
      CleanMore(false, [".."] + front, last);
      CleanMore(false, front, last);
    }
  }

  lemma OnlyDotDot()
    ensures Clean(true, [".."] + []) == Clean(true, []) == []
    ensures Clean(false, [".."] + []) == [".."] + Clean(false, []) == [".."]
  {
    assert [".."] + [] == [".."] && [".."][..0] == [];
  }

  function DotDots(k: nat): (fields: seq<string>)
    ensures |fields| == k && forall i :: 0 <= i < k ==> fields[i] == ".."
  {
    seq(k, i => "..")
  }

  /** k dot-dots after plain names take back the last k of them; any more stick out in front. */
  lemma {:induction false} DotDotsTakeBack(path: seq<string>, k: nat, names: seq<string>)
    requires AllPlain(path) && AllPlain(names)
    ensures Clean(false, path + DotDots(k) + names)
            == if k <= |path| then path[..|path| - k] + names else DotDots(k - |path|) + names
    decreases |path|
  {
    hide Clean;
    if k == 0 || path == [] {
      assert k == 0 ==> path + DotDots(0) + names == path + names;
      CleanPlain(false, path + names);
      if path == [] {
        assert path + DotDots(k) + names == DotDots(k) + names;
        DotDotsStay(k, names);
      }
    } else {
      var front, last := path[..|path| - 1], path[|path| - 1];
      assert last in path;
      assert path + DotDots(k) + names == front + [last, ".."] + (DotDots(k - 1) + names);
      DotDotTakesBack(false, front, last, DotDots(k - 1) + names);
      assert front + (DotDots(k - 1) + names) == front + DotDots(k - 1) + names;
      DotDotsTakeBack(front, k - 1, names);
    }
  }

  lemma {:induction false} DotDotsStay(k: nat, names: seq<string>)
    requires AllPlain(names)
    ensures Clean(false, DotDots(k) + names) == DotDots(k) + names
  {
    hide Clean;
    if k == 0 {
      assert DotDots(0) + names == names;
      CleanPlain(false, names);
    } else {
      DotDotsStay(k - 1, names);
      LeadingDotDot(DotDots(k - 1) + names);
      assert DotDots(k) + names == [".."] + (DotDots(k - 1) + names);
    }
  }

  lemma SplitSlashFree(s: string)
    ensures SlashFree(Split(s, '/'))
  {
    JoinSplit(s, '/');
  }

  // ---------------------------------------------------------------------------------------------
  // Absolute paths as text

  function AbsPath(path: seq<string>): string { "/" + Join(path, '/') }

  predicate HasPrefix(s: string, prefix: string) {
    |prefix| <= |s| && s[..|prefix|] == prefix
  }

  /** underRoot on cleaned paths. */
  predicate UnderRoot(path: string, root: string) {
    path == root || HasPrefix(path, root + "/")
  }

  lemma AbsPathInjective(a: seq<string>, b: seq<string>)
    requires AllPlain(a) && AllPlain(b) && a != [] && b != [] && AbsPath(a) == AbsPath(b)
    ensures a == b
  {
    assert AbsPath(a)[1..] == Join(a, '/') && AbsPath(b)[1..] == Join(b, '/');
    SplitJoin(a, '/');
    SplitJoin(b, '/');
  }

  /** The textual test is component containment: one path is under another exactly when it extends it. */
  lemma UnderRootIsPrefix(a: seq<string>, b: seq<string>)
    requires AllPlain(a) && AllPlain(b) && a != [] && b != []
    ensures UnderRoot(AbsPath(a), AbsPath(b)) <==> b <= a
  {
    if b <= a && a != b {
      assert a == b + a[|b|..];
      JoinConcat(b, a[|b|..], '/');
      assert AbsPath(a)[..|AbsPath(b) + "/"|] == AbsPath(b) + "/";
    }
    if HasPrefix(AbsPath(a), AbsPath(b) + "/") {
      var rest := AbsPath(a)[|AbsPath(b) + "/"|..];
      assert AbsPath(a) == AbsPath(b) + "/" + rest;
      assert Join(a, '/') == AbsPath(a)[1..] == Join(b, '/') + "/" + rest;
      SplitConcat(Join(b, '/'), rest, '/');
      SplitJoin(a, '/');
      SplitJoin(b, '/');
    }
    if AbsPath(a) == AbsPath(b) {
      AbsPathInjective(a, b);
    }
  }

  /** strictAbsoluteTarget: the components of a target that is textually a proper descendant of root. */
  function StrictAbsoluteTarget(root: string, target: string): seq<string> {
    if root == "/" || !IsAbs(root) || root[|root| - 1] == '/' then []
    else if !AllPlain(Split(root[1..], '/')) then []
    else if !HasPrefix(target, root + "/") then []
    else
      var parts := Split(target[|root| + 1..], '/');
      if AllPlain(parts) then parts else []
  }

  lemma StrictTargetOn(root: seq<string>, rest: string)
    requires AllPlain(root) && root != []
    ensures var r := AbsPath(root);
            StrictAbsoluteTarget(r, r + "/" + rest) == if AllPlain(Split(rest, '/')) then Split(rest, '/') else []
    ensures forall target :: !HasPrefix(target, AbsPath(root) + "/") ==> StrictAbsoluteTarget(AbsPath(root), target) == []
  {
    PlainIsFree(root);
    hide Split, Join, Plain;
    var r := AbsPath(root);
    SplitJoin(root, '/');
    RootText(root);
    assert r[1..] == Join(root, '/');
    var target := r + "/" + rest;
    assert HasPrefix(target, r + "/") && target[|r| + 1..] == rest;
  }

  /** It succeeds exactly on the root's path followed by one or more plain names, and returns those names. */
  lemma StrictTargetExact(root: seq<string>, target: string, names: seq<string>)
    requires AllPlain(root) && root != [] && names != []
    ensures StrictAbsoluteTarget(AbsPath(root), target) == names
            <==> AllPlain(names) && target == AbsPath(root + names)
  {
    hide Split, Join, Plain, StrictAbsoluteTarget;
    var r := AbsPath(root);
    StrictTargetOn(root, "");
    JoinConcat(root, names, '/');
    assert AbsPath(root + names) == r + "/" + Join(names, '/');
    if HasPrefix(target, r + "/") {
      var rest := target[|r| + 1..];
      assert target == r + "/" + rest;
      StrictTargetOn(root, rest);
      JoinSplit(rest, '/');
      if AllPlain(names) {
        PlainIsFree(names);
        SplitJoin(names, '/');
      }
      assert target == AbsPath(root + names) <==> rest == Join(names, '/');
    }
  }

  lemma PlainIsFree(path: seq<string>)
    requires AllPlain(path)
    ensures SlashFree(path)
  {
  }

  lemma {:induction false} RootText(root: seq<string>)
    requires AllPlain(root) && root != []
    ensures Join(root, '/') != "" && Join(root, '/')[|Join(root, '/')| - 1] != '/'
  {
    assert root[0] in root;
    if |root| == 1 {
    } else {
      RootText(root[1..]);
    }
  }

  // ---------------------------------------------------------------------------------------------
  // The walk

  datatype Failure = Unavailable | OutsideRoot | SymlinkLoop | Changed | Unsupported | Unsafe | SourceType | Refused

  /** What Lstat answers for a name. */
  datatype Entry = Missing | Denied | Broken | Link | Directory | Regular | Special

  datatype Readlink = Unreadable | Moved | Target(text: string)

  /** Opening an entry and checking that it is still the same, on the root's mount and acceptable. */
  datatype OpenAnswer = Kept | Lost | Forbidden | NoMountId | Replaced | Vetoed

  datatype Observation = Observation(path: seq<string>, entry: Entry)

  datatype Walk = Failed(failure: Failure) | Opened(path: seq<string>)

  /** The target of a link found at canonical, as the components still to walk. */
  function Redirect(root: string, canonical: seq<string>, target: string, rest: seq<string>): seq<string>
    requires canonical != []
  {
    if IsAbs(target) then Clean(false, StrictAbsoluteTarget(root, target) + rest)
    else Clean(false, canonical[..|canonical| - 1] + Split(target, '/') + rest)
  }

  /** The text of a relative target that goes up k directories and then down these names. */
  predicate GoesUp(target: string, k: nat, names: seq<string>) {
    AllPlain(names) && Split(target, '/') == DotDots(k) + names
  }

  /** A link found at canonical whose target goes up k directories and down some names leads, from the directory of
      the link, exactly there; if it goes up too far it escapes. An absolute target leads to its own names. */
  lemma RedirectLeads(root: string, canonical: seq<string>, target: string, rest: seq<string>)
    requires canonical != [] && AllPlain(canonical) && AllPlain(rest)
    ensures forall k: nat, names :: !IsAbs(target) && GoesUp(target, k, names) ==>
              Redirect(root, canonical, target, rest)
              == if k < |canonical| then canonical[..|canonical| - 1 - k] + names + rest
                 else DotDots(k + 1 - |canonical|) + names + rest
    ensures IsAbs(target) ==> Redirect(root, canonical, target, rest) == StrictAbsoluteTarget(root, target) + rest
  {
    hide Clean, Split, Plain;
    var dir := canonical[..|canonical| - 1];
    forall k: nat, names | !IsAbs(target) && GoesUp(target, k, names)
      ensures Redirect(root, canonical, target, rest)
              == if k < |canonical| then canonical[..|canonical| - 1 - k] + names + rest
                 else DotDots(k + 1 - |canonical|) + names + rest
    {
      assert dir + Split(target, '/') + rest == dir + DotDots(k) + (names + rest);
      DotDotsTakeBack(dir, k, names + rest);
      if k < |canonical| {
        assert dir[..|dir| - k] + (names + rest) == canonical[..|canonical| - 1 - k] + names + rest;
      } else {
        assert DotDots(k - |dir|) + (names + rest) == DotDots(k + 1 - |canonical|) + names + rest;
      }
    }
    if IsAbs(target) {
      StrictPlain(root, target);
      CleanPlain(false, StrictAbsoluteTarget(root, target) + rest);
    }
  }

  lemma StrictPlain(root: string, target: string)
    ensures AllPlain(StrictAbsoluteTarget(root, target))
  {
    hide Plain;
  }

  lemma RedirectPlain(root: string, canonical: seq<string>, target: string, rest: seq<string>)
    requires canonical != [] && AllPlain(canonical) && AllPlain(rest)
    ensures !Escapes(Redirect(root, canonical, target, rest)) ==> AllPlain(Redirect(root, canonical, target, rest))
  {
    hide Clean, Split;
    SplitSlashFree(target);
    PlainIsFree(canonical);
    PlainIsFree(rest);
    hide Plain;
    if IsAbs(target) {
      PlainIsFree(StrictAbsoluteTarget(root, target));
      CleanIsPlainUnless(StrictAbsoluteTarget(root, target) + rest);
    } else {
      CleanIsPlainUnless(canonical[..|canonical| - 1] + Split(target, '/') + rest);
    }
  }

  lemma CleanIsPlainUnless(fields: seq<string>)
    requires SlashFree(fields)
    ensures !Escapes(Clean(false, fields)) ==> AllPlain(Clean(false, fields))
  {
    if !Escapes(Clean(false, fields)) {
      CleanIsPlain(false, fields);
    }
  }

  /** The last observations are one pass over path: each directory in turn, then the end. */
  predicate FinalPass(seen: seq<Observation>, path: seq<string>) {
    var start := |seen| - |path|;
    && 0 <= start && path != []
    && PartialPass(seen[..|seen| - 1], start, path, |path| - 1)
    && seen[|seen| - 1].path == path && seen[|seen| - 1].entry in {Directory, Regular}
  }

  /** No link is followed twice, and how many were followed. */
  ghost predicate LinksFollowed(seen: seq<Observation>, visited: set<seq<string>>, links: nat) {
    && |visited| == links
    && (forall o :: o in seen && o.entry.Link? ==> o.path in visited)
    && forall i, j :: 0 <= i < j < |seen| && seen[i].entry.Link? && seen[j].entry.Link? ==> seen[i].path != seen[j].path
  }

  /** From start on, the first i components were observed as directories, in order. */
  predicate PartialPass(seen: seq<Observation>, start: nat, parts: seq<string>, i: nat)
    requires i <= |parts|
  {
    && |seen| == start + i
    && forall j :: start <= j < |seen| ==> seen[j] == Observation(parts[..j - start + 1], Directory)
  }

  lemma PassEnds(seen: seq<Observation>, start: nat, parts: seq<string>, entry: Entry)
    requires parts != [] && PartialPass(seen, start, parts, |parts| - 1) && entry in {Directory, Regular}
    ensures FinalPass(seen + [Observation(parts, entry)], parts)
  {
    assert (seen + [Observation(parts, entry)])[..|seen|] == seen;
  }

  lemma SeenMore(seen: seq<Observation>, visited: set<seq<string>>, links: nat, o: Observation)
    requires LinksFollowed(seen, visited, links)
    ensures !o.entry.Link? ==> LinksFollowed(seen + [o], visited, links)
    ensures o.entry.Link? && o.path !in visited ==> LinksFollowed(seen + [o], visited + {o.path}, links + 1)
  {
  }

  /** A followed link: how many components led to it, and the target it named. */
  datatype Hop = Hop(at: nat, target: string)

  datatype Pass = Stop(failure: Failure) | Found | Follow(next: seq<string>, hop: Hop)

  function Redirected(root: string, parts: seq<string>, hop: Hop): seq<string> {
    if 0 < hop.at <= |parts| then Redirect(root, parts[..hop.at], hop.target, parts[hop.at..]) else parts
  }

  /** The path that following these links in turn leads to. */
  function Replay(root: string, start: seq<string>, hops: seq<Hop>): seq<string> {
    if hops == [] then start
    else Redirected(root, Replay(root, start, hops[..|hops| - 1]), hops[|hops| - 1])
  }

  /** The failure an open reports; the directory check applies to directories, permission to files. */
  function OpenFailure(answer: OpenAnswer, directory: bool): Failure {
    match answer
    case Forbidden => if directory then Changed else Unavailable
    case NoMountId => Unsupported
    case Replaced => Unsafe
    case Vetoed => if directory then Refused else Unsafe
    case Lost => Changed
    case Kept => Changed
  }

  /** What a link leads to, or why it is refused. */
  method FollowLink(root: string, canonical: seq<string>, rest: seq<string>, law: seq<string> -> bool) returns (p: Pass)
    requires canonical != []
    ensures p.Stop? || p.Follow?
    ensures p.Follow? ==> p.hop.at == |canonical| && p.next == Redirect(root, canonical, p.hop.target, rest)
    ensures p.Follow? && IsAbs(p.hop.target) ==> StrictAbsoluteTarget(root, p.hop.target) != []
    ensures p.Follow? ==> !Escapes(p.next) && law(p.next)
    ensures p.Follow? && AllPlain(canonical) && AllPlain(rest) ==> AllPlain(p.next)
    ensures p.Follow? && AllPlain(canonical) && AllPlain(rest) && !IsAbs(p.hop.target) ==>
              forall k: nat, names :: GoesUp(p.hop.target, k, names) ==>
                                   k < |canonical| && p.next == canonical[..|canonical| - 1 - k] + names + rest
    ensures p.Follow? && AllPlain(rest) && AllPlain(canonical) && IsAbs(p.hop.target) ==>
              p.next == StrictAbsoluteTarget(root, p.hop.target) + rest
    ensures p.Stop? ==> p.failure in {Changed, OutsideRoot, Refused}
  {
    hide GoesUp, Clean;
    var answer: Readlink := *;
    if !answer.Target? {
      return Stop(Changed);
    }
    var again: Readlink, retained: bool := *, *;
    if again != answer || !retained {
      return Stop(Changed);
    }
    var target := answer.text;
    if IsAbs(target) && StrictAbsoluteTarget(root, target) == [] {
      return Stop(OutsideRoot);
    }
    var next := Redirect(root, canonical, target, rest);
    if AllPlain(canonical) && AllPlain(rest) {
      RedirectPlain(root, canonical, target, rest);
      RedirectLeads(root, canonical, target, rest);
    }
    if Escapes(next) {
      return Stop(OutsideRoot);
    }
    if !law(next) {
      return Stop(Refused);
    }
    return Follow(next, Hop(|canonical|, target));
  }

  /** The failure a pass may report for the entry it ended on: last says that it is the final component, looped that
      it is a link already followed, or one too many. */
  predicate Explains(f: Failure, end: Entry, last: bool, looped: bool) {
    match end
    case Missing => f == Unavailable
    case Denied => f == Unavailable
    case Broken => f == Changed
    case Special => f == SourceType
    case Link => if looped then f == SymlinkLoop else f in {Changed, OutsideRoot, Refused}
    case Regular => if last then f in {Unavailable, Changed, Unsupported, Unsafe} else f == SourceType
    case Directory => f in {Changed, Unsupported, Unsafe, Refused}
  }

  /** One pass over the components, up to the first link; it ended on the entry of the at-th one. */
  method WalkOnce(root: string, parts: seq<string>, links: nat, visited: set<seq<string>>, law: seq<string> -> bool,
                  ghost before: seq<Observation>)
    returns (p: Pass, count: nat, marked: set<seq<string>>, ghost seen: seq<Observation>, ghost at: nat, ghost end: Entry)
    requires links <= MAX_LINKS && LinksFollowed(before, visited, links)
    ensures links <= count <= MAX_LINKS && LinksFollowed(seen, marked, count)
    ensures parts == [] ==> p == Stop(Changed) && count == links
    ensures p.Found? ==> parts != [] && count == links && FinalPass(seen, parts)
    ensures p.Follow? ==> p.next == Redirected(root, parts, p.hop)
    ensures p.Follow? ==> count == links + 1 && law(p.next) && (AllPlain(parts) ==> AllPlain(p.next))
    ensures parts != [] ==>
              && 0 < at <= |parts|
              && var looped := parts[..at] in visited || links == MAX_LINKS;
                 match p
                 case Stop(failure) => Explains(failure, end, at == |parts|, looped)
                 case Found => end in {Directory, Regular} && at == |parts|
                 case Follow(_, hop) => end.Link? && hop.at == at && !looped
  {
    hide Clean, Split, FinalPass, Plain, StrictAbsoluteTarget, LinksFollowed, PartialPass, Redirect;
    count, marked, seen, at, end := links, visited, before, 0, Missing;
    NoPass(before, parts);
    for i := 0 to |parts|
      invariant count == links && marked == visited && LinksFollowed(seen, visited, links)
      invariant PartialPass(seen, |before|, parts, i)
      invariant i == |parts| ==> parts == []
    {
      var canonical := parts[..i + 1];
      var entry: Entry := *;
      at, end := i + 1, entry;
      if entry.Missing? || entry.Denied? {
        return Stop(Unavailable), count, marked, seen, at, end;
      }
      if entry.Broken? {
        return Stop(Changed), count, marked, seen, at, end;
      }
      SeenMore(seen, visited, links, Observation(canonical, entry));
      if entry.Link? {
        if canonical in visited || links + 1 > MAX_LINKS {
          return Stop(SymlinkLoop), count, marked, seen, at, end;
        }
        seen := seen + [Observation(canonical, entry)];
        count, marked := links + 1, visited + {canonical};
        p := FollowLink(root, canonical, parts[i + 1..], law);
        return;
      }
      var answer: OpenAnswer := *;
      ghost var was := seen;
      seen := seen + [Observation(canonical, entry)];
      if i == |parts| - 1 {
        if entry.Special? {
          return Stop(SourceType), count, marked, seen, at, end;
        }
        if !answer.Kept? {
          OpenExplained(answer, entry);
          return Stop(OpenFailure(answer, entry.Directory?)), count, marked, seen, at, end;
        }
        assert canonical == parts;
        assert entry == Directory || entry == Regular;
        assert PartialPass(was, |before|, parts, |parts| - 1);
        PassEnds(was, |before|, parts, entry);
        return Found, count, marked, seen, at, end;
      }
      if !entry.Directory? {
        return Stop(SourceType), count, marked, seen, at, end;
      }
      if !answer.Kept? {
        OpenExplained(answer, entry);
        return Stop(OpenFailure(answer, true)), count, marked, seen, at, end;
      }
      PassGrows(was, |before|, parts, i);
    }
    return Stop(Changed), count, marked, seen, at, end;
  }

  lemma OpenExplained(answer: OpenAnswer, entry: Entry)
    requires entry.Directory? || !(entry.Missing? || entry.Denied? || entry.Broken? || entry.Special? || entry.Link?)
    ensures forall last, looped :: last || entry.Directory? ==>
                                     Explains(OpenFailure(answer, entry.Directory?), entry, last, looped)
  {
    match answer {
      case Kept =>
      case Lost =>
      case Forbidden =>
      case NoMountId =>
      case Replaced =>
      case Vetoed =>
    }
  }

  lemma NoPass(seen: seq<Observation>, parts: seq<string>)
    ensures PartialPass(seen, |seen|, parts, 0)
  {
  }

  lemma PassGrows(seen: seq<Observation>, start: nat, parts: seq<string>, i: nat)
    requires i < |parts| && PartialPass(seen, start, parts, i)
    ensures PartialPass(seen + [Observation(parts[..i + 1], Directory)], start, parts, i + 1)
  {
  }

  lemma NothingSeen()
    ensures LinksFollowed([], {}, 0)
  {
  }

  /** openPinnedPathWithPolicy against an arbitrary, changing file system. law is the caller's check of the
      path a link leads to. From a start that does not escape, any path it opens is made of plain names, was
      last reached only through entries observed as non-links, and obeys the law if the start did. It is the
      path the followed links lead to, each link read at most once, at most 40 in all. */
  method OpenPinnedPath(root: string, rel: string, law: seq<string> -> bool)
    returns (r: Walk, links: nat, ghost visited: set<seq<string>>, ghost seen: seq<Observation>, ghost hops: seq<Hop>)
    ensures links <= MAX_LINKS && LinksFollowed(seen, visited, links)
    ensures r.Opened? ==> r.path == Replay(root, Clean(IsAbs(rel), Split(rel, '/')), hops) && |hops| == links
    ensures var start := Clean(IsAbs(rel), Split(rel, '/'));
            && (start == [] ==> r == Failed(if IsAbs(rel) then Changed else SourceType) && links == 0)
            && (!Escapes(start) && r.Opened? ==>
                  && r.path != [] && AllPlain(r.path) && FinalPass(seen, r.path)
                  && (law(start) ==> law(r.path)))
  {
    hide Clean, Split, FinalPass, Plain, LinksFollowed, Redirected;
    ghost var begin := Clean(IsAbs(rel), Split(rel, '/'));
    SplitSlashFree(rel);
    var parts := Clean(IsAbs(rel), Split(rel, '/'));
    var marked: set<seq<string>> := {};
    links, visited, seen, hops := 0, {}, [], [];
    NothingSeen();
    if parts == [] && !IsAbs(rel) {
      return Failed(SourceType), links, visited, seen, hops;
    }
    if !Escapes(begin) {
      CleanIsPlain(IsAbs(rel), Split(rel, '/'));
    }
    while true
      invariant marked == visited
      invariant parts == Replay(root, begin, hops) && |hops| == links
      invariant links <= MAX_LINKS && LinksFollowed(seen, visited, links)
      invariant begin == [] ==> parts == [] && links == 0 && IsAbs(rel)
      invariant !Escapes(begin) ==> AllPlain(parts) && (law(begin) ==> law(parts))
      decreases MAX_LINKS - links
    {
      var p: Pass;
      ghost var at, end;
      p, links, marked, seen, at, end := WalkOnce(root, parts, links, marked, law, seen);
      visited := marked;
      match p {
        case Stop(failure) => return Failed(failure), links, visited, seen, hops;
        case Found => return Opened(parts), links, visited, seen, hops;
        case Follow(next, hop) =>
          assert (hops + [hop])[..|hops|] == hops;
          hops := hops + [hop];
          parts := next;
      }
    }
  }

  // ---------------------------------------------------------------------------------------------
  // The projection law

  datatype Law = Lawful | IsRoot | Outside | Excluded

  function DropLast(path: seq<string>): seq<string>
    requires path != []
  {
    path[..|path| - 1]
  }

  /** The directories and files projection never hands out. */
  function ExcludedRoots(home: seq<string>, xdg: seq<string>): seq<seq<string>> {
    [home + [".ssh"], home + [".aws"], home + [".kube"], home + [".docker"], home + [".gnupg"], home + [".npmrc"],
     home + [".pypirc"], home + [".gitconfig"], home + [".config", "git"], home + [".config", "gcloud"],
     home + [".config", "safeslop"], home + [".cache", "safeslop"], home + ["Library", "Caches", "safeslop"],
     home + ["Library", "Cookies"], home + ["Library", "Keychains"],
     xdg + ["gcloud"], xdg + ["safeslop"], xdg + ["git"]]
  }

  function Texts(paths: seq<seq<string>>): (texts: seq<string>)
    ensures |texts| == |paths| && forall i :: 0 <= i < |paths| ==> texts[i] == AbsPath(paths[i])
  {
    seq(|paths|, i requires 0 <= i < |paths| => AbsPath(paths[i]))
  }

  /** filepath.Dir(abs) == cargo and the base name starts with credentials, on a cleaned absolute path. */
  predicate CargoCredentials(abs: string, cargo: string) {
    var fields := Split(abs, '/');
    Join(DropLast(fields), '/') == cargo && HasPrefix(fields[|fields| - 1], "credentials")
  }

  /** projectionLawCode on cleaned absolute paths. */
  method LawCode(abs: string, home: string, xdg: string, excluded: seq<string>) returns (code: Law)
    ensures code.IsRoot? <==> abs == home || abs == xdg
    ensures code.Outside? <==> abs != home && abs != xdg && !UnderRoot(abs, home) && !UnderRoot(abs, xdg)
    ensures code.Lawful? <==>
              && abs != home && abs != xdg && (UnderRoot(abs, home) || UnderRoot(abs, xdg))
              && (forall ex :: ex in excluded ==> !UnderRoot(abs, ex)) && !CargoCredentials(abs, home + "/.cargo")
  {
    if abs == home || abs == xdg {
      return IsRoot;
    }
    if !UnderRoot(abs, home) && !UnderRoot(abs, xdg) {
      return Outside;
    }
    for i := 0 to |excluded|
      invariant forall k :: 0 <= k < i ==> !UnderRoot(abs, excluded[k])
    {
      if UnderRoot(abs, excluded[i]) {
        return Excluded;
      }
    }
    if CargoCredentials(abs, home + "/.cargo") {
      return Excluded;
    }
    return Lawful;
  }

  /** The law on components: properly inside home or the config directory, outside every excluded root, and
      not a cargo credentials file. */
  predicate Obeys(path: seq<string>, home: seq<string>, xdg: seq<string>, excluded: seq<seq<string>>) {
    && path != home && path != xdg && (home <= path || xdg <= path)
    && (forall ex :: ex in excluded ==> !(ex <= path))
    && !(path != [] && DropLast(path) == home + [".cargo"] && HasPrefix(path[|path| - 1], "credentials"))
  }

  predicate Under(path: seq<string>, root: seq<string>) { root <= path }

  lemma ExcludedAt(path: seq<string>, home: seq<string>, xdg: seq<string>, i: nat)
    requires Obeys(path, home, xdg, ExcludedRoots(home, xdg)) && i < |ExcludedRoots(home, xdg)|
    ensures !Under(path, ExcludedRoots(home, xdg)[i])
  {
    hide ExcludedRoots;
    assert ExcludedRoots(home, xdg)[i] in ExcludedRoots(home, xdg);
  }

  /** What the law keeps out by name: nothing under these directories of the home or of the configuration directory. */
  lemma SecretsAreKeptOut(path: seq<string>, home: seq<string>, xdg: seq<string>)
    requires Obeys(path, home, xdg, ExcludedRoots(home, xdg))
    ensures path != home && path != xdg && (Under(path, home) || Under(path, xdg))
    ensures !Under(path, home + [".ssh"]) && !Under(path, home + [".aws"]) && !Under(path, home + [".kube"])
    ensures !Under(path, home + [".docker"]) && !Under(path, home + [".gnupg"]) && !Under(path, home + [".npmrc"])
    ensures !Under(path, home + [".pypirc"]) && !Under(path, home + [".gitconfig"])
    ensures !Under(path, home + [".config", "git"]) && !Under(path, home + [".config", "gcloud"])
    ensures !Under(path, home + [".config", "safeslop"]) && !Under(path, home + [".cache", "safeslop"])
    ensures !Under(path, home + ["Library", "Caches", "safeslop"]) && !Under(path, home + ["Library", "Cookies"])
    ensures !Under(path, home + ["Library", "Keychains"])
    ensures !Under(path, xdg + ["gcloud"]) && !Under(path, xdg + ["safeslop"]) && !Under(path, xdg + ["git"])
  {
    var all := ExcludedRoots(home, xdg);
    assert |all| == 18;
    forall i | 0 <= i < |all|
      ensures !Under(path, all[i])
    {
      ExcludedAt(path, home, xdg, i);
    }
    hide Under, Obeys;
    assert !Under(path, all[0]) && !Under(path, all[1]) && !Under(path, all[2]) && !Under(path, all[3]);
    assert !Under(path, all[4]) && !Under(path, all[5]) && !Under(path, all[6]) && !Under(path, all[7]);
    assert !Under(path, all[8]) && !Under(path, all[9]) && !Under(path, all[10]) && !Under(path, all[11]);
    assert !Under(path, all[12]) && !Under(path, all[13]) && !Under(path, all[14]) && !Under(path, all[15]);
    assert !Under(path, all[16]) && !Under(path, all[17]);
  }

  lemma CargoText(path: seq<string>, home: seq<string>)
    requires AllPlain(path) && AllPlain(home) && path != [] && home != []
    ensures CargoCredentials(AbsPath(path), AbsPath(home) + "/.cargo")
            <==> DropLast(path) == home + [".cargo"] && HasPrefix(path[|path| - 1], "credentials")
  {
    hide Plain;
    PlainIsFree(path);
    PlainIsFree(home);
    var fields := [""] + path;
    var cargo := home + [".cargo"];
    assert AbsPath(path) == Join(fields, '/') by { assert fields[1..] == path; }
    assert Free(".cargo", '/');
    SplitJoin(fields, '/');
    JoinConcat(home, [".cargo"], '/');
    assert AbsPath(home) + "/.cargo" == Join([""] + cargo, '/') by { assert ([""] + cargo)[1..] == cargo; }
    assert fields[|fields| - 1] == path[|path| - 1];
    var dir := DropLast(fields);
    assert dir == [""] + DropLast(path);
    SplitJoin(dir, '/');
    SplitJoin([""] + cargo, '/');
    assert Join(dir, '/') == Join([""] + cargo, '/') <==> dir == [""] + cargo;
    assert dir == [""] + cargo <==> DropLast(path) == cargo by { assert dir[1..] == DropLast(path) && ([""] + cargo)[1..] == cargo; }
  }

  /** What the textual law code means: Lawful is exactly the component law. */
  lemma LawfulMeans(path: seq<string>, home: seq<string>, xdg: seq<string>, excluded: seq<seq<string>>)
    requires AllPlain(path) && AllPlain(home) && AllPlain(xdg) && path != [] && home != [] && xdg != []
    requires forall ex :: ex in excluded ==> AllPlain(ex) && ex != []
    ensures var abs, h, x := AbsPath(path), AbsPath(home), AbsPath(xdg);
            (&& abs != h && abs != x && (UnderRoot(abs, h) || UnderRoot(abs, x))
             && (forall ex :: ex in Texts(excluded) ==> !UnderRoot(abs, ex)) && !CargoCredentials(abs, h + "/.cargo"))
            <==> Obeys(path, home, xdg, excluded)
  {
    hide Split, Join, Plain, AbsPath, CargoCredentials, UnderRoot;
    UnderRootIsPrefix(path, home);
    UnderRootIsPrefix(path, xdg);
    SameText(path, home);
    SameText(path, xdg);
    CargoText(path, home);
    var abs, texts := AbsPath(path), Texts(excluded);
    forall i | 0 <= i < |excluded|
      ensures UnderRoot(abs, texts[i]) <==> excluded[i] <= path
    {
      UnderRootIsPrefix(path, excluded[i]);
    }
    Excludes(abs, texts, path, excluded);
  }

  lemma Excludes(abs: string, texts: seq<string>, path: seq<string>, excluded: seq<seq<string>>)
    requires |texts| == |excluded| && forall i :: 0 <= i < |excluded| ==> (UnderRoot(abs, texts[i]) <==> excluded[i] <= path)
    ensures (forall ex :: ex in texts ==> !UnderRoot(abs, ex)) <==> forall ex :: ex in excluded ==> !(ex <= path)
  {
    hide UnderRoot;
    if forall ex :: ex in texts ==> !UnderRoot(abs, ex) {
      forall ex | ex in excluded
        ensures !(ex <= path)
      {
        var i :| 0 <= i < |excluded| && excluded[i] == ex;
        assert texts[i] in texts;
      }
    } else {
      var t :| t in texts && UnderRoot(abs, t);
      var i :| 0 <= i < |texts| && texts[i] == t;
      assert excluded[i] in excluded;
    }
  }

  lemma SameText(a: seq<string>, b: seq<string>)
    requires AllPlain(a) && AllPlain(b) && a != [] && b != []
    ensures AbsPath(a) == AbsPath(b) <==> a == b
  {
    if AbsPath(a) == AbsPath(b) {
      AbsPathInjective(a, b);
    }
  }

  /** The walk as projection calls it: an opened source is a proper descendant of its root, free of dot-dots,
      last reached through non-links only, and keeps the component law the source path was checked against. */
  method OpenProjected(root: seq<string>, rel: string, home: seq<string>, xdg: seq<string>)
    returns (r: Walk, links: nat, ghost seen: seq<Observation>)
    requires AllPlain(root) && root != []
    ensures links <= MAX_LINKS
    ensures var start, excluded := Clean(IsAbs(rel), Split(rel, '/')), ExcludedRoots(home, xdg);
            !Escapes(start) && r.Opened? ==>
              && AllPlain(root + r.path) && root < root + r.path && FinalPass(seen, r.path)
              && (Obeys(root + start, home, xdg, excluded) ==> Obeys(root + r.path, home, xdg, excluded))
  {
    hide Clean, Split, FinalPass, Plain, Obeys, LinksFollowed, ExcludedRoots;
    var excluded := ExcludedRoots(home, xdg);
    ghost var visited: set<seq<string>>;
    ghost var hops: seq<Hop>;
    r, links, visited, seen, hops := OpenPinnedPath(AbsPath(root), rel, path => Obeys(root + path, home, xdg, excluded));
  }
}
