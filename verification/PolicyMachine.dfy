/** Atomic policy replacement as a step relation (internal/engine/policy/transaction.go): any number of
    writers under one file lock, any effect failing, processes and the whole machine crashing at any step.

    Assumed of the file system: a failed rename or link changes nothing; the lock is exclusive and dies with
    its holder; after a machine crash the directory shows one of the entries it had since it was last synced,
    and a file that was not synced may have lost its tail. */
module PolicyMachine {
  import opened Wrappers

  datatype Inode = Inode(text: string, synced: bool)

  /** visible is what a reader opens now; crashable is what a machine crash may leave. */
  datatype Disk = Disk(visible: Option<Inode>, crashable: set<Option<Inode>>)

  datatype Outcome = KnownCommitted | KnownFailed | CommitUncertain

  /** expected is the caller's ExpectedHash, if any; valid is the verdict of the Validate callback. */
  datatype Options = Options(expected: Option<string>, createOnly: bool, valid: bool)

  datatype Position =
    | Starting                 // before taking the lock
    | ReadingCurrent
    | CreatingTemp
    | Filling
    | SyncingTemp(temp: Inode)
    | ClosingTemp(temp: Inode)
    | Publishing(temp: Inode)  // rename, or link for a create-only call
    | RemovingTemp             // create-only
    | SyncingDir
    | Unlocking(outcome: Outcome)
    | Done(outcome: Outcome)
    | Dead

  datatype Writer = Writer(content: string, options: Options, at: Position)

  /** Every change of the visible file. */
  datatype Event =
    | Wrote(writer: nat, before: Option<Inode>, after: Option<Inode>)
    | Reverted(before: Option<Inode>, after: Option<Inode>)

  datatype System = System(disk: Disk, lock: Option<nat>, writers: map<nat, Writer>, log: seq<Event>)

  // ---------------------------------------------------------------------------------------------
  // One writer

  /** The checks under the lock: create-only wants no file, an expected hash wants the file with that hash. */
  predicate Approved(hash: string -> string, o: Options, current: Option<Inode>) {
    && (o.createOnly ==> current.None?)
    && (o.expected.Some? ==> current.Some? && hash(current.value.text) == o.expected.value)
    && o.valid
  }

  function At(s: System, id: nat, p: Position): System
    requires id in s.writers
  {
    s.(writers := s.writers[id := s.writers[id].(at := p)])
  }

  /** Failing under the lock: the temporary file is removed, the lock released on the way out. */
  function Fail(s: System, id: nat): System
    requires id in s.writers
  {
    At(s, id, Unlocking(KnownFailed))
  }

  predicate IsPrefix(a: string, b: string) { a <= b }

  /** One step of writer id; each position may fail or succeed. */
  ghost predicate WriterStep(hash: string -> string, id: nat, s: System, t: System) {
    && id in s.writers
    && var w := s.writers[id];
       match w.at
       case Starting =>
         || t == At(s, id, Done(KnownFailed))
         || (s.lock.None? && t == At(s, id, ReadingCurrent).(lock := Some(id)))
       case ReadingCurrent =>
         t == Fail(s, id) || (Approved(hash, w.options, s.disk.visible) && t == At(s, id, CreatingTemp))
       case CreatingTemp =>
         t == Fail(s, id) || t == At(s, id, Filling)
       case Filling =>
         t == Fail(s, id) || t == At(s, id, SyncingTemp(Inode(w.content, false)))
       case SyncingTemp(temp) =>
         t == Fail(s, id) || t == At(s, id, ClosingTemp(temp.(synced := true)))
       case ClosingTemp(temp) =>
         t == Fail(s, id) || t == At(s, id, Publishing(temp))
       case Publishing(temp) =>
         || t == Fail(s, id)
         || ((w.options.createOnly ==> s.disk.visible.None?)
             && t == At(s, id, if w.options.createOnly then RemovingTemp else SyncingDir)
                     .(disk := Disk(Some(temp), s.disk.crashable + {Some(temp)}),
                       log := s.log + [Wrote(id, s.disk.visible, Some(temp))]))
       case RemovingTemp =>
         t == At(s, id, Unlocking(CommitUncertain)) || t == At(s, id, SyncingDir)
       case SyncingDir =>
         || t == At(s, id, Unlocking(CommitUncertain))
         || t == At(s, id, Unlocking(KnownCommitted)).(disk := s.disk.(crashable := {s.disk.visible}))
       case Unlocking(outcome) =>
         t == At(s, id, Done(outcome)).(lock := None)
       case Done(_) => false
       case Dead => false
  }

  predicate InCriticalSection(p: Position) {
    !(p.Starting? || p.Done? || p.Dead?)
  }

  /** A writer's process dies; the kernel drops its lock. */
  predicate ProcessCrash(id: nat, s: System, t: System) {
    && id in s.writers
    && t == At(s, id, Dead).(lock := if s.lock == Some(id) then None else s.lock)
  }

  /** What a crash can make of a file: all of it when it was synced, else some prefix. */
  predicate Survives(was: Option<Inode>, now: Option<Inode>) {
    match was
    case None => now.None?
    case Some(inode) => now.Some? && now.value.synced && IsPrefix(now.value.text, inode.text)
                        && (inode.synced ==> now.value.text == inode.text)
  }

  /** The machine goes down and comes back. */
  ghost predicate MachineCrash(s: System, t: System) {
    exists was, now ::
      && was in s.disk.crashable && Survives(was, now)
      && t == System(Disk(now, {now}), None, map id | id in s.writers :: s.writers[id].(at := Dead),
                     s.log + [Reverted(s.disk.visible, now)])
  }

  ghost predicate Spawn(s: System, t: System) {
    exists id: nat, content: string, options: Options ::
      id !in s.writers && t == s.(writers := s.writers[id := Writer(content, options, Starting)])
  }

  ghost predicate Step(hash: string -> string, s: System, t: System) {
    || (exists id: nat :: WriterStep(hash, id, s, t))
    || (exists id: nat :: ProcessCrash(id, s, t))
    || MachineCrash(s, t)
    || Spawn(s, t)
  }

  /** A settled file, or none, and nobody at work. */
  predicate Initial(s: System) {
    && s.lock.None? && s.writers == map[] && s.log == []
    && s.disk.crashable == {s.disk.visible} && (s.disk.visible.Some? ==> s.disk.visible.value.synced)
  }

  ghost predicate IsRun(hash: string -> string, run: seq<System>) {
    && |run| > 0 && Initial(run[0])
    && forall i :: 0 < i < |run| ==> Step(hash, run[i - 1], run[i])
  }

  // ---------------------------------------------------------------------------------------------
  // The invariant

  /** How often this writer changed the file. */
  function Writes(log: seq<Event>, id: nat): nat {
    if log == [] then 0
    else Writes(log[..|log| - 1], id)
         + if log[|log| - 1].Wrote? && log[|log| - 1].writer == id then 1 else 0
  }

  function WritesAt(p: Position): nat {
    match p
    case RemovingTemp | SyncingDir => 1
    case Unlocking(outcome) => if outcome.KnownFailed? then 0 else 1
    case Done(outcome) => if outcome.KnownFailed? then 0 else 1
    case _ => 0
  }

  /** The temporary file holds the whole content, synced once SyncTemp succeeded. */
  predicate TempOf(w: Writer) {
    match w.at
    case SyncingTemp(temp) => temp.text == w.content
    case ClosingTemp(temp) => temp == Inode(w.content, true)
    case Publishing(temp) => temp == Inode(w.content, true)
    case _ => true
  }

  /** Written, or there from the start. */
  predicate Known(first: Option<Inode>, log: seq<Event>, entry: Option<Inode>) {
    entry == first || exists i :: 0 <= i < |log| && log[i].Wrote? && log[i].after == entry
  }

  predicate Whole(entry: Option<Inode>) {
    entry.Some? ==> entry.value.synced
  }

  predicate WriterInv(hash: string -> string, s: System, id: nat)
    requires id in s.writers
  {
    var w := s.writers[id];
    && TempOf(w)
    && (InCriticalSection(w.at) <==> s.lock == Some(id))
    && (w.at.CreatingTemp? || w.at.Filling? || w.at.SyncingTemp? || w.at.ClosingTemp? || w.at.Publishing?
        ==> Approved(hash, w.options, s.disk.visible))
    && (w.at.RemovingTemp? || w.at.SyncingDir? || (w.at.Unlocking? && !w.at.outcome.KnownFailed?)
        ==> s.disk.visible == Some(Inode(w.content, true)))
    && (w.at.Unlocking? && w.at.outcome.KnownCommitted? ==> s.disk.crashable == {s.disk.visible})
    && (w.at.Dead? || Writes(s.log, id) == WritesAt(w.at))
  }

  function After(e: Event): Option<Inode> { e.after }

  /** The entry that i events leave. */
  function Left(first: Option<Inode>, log: seq<Event>, i: nat): Option<Inode>
    requires i <= |log|
  {
    if i == 0 then first else After(log[i - 1])
  }

  /** A write by a known call, of its whole content, approved on what it replaced. */
  predicate Sound(hash: string -> string, writers: map<nat, Writer>, e: Event) {
    e.Wrote? ==>
      && e.writer in writers && Approved(hash, writers[e.writer].options, e.before)
      && e.after == Some(Inode(writers[e.writer].content, true))
  }

  /** Each event starts from what the previous one left; every write was approved on what it replaced. */
  ghost predicate Chained(hash: string -> string, first: Option<Inode>, s: System) {
    && (forall i :: 0 <= i < |s.log| ==> s.log[i].before == Left(first, s.log, i))
    && s.disk.visible == Left(first, s.log, |s.log|)
    && forall e :: e in s.log ==> Sound(hash, s.writers, e)
  }

  /** Whatever a crash may leave is whole, and was there at the start or written since. */
  ghost predicate DiskInv(first: Option<Inode>, s: System) {
    && Whole(first) && s.disk.visible in s.disk.crashable
    && forall e :: e in s.disk.crashable ==> Whole(e) && Known(first, s.log, e)
  }

  ghost predicate WritersInv(hash: string -> string, s: System) {
    && (s.lock.Some? ==> s.lock.value in s.writers)
    && (forall id :: id in s.writers ==> WriterInv(hash, s, id))
    && (forall id: nat :: id !in s.writers ==> Writes(s.log, id) == 0)
  }

  ghost predicate Inv(hash: string -> string, first: Option<Inode>, s: System) {
    DiskInv(first, s) && WritersInv(hash, s) && Chained(hash, first, s)
  }

  lemma WritesAppend(log: seq<Event>, e: Event, id: nat)
    ensures Writes(log + [e], id) == Writes(log, id) + if e.Wrote? && e.writer == id then 1 else 0
  {
    assert (log + [e])[..|log + [e]| - 1] == log;
  }

  lemma KnownMore(first: Option<Inode>, log: seq<Event>, e: Event, entry: Option<Inode>)
    ensures Known(first, log, entry) ==> Known(first, log + [e], entry)
    ensures e.Wrote? && e.after == entry ==> Known(first, log + [e], entry)
  {
    var more := log + [e];
    assert more[|log|] == e;
    if Known(first, log, entry) && entry != first {
      var i :| 0 <= i < |log| && log[i].Wrote? && log[i].after == entry;
      assert more[i] == log[i];
    }
  }

  /** The same calls, wherever they have got to. */
  predicate SameCalls(s: System, t: System) {
    forall id :: id in s.writers ==> id in t.writers && t.writers[id] == s.writers[id].(at := t.writers[id].at)
  }

  lemma ChainKept(hash: string -> string, first: Option<Inode>, s: System, t: System)
    requires Chained(hash, first, s) && SameCalls(s, t) && t.log == s.log && t.disk.visible == s.disk.visible
    ensures Chained(hash, first, t)
  {
    hide Approved;
    forall e | e in t.log
      ensures Sound(hash, t.writers, e)
    {
      assert Sound(hash, s.writers, e);
    }
  }

  lemma ChainExtended(hash: string -> string, first: Option<Inode>, s: System, t: System, e: Event)
    requires Chained(hash, first, s) && SameCalls(s, t) && t.log == s.log + [e]
    requires e.before == s.disk.visible && t.disk.visible == e.after
    requires e.Wrote? ==> e.writer in t.writers && Approved(hash, t.writers[e.writer].options, e.before)
                          && e.after == Some(Inode(t.writers[e.writer].content, true))
    ensures Chained(hash, first, t)
  {
    hide Approved;
    forall i | 0 <= i < |t.log|
      ensures t.log[i].before == Left(first, t.log, i)
    {
      if i < |s.log| {
        assert s.log[i].before == Left(first, s.log, i);
      }
    }
    forall x | x in t.log
      ensures Sound(hash, t.writers, x)
    {
      assert x == e || Sound(hash, s.writers, x);
    }
  }

  /** Steps that touch neither the disk nor the log. */
  lemma QuietStepInv(hash: string -> string, first: Option<Inode>, s: System, t: System, id: nat)
    requires Inv(hash, first, s) && id in s.writers && WriterStep(hash, id, s, t)
    requires t.disk == s.disk && t.log == s.log
    ensures Inv(hash, first, t)
  {
    hide Known, Writes, Chained, Approved;
    QuietWriter(hash, s, t, id);
    assert WriterInv(hash, s, id);
    QuietFrame(s, t, id);
    hide WriterStep;
    ChainKept(hash, first, s, t);
    forall other | other in t.writers
      ensures WriterInv(hash, t, other)
    {
      assert WriterInv(hash, s, other);
    }
  }

  lemma QuietFrame(s: System, t: System, id: nat)
    requires id in s.writers && t.writers.Keys == s.writers.Keys
    requires t.writers == s.writers[id := s.writers[id].(at := t.writers[id].at)]
    ensures SameCalls(s, t)
  {
  }

  lemma QuietWriter(hash: string -> string, s: System, t: System, id: nat)
    requires id in s.writers && WriterStep(hash, id, s, t) && WriterInv(hash, s, id)
    requires t.disk == s.disk && t.log == s.log
    ensures t.writers.Keys == s.writers.Keys
    ensures t.writers == s.writers[id := s.writers[id].(at := t.writers[id].at)]
    ensures WriterInv(hash, t, id)
    ensures t.lock != s.lock ==> (t.lock == Some(id) && s.lock.None?) || (t.lock.None? && s.lock == Some(id))
  {
    hide Writes, Approved;
  }

  lemma PublishInv(hash: string -> string, first: Option<Inode>, s: System, t: System, id: nat)
    requires Inv(hash, first, s) && id in s.writers && s.writers[id].at.Publishing? && WriterStep(hash, id, s, t)
    requires t.log != s.log
    ensures Inv(hash, first, t)
  {
    hide Known, Writes, Chained, Approved;
    var e := Wrote(id, s.disk.visible, Some(s.writers[id].at.temp));
    assert WriterInv(hash, s, id);
    ChainExtended(hash, first, s, t, e);
    forall entry
      ensures Known(first, s.log, entry) ==> Known(first, t.log, entry)
      ensures e.after == entry ==> Known(first, t.log, entry)
    {
      KnownMore(first, s.log, e, entry);
    }
    forall other: nat
      ensures Writes(t.log, other) == Writes(s.log, other) + if other == id then 1 else 0
    {
      WritesAppend(s.log, e, other);
    }
    forall other | other in t.writers
      ensures WriterInv(hash, t, other)
    {
      assert WriterInv(hash, s, other);
    }
  }

  lemma SyncDirInv(hash: string -> string, first: Option<Inode>, s: System, t: System, id: nat)
    requires Inv(hash, first, s) && id in s.writers && s.writers[id].at.SyncingDir? && WriterStep(hash, id, s, t)
    requires t.disk != s.disk
    ensures Inv(hash, first, t)
  {
    hide Known, Writes, Chained, Approved;
    ChainKept(hash, first, s, t);
    forall other | other in t.writers
      ensures WriterInv(hash, t, other)
    {
      assert WriterInv(hash, s, other) && WriterInv(hash, s, id);
    }
  }

  lemma ProcessCrashInv(hash: string -> string, first: Option<Inode>, s: System, t: System, id: nat)
    requires Inv(hash, first, s) && ProcessCrash(id, s, t)
    ensures Inv(hash, first, t)
  {
    hide Known, Writes, Chained, Approved;
    ChainKept(hash, first, s, t);
    forall other | other in t.writers
      ensures WriterInv(hash, t, other)
    {
      assert WriterInv(hash, s, other);
    }
  }

  /** A machine crash reveals a whole content, because every published file was synced first. */
  lemma CrashRevealsWhole(hash: string -> string, first: Option<Inode>, s: System, t: System)
    requires Inv(hash, first, s) && MachineCrash(s, t)
    ensures t.disk.visible in s.disk.crashable && t.disk.crashable == {t.disk.visible}
    ensures t.log == s.log + [Reverted(s.disk.visible, t.disk.visible)] && t.lock.None?
    ensures t.writers == map id | id in s.writers :: s.writers[id].(at := Dead)
  {
    hide Known, Writes, Chained, WriterInv;
    var was, now :|
      && was in s.disk.crashable && Survives(was, now)
      && t == System(Disk(now, {now}), None, map id | id in s.writers :: s.writers[id].(at := Dead),
                     s.log + [Reverted(s.disk.visible, now)]);
    assert Whole(was) && now == was;
  }

  lemma MachineCrashInv(hash: string -> string, first: Option<Inode>, s: System, t: System)
    requires Inv(hash, first, s) && MachineCrash(s, t)
    ensures Inv(hash, first, t)
  {
    CrashRevealsWhole(hash, first, s, t);
    hide Known, Writes, Chained, Approved, MachineCrash;
    var e := Reverted(s.disk.visible, t.disk.visible);
    assert SameCalls(s, t);
    ChainExtended(hash, first, s, t, e);
    KnownMore(first, s.log, e, t.disk.visible);
    forall other: nat
      ensures Writes(t.log, other) == Writes(s.log, other)
    {
      WritesAppend(s.log, e, other);
    }
    forall other | other in t.writers
      ensures WriterInv(hash, t, other)
    {
      assert t.writers[other].at.Dead?;
    }
    hide WriterInv, SameCalls;
  }

  lemma SpawnInv(hash: string -> string, first: Option<Inode>, s: System, t: System)
    requires Inv(hash, first, s) && Spawn(s, t)
    ensures Inv(hash, first, t)
  {
    hide Known, Writes, Chained, Approved;
    ChainKept(hash, first, s, t);
    forall other | other in s.writers
      ensures WriterInv(hash, t, other)
    {
      assert WriterInv(hash, s, other);
    }
  }

  lemma StepKeepsInv(hash: string -> string, first: Option<Inode>, s: System, t: System)
    requires Inv(hash, first, s) && Step(hash, s, t)
    ensures Inv(hash, first, t)
  {
    hide Inv;
    if id: nat :| WriterStep(hash, id, s, t) {
      if t.disk == s.disk && t.log == s.log {
        QuietStepInv(hash, first, s, t, id);
      } else if s.writers[id].at.SyncingDir? {
        SyncDirInv(hash, first, s, t, id);
      } else {
        PublishInv(hash, first, s, t, id);
      }
    } else if id: nat :| ProcessCrash(id, s, t) {
      ProcessCrashInv(hash, first, s, t, id);
    } else if MachineCrash(s, t) {
      MachineCrashInv(hash, first, s, t);
    } else {
      SpawnInv(hash, first, s, t);
    }
  }

  lemma {:induction false} RunKeepsInv(hash: string -> string, run: seq<System>, k: nat)
    requires IsRun(hash, run) && k < |run|
    ensures Inv(hash, run[0].disk.visible, run[k])
  {
    if k == 0 {
    } else {
      RunKeepsInv(hash, run, k - 1);
      StepKeepsInv(hash, run[0].disk.visible, run[k - 1], run[k]);
    }
  }

  // ---------------------------------------------------------------------------------------------
  // What one call sees of the others

  /** What other calls may have done as far as call id can tell: its own place is as it was, it wrote nothing, and
      while it holds the lock nothing else changed either. */
  predicate OthersMove(id: nat, s: System, t: System) {
    && id in s.writers && id in t.writers && t.writers[id] == s.writers[id] && Writes(t.log, id) == Writes(s.log, id)
    && (s.lock == Some(id) <==> t.lock == Some(id))
    && (s.lock == Some(id) ==> t.disk == s.disk && t.log == s.log)
  }

  ghost predicate OtherStep(hash: string -> string, id: nat, s: System, t: System) {
    || (exists other: nat :: other != id && WriterStep(hash, other, s, t))
    || (exists other: nat :: other != id && ProcessCrash(other, s, t))
    || Spawn(s, t)
  }

  /** Any steps of other calls, new ones and dying ones included, look like that. */
  lemma OthersKeepOut(hash: string -> string, first: Option<Inode>, s: System, t: System, id: nat)
    requires Inv(hash, first, s) && id in s.writers && OtherStep(hash, id, s, t)
    ensures OthersMove(id, s, t)
  {
    hide Known, Chained, Approved, Writes;
    assert WriterInv(hash, s, id);
    if other: nat :| other != id && WriterStep(hash, other, s, t) {
      assert WriterInv(hash, s, other);
      hide WriterInv;
      OtherWriterKeepsOut(hash, s, t, id, other);
    }
  }

  lemma OtherWriterKeepsOut(hash: string -> string, s: System, t: System, id: nat, other: nat)
    requires id in s.writers && other in s.writers && other != id && WriterStep(hash, other, s, t)
    requires InCriticalSection(s.writers[other].at) <==> s.lock == Some(other)
    ensures OthersMove(id, s, t)
  {
    hide Approved, Writes;
    if t.log != s.log {
      WritesAppend(s.log, t.log[|s.log|], id);
    }
  }

  lemma OthersMoveOn(id: nat, s: System, t: System, u: System)
    requires OthersMove(id, s, t) && OthersMove(id, t, u)
    ensures OthersMove(id, s, u)
  {
    hide Writes;
  }

  // ---------------------------------------------------------------------------------------------
  // Theorems over every run

  lemma {:induction false} NoWrites(log: seq<Event>, id: nat)
    ensures Writes(log, id) == 0 <==> forall e :: e in log ==> !(e.Wrote? && e.writer == id)
  {
    if log == [] {
    } else {
      NoWrites(log[..|log| - 1], id);
      assert log == log[..|log| - 1] + [log[|log| - 1]];
    }
  }

  /** The reported outcome is true: a known failure never changed the file, anything else changed it exactly
      once, to the call's whole content. */
  lemma OutcomesAreTrue(hash: string -> string, run: seq<System>, k: nat, id: nat)
    requires IsRun(hash, run) && k < |run| && id in run[k].writers && run[k].writers[id].at.Done?
    ensures run[k].writers[id].at.outcome.KnownFailed? <==>
              forall e :: e in run[k].log ==> !(e.Wrote? && e.writer == id)
    ensures !run[k].writers[id].at.outcome.KnownFailed? ==> Writes(run[k].log, id) == 1
    ensures forall e :: e in run[k].log && e.Wrote? && e.writer == id ==>
                          e.after == Some(Inode(run[k].writers[id].content, true))
  {
    hide Writes, Chained, Known;
    RunKeepsInv(hash, run, k);
    assert WriterInv(hash, run[k], id);
    NoWrites(run[k].log, id);
    SoundEvents(hash, run[0].disk.visible, run[k]);
  }

  lemma SoundEvents(hash: string -> string, first: Option<Inode>, s: System)
    requires Chained(hash, first, s)
    ensures forall e :: e in s.log ==> Sound(hash, s.writers, e)
  {
  }

  /** When a call is about to report known-committed its whole content is visible and a machine crash keeps it;
      when it is about to report uncertain the content is visible. */
  lemma CommittedIsDurable(hash: string -> string, run: seq<System>, k: nat, id: nat, crashed: System)
    requires IsRun(hash, run) && k < |run| && id in run[k].writers
    requires run[k].writers[id].at.Unlocking? && !run[k].writers[id].at.outcome.KnownFailed?
    ensures run[k].disk.visible == Some(Inode(run[k].writers[id].content, true))
    ensures run[k].writers[id].at.outcome.KnownCommitted? && MachineCrash(run[k], crashed) ==>
              crashed.disk.visible == Some(Inode(run[k].writers[id].content, true))
  {
    RunKeepsInv(hash, run, k);
    assert WriterInv(hash, run[k], id);
    hide Chained, Known, Writes, WriterInv, MachineCrash;
    if MachineCrash(run[k], crashed) {
      CrashRevealsWhole(hash, run[0].disk.visible, run[k], crashed);
    }
  }

  /** No reader ever opens a partial file: what is visible is the initial file or some call's whole content. */
  lemma ReadersSeeWhole(hash: string -> string, run: seq<System>, k: nat)
    requires IsRun(hash, run) && k < |run|
    ensures run[k].disk.visible == run[0].disk.visible
            || exists id :: id in run[k].writers && run[k].disk.visible == Some(Inode(run[k].writers[id].content, true))
  {
    RunKeepsInv(hash, run, k);
    hide Writes, WriterInv;
    var s, first := run[k], run[0].disk.visible;
    if s.disk.visible != first {
      var i :| 0 <= i < |s.log| && s.log[i].Wrote? && s.log[i].after == s.disk.visible;
      assert Sound(hash, s.writers, s.log[i]);
    }
  }

  /** No lost update: each event starts from exactly what the one before it left, and every write of a call that
      names an expected hash, or asks for no file, replaced exactly that. */
  lemma NoLostUpdate(hash: string -> string, run: seq<System>, k: nat, i: nat)
    requires IsRun(hash, run) && k < |run| && i < |run[k].log|
    ensures run[k].log[i].before == Left(run[0].disk.visible, run[k].log, i)
    ensures run[k].disk.visible == Left(run[0].disk.visible, run[k].log, |run[k].log|)
    ensures run[k].log[i].Wrote? ==>
              && run[k].log[i].writer in run[k].writers
              && var o := run[k].writers[run[k].log[i].writer].options;
                 && (o.createOnly ==> run[k].log[i].before.None?)
                 && (o.expected.Some? ==> run[k].log[i].before.Some?
                                          && hash(run[k].log[i].before.value.text) == o.expected.value)
  {
    RunKeepsInv(hash, run, k);
    hide Known, Writes, WriterInv;
    assert Sound(hash, run[k].writers, run[k].log[i]);
  }

  /** The lock excludes: two calls are never between their check and their write together. */
  lemma MutualExclusion(hash: string -> string, run: seq<System>, k: nat, a: nat, b: nat)
    requires IsRun(hash, run) && k < |run| && a in run[k].writers && b in run[k].writers
    requires InCriticalSection(run[k].writers[a].at) && InCriticalSection(run[k].writers[b].at)
    ensures a == b
  {
    RunKeepsInv(hash, run, k);
    hide Known, Writes, Chained;
    assert WriterInv(hash, run[k], a) && WriterInv(hash, run[k], b);
  }

  /** A call with neither an expected hash nor create-only may overwrite a version it never saw: two such calls,
      of any contents, are both under way before anything is written, both succeed, and the second replaces what
      the first has just committed. */
  lemma UnguardedLosesUpdates(hash: string -> string, a: string, b: string) returns (run: seq<System>, m: nat)
    ensures IsRun(hash, run) && m < |run| && run[m].log == [] && run[m].disk.visible == None
    ensures var o := Options(None, false, true);
            run[m].writers == map[0 := Writer(a, o, Starting), 1 := Writer(b, o, Starting)]
    ensures var t := run[|run| - 1];
            && t.log == [Wrote(0, None, Some(Inode(a, true))), Wrote(1, Some(Inode(a, true)), Some(Inode(b, true)))]
            && (forall id :: id in {0, 1} ==> id in t.writers && t.writers[id].at == Done(KnownCommitted))
            && t.disk.visible == Some(Inode(b, true))
  {
    var o := Options(None, false, true);
    m := 2;
    var s0 := System(Disk(None, {None}), None, map[], []);
    var s1 := s0.(writers := map[0 := Writer(a, o, Starting)]);
    assert Spawn(s0, s1) by { assert 0 !in s0.writers && s1 == s0.(writers := s0.writers[0 := Writer(a, o, Starting)]); }
    var s2 := s1.(writers := s1.writers[1 := Writer(b, o, Starting)]);
    assert Spawn(s1, s2) by { assert 1 !in s1.writers && s2 == s1.(writers := s1.writers[1 := Writer(b, o, Starting)]); }
    var first := WriteThrough(hash, s2, 0);
    var second := WriteThrough(hash, first[|first| - 1], 1);
    run := [s0, s1] + first + second[1..];
    assert run[|run| - 1] == second[|second| - 1];
    forall i | 0 < i < |run|
      ensures Step(hash, run[i - 1], run[i])
    {
      if i >= |first| + 2 {
        assert run[i] == second[i - |first| - 1] && run[i - 1] == second[i - |first| - 2];
      } else if i > 2 {
        assert run[i] == first[i - 2] && run[i - 1] == first[i - 3];
      }
    }
  }

  /** An undisturbed write of an unguarded call, up to the rename. */
  lemma WriteTemp(hash: string -> string, s: System, id: nat) returns (run: seq<System>)
    requires id in s.writers && s.writers[id].at.Starting? && s.lock.None?
    requires s.writers[id].options == Options(None, false, true)
    ensures |run| == 7 && run[0] == s && forall i :: 0 < i < |run| ==> Step(hash, run[i - 1], run[i])
    ensures run[6] == At(s, id, Publishing(Inode(s.writers[id].content, true))).(lock := Some(id))
  {
    var c := s.writers[id].content;
    var s1 := At(s, id, ReadingCurrent).(lock := Some(id));
    var s2 := At(s1, id, CreatingTemp);
    var s3 := At(s2, id, Filling);
    var s4 := At(s3, id, SyncingTemp(Inode(c, false)));
    var s5 := At(s4, id, ClosingTemp(Inode(c, true)));
    var s6 := At(s5, id, Publishing(Inode(c, true)));
    run := [s, s1, s2, s3, s4, s5, s6];
    assert WriterStep(hash, id, s, s1) && WriterStep(hash, id, s1, s2) && WriterStep(hash, id, s2, s3);
    assert WriterStep(hash, id, s3, s4) && WriterStep(hash, id, s4, s5) && WriterStep(hash, id, s5, s6);
    hide WriterStep;
  }

  /** And from the rename on. */
  lemma Publish(hash: string -> string, s: System, id: nat) returns (run: seq<System>)
    requires id in s.writers && s.writers[id].at.Publishing? && !s.writers[id].options.createOnly
    ensures |run| == 4 && run[0] == s && forall i :: 0 < i < |run| ==> Step(hash, run[i - 1], run[i])
    ensures run[3] == At(s, id, Done(KnownCommitted)).(
                        disk := Disk(Some(s.writers[id].at.temp), {Some(s.writers[id].at.temp)}), lock := None,
                        log := s.log + [Wrote(id, s.disk.visible, Some(s.writers[id].at.temp))])
  {
    var entry := Some(s.writers[id].at.temp);
    var s1 := At(s, id, SyncingDir).(disk := Disk(entry, s.disk.crashable + {entry}),
                                     log := s.log + [Wrote(id, s.disk.visible, entry)]);
    var s2 := At(s1, id, Unlocking(KnownCommitted)).(disk := s1.disk.(crashable := {s1.disk.visible}));
    var s3 := At(s2, id, Done(KnownCommitted)).(lock := None);
    run := [s, s1, s2, s3];
    assert WriterStep(hash, id, s, s1) && WriterStep(hash, id, s1, s2) && WriterStep(hash, id, s2, s3);
    hide WriterStep;
  }

  lemma WriteThrough(hash: string -> string, s: System, id: nat) returns (run: seq<System>)
    requires id in s.writers && s.writers[id].at.Starting? && s.lock.None?
    requires s.writers[id].options == Options(None, false, true)
    ensures |run| == 10 && run[0] == s && forall i :: 0 < i < |run| ==> Step(hash, run[i - 1], run[i])
    ensures run[9] == At(s, id, Done(KnownCommitted)).(
                        disk := Disk(Some(Inode(s.writers[id].content, true)), {Some(Inode(s.writers[id].content, true))}),
                        log := s.log + [Wrote(id, s.disk.visible, Some(Inode(s.writers[id].content, true)))])
  {
    hide Step;
    var first := WriteTemp(hash, s, id);
    var second := Publish(hash, first[6], id);
    run := first + second[1..];
    forall i | 0 < i < |run|
      ensures Step(hash, run[i - 1], run[i])
    {
      if i > 6 {
        assert run[i] == second[i - 6] && run[i - 1] == second[i - 7];
      }
    }
  }
}
