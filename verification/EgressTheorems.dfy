/** What the egress protocol promises, over every run of commands, effects and crashes. */
module EgressTheorems {
  import opened Wrappers
  import opened ExactEgress
  import opened SessionRecord
  import opened EgressMachine
  import opened EgressSafety

  // ---------------------------------------------------------------------------------------------
  // Every run

  ghost function BaseOf(s: State): Record
    requires Initial(s)
  {
    var r :| s.world.possible == {r} && ValidRecord(r) && r.status == Running
             && RuntimeAuthority(s.world.runtime) <= RecordAuthority(r);
    r
  }

  lemma InitialInv(s: State)
    requires Initial(s)
    ensures Inv(s, BaseOf(s))
  {
    hide ValidRecord, RecordAuthority, RuntimeAuthority;
  }

  lemma StepKeepsInv(s: State, s': State, base: Record)
    requires Inv(s, base) && Step(s, s')
    ensures Inv(s', base)
  {
    hide Perform, Request, Resume, Start, Guarded, DriverInv;
    InvParts(s, s', base);
    if EffectStep(s, s') {
      var reply :| Perform(Request(s.driver), s.world, reply, s'.world) && s'.driver == Resume(s.driver, reply);
      EffectKeepsInv(s, reply, s'.world, base);
    } else if CrashStep(s, s') {
      IdleInv(s'.world, base);
    } else {
      var r, cmd :| s.driver.Idle? && r in s.world.possible
                    && s' == State(s.world.(possible := {r}, evidence := Unproven), Start(r, cmd));
      StartInv(r, cmd, s.world, base);
    }
  }

  lemma IdleInv(w: World, base: Record)
    ensures DriverInv(Idle, w, base)
  {}

  lemma {:induction false} RunInv(run: seq<State>, k: nat)
    requires IsRun(run) && k < |run|
    ensures Inv(run[k], BaseOf(run[0]))
  {
    hide Inv, Step;
    if k == 0 {
      InitialInv(run[0]);
    } else {
      RunInv(run, k - 1);
      assert Step(run[k - 1], run[k - 1 + 1]);
      StepKeepsInv(run[k - 1], run[k], BaseOf(run[0]));
    }
  }

  /** In every run, at every point, the runtime authority is within every record the disk may hold,
      and no record that says stopped coexists with a live runtime. */
  lemma EveryRunBoundsRuntime(run: seq<State>, k: nat)
    requires IsRun(run) && k < |run|
    ensures run[k].world.possible != {}
    ensures forall p :: p in run[k].world.possible ==>
              RuntimeAuthority(run[k].world.runtime) <= RecordAuthority(p)
    ensures forall p :: p in run[k].world.possible && p.status == Stopped ==> run[k].world.runtime == Absent
  {
    hide ValidRecord, RecordAuthority, RuntimeAuthority, DriverInv;
    RunInv(run, k);
  }

  /** Every record a driver asks to commit is valid and framed on the transaction's current version,
      so the store never answers stale or corrupt. */
  lemma EveryCandidateIsAcceptable(run: seq<State>, k: nat)
    requires IsRun(run) && k < |run| && Request(run[k].driver).Commit?
    ensures Request(run[k].driver).candidate.version == Request(run[k].driver).tx.version
    ensures ValidRecord(Request(run[k].driver).candidate)
  {
    hide Step;
    RunInv(run, k);
    CandidateAcceptable(run[k], BaseOf(run[0]));
  }

  lemma CandidateAcceptable(s: State, base: Record)
    requires Inv(s, base) && Request(s.driver).Commit?
    ensures Request(s.driver).candidate.version == Request(s.driver).tx.version
    ensures ValidRecord(Request(s.driver).candidate)
  {
    hide ValidRecord, RecordAuthority, RuntimeAuthority, RecordGeneration, IsOneGrantNarrower, ValidRuntimeState;
    var d := s.driver;
    var tx := Request(d).tx;
    match d {
      case StableCommit(_, _) => assert tx in s.world.possible; AcknowledgedValid(tx);
      case DurableCommit(_, _) => assert tx in s.world.possible; AcknowledgedValid(tx);
      case WidenFinal(_, _, _) => assert tx in s.world.possible; AcknowledgedValid(tx);
      case CandidateCommit(_, _) =>
        assert tx in s.world.possible; TransitionGrantable(tx); TakeCandidateValid(tx);
      case NarrowFinal(_, _, _) =>
        assert tx in s.world.possible; NarrowReverts(tx, d.cur, d.next); TransitionGrantable(tx); TakeCandidateValid(tx);
      case WidenCommit(cur, next) => WidenIntentValid(cur, next);
      case NarrowCommit(cur, next) => NarrowIntentValid(cur, next);
      case _ =>
    }
  }

  /** What a runtime effect proved is true of the runtime. */
  lemma {:induction false} EvidenceIsTrue(run: seq<State>, k: nat)
    requires IsRun(run) && k < |run| && run[0].world.evidence == Unproven
    ensures match run[k].world.evidence
            case Unproven => true
            case Seen(g) => run[k].world.runtime == Serving(g)
            case ProvenAbsent => run[k].world.runtime == Absent
  {
    if k == 0 {
    } else {
      EvidenceIsTrue(run, k - 1);
      assert Step(run[k - 1], run[k - 1 + 1]);
      EvidenceStep(run[k - 1], run[k]);
    }
  }

  ghost predicate EvidenceTrue(w: World) {
    match w.evidence
    case Unproven => true
    case Seen(g) => w.runtime == Serving(g)
    case ProvenAbsent => w.runtime == Absent
  }

  lemma EvidenceStep(s: State, s': State)
    requires EvidenceTrue(s.world) && Step(s, s')
    ensures EvidenceTrue(s'.world)
  {
    hide Request, Resume, Start, ValidRecord;
  }

  /** Durable authority is only ever reduced by a commit whose exact generation the last runtime effect
      observed, or after a teardown that proved there is no runtime. */
  lemma ShrinkNeedsProof(run: seq<State>, k: nat, p: Record)
    requires IsRun(run) && k < |run| && Request(run[k].driver).Commit? && p in run[k].world.possible
    requires !(RecordAuthority(p) <= RecordAuthority(Request(run[k].driver).candidate))
    ensures var c := Request(run[k].driver).candidate;
            run[k].world.evidence == Seen(RecordGeneration(c)) || run[k].world.evidence == ProvenAbsent
  {
    hide Step;
    RunInv(run, k);
    ShrinkNeedsProofAt(run[k], BaseOf(run[0]), p);
  }

  lemma ShrinkNeedsProofAt(s: State, base: Record, p: Record)
    requires Inv(s, base) && Request(s.driver).Commit? && p in s.world.possible
    requires !(RecordAuthority(p) <= RecordAuthority(Request(s.driver).candidate))
    ensures var c := Request(s.driver).candidate;
            s.world.evidence == Seen(RecordGeneration(c)) || s.world.evidence == ProvenAbsent
  {
    hide ValidRecord, RecordAuthority, RuntimeAuthority, RecordGeneration, IsOneGrantNarrower, ValidRuntimeState,
         CandidateGeneration;
    var d := s.driver;
    var tx, c := Request(d).tx, Request(d).candidate;
    match d {
      case CandidateCommit(_, _) => TransitionGrantable(tx); TakeCandidateValid(tx);
      case NarrowFinal(_, _, _) => NarrowReverts(tx, d.cur, d.next); TransitionGrantable(tx); TakeCandidateValid(tx);
      case WidenCommit(cur, next) => WidenIntentValid(cur, next); SameAuthority(next, c);
      case NarrowCommit(cur, next) => SameAuthority(cur, c);
      case RestoreCommit(_, cur) => SameAuthority(cur, tx); SameAuthority(cur, c);
      case UndoCommit(_, cur) => SameAuthority(cur, tx); SameAuthority(cur, c);
      case FailMark(_, _, _) =>
      case _ => SameAuthority(tx, c);
    }
  }

  /** The only records that ever join the possible ones are the candidate of the running commit. */
  lemma OnlyCommitsAddRecords(s: State, s': State, q: Record)
    requires Step(s, s') && q in s'.world.possible && q !in s.world.possible
    ensures Request(s.driver).Commit? && q == Stored(Request(s.driver).candidate)
  {
    hide Request, Resume, Start, ValidRecord;
  }

  /** A command that returns nil leaves one possible record, no transition, and a proxy that enforces
      exactly that record's generation: recovery, grant (duplicates included), revoke and dismiss. */
  lemma SuccessIsExact(run: seq<State>, k: nat, tx: Record)
    requires IsRun(run) && k < |run| && run[k].driver == Done(true, tx)
    ensures run[k].world.possible == {tx} && tx.status == Running && tx.transition.None?
    ensures run[k].world.runtime == Serving(RecordGeneration(tx))
    ensures RuntimeAuthority(run[k].world.runtime) == RecordAuthority(tx)
    ensures tx.applied == AppliedOf(RecordGeneration(tx))
  {
    hide Step, ValidRecord, RecordAuthority, RuntimeAuthority, RecordGeneration;
    RunInv(run, k);
    ServesAuthority(tx);
  }

  // ---------------------------------------------------------------------------------------------
  // Crash atomicity of one command

  /** The durable mutable authority of a record. */
  type Authority = (seq<SessionRecord.Grant>, int)

  function Pair(r: Record): Authority { (r.grants, r.revision) }

  /** The authority recovery may leave instead of the record's own: a pending narrow candidate. */
  function PendingPair(r: Record): Authority {
    if r.transition.Some? && r.transition.value.direction == Narrowing
    then (r.transition.value.grants, r.transition.value.revision) else Pair(r)
  }

  /** The authority a command asks for on a recovered record. */
  function CommandPair(r: Record, cmd: Command): Authority {
    match cmd
    case Grant(dest, id) =>
      (match AppendGrant(r, dest, id)
       case Appended(next, _) => Pair(next)
       case _ => Pair(r))
    case Revoke(id) => if RevokeGrant(r, id).Some? then Pair(RevokeGrant(r, id).value) else Pair(r)
    case RecoverOnly | Dismiss(_, _) => Pair(r)
  }

  /** Every record the disk may hold has one of two authorities. */
  ghost predicate DiskWithin(w: World, a: Authority, b: Authority) {
    forall p :: p in w.possible ==> Pair(p) in {a, b}
  }

  /** One operation in progress: effects and a possible crash, no new command. */
  ghost predicate IsOperation(run: seq<State>) {
    |run| > 0 && forall i :: 0 <= i < |run| - 1 ==> EffectStep(run[i], run[i + 1]) || CrashStep(run[i], run[i + 1])
  }

  /** The driver died, finished, or is failing closed over one of two authorities. */
  predicate Ending(d: Driver, a: Authority, b: Authority) {
    match d
    case Idle | Done(_, _) => true
    case FailTeardown(_, upper, restore) =>
      Pair(upper) in {a, b} && (restore.Some? ==> Pair(restore.value) in {a, b})
    case FailMark(_, mark, _) => Pair(mark) in {a, b}
    case _ => false
  }

  /** A command still in its recovery, on a record with authority a and pending authority b. */
  predicate Recovering(d: Driver, cmd: Command, a: Authority, b: Authority) {
    if RecoveryPosition(d) then d.cmd == cmd && Pair(d.tx) == a && PendingPair(d.tx) == b
    else Ending(d, a, b)
  }

  /** A record under a narrow marker: the old authority is durable, the new one pending. */
  predicate UnderIntent(tx: Record, a: Authority, b: Authority) {
    Pair(tx) == a && (tx.transition.Some? ==> Pair(TakeCandidate(tx)) == b)
  }

  /** A command past its recovery, between authority a and its next authority b. */
  predicate Commanding(d: Driver, a: Authority, b: Authority) {
    match d
    case WidenCommit(cur, next) => Pair(cur) == a && Pair(next) == b
    case WidenApply(tx, cur, _) => Pair(tx) == b && Pair(cur) == a
    case WidenConfirm(tx, cur, _) => Pair(tx) == b && Pair(cur) == a
    case WidenFinal(tx, cur, _) => Pair(tx) == b && Pair(cur) == a
    case NarrowCommit(cur, next) => Pair(cur) == a && Pair(next) == b
    case NarrowApply(tx, cur, _) => Pair(cur) == a && UnderIntent(tx, a, b)
    case NarrowConfirm(tx, cur, _) => Pair(cur) == a && UnderIntent(tx, a, b)
    case NarrowFinal(tx, cur, _) => Pair(cur) == a && UnderIntent(tx, a, b)
    case RestoreApply(tx, cur) => Pair(tx) == a && Pair(cur) == a
    case RestoreCommit(tx, cur) => Pair(tx) == a && Pair(cur) == a
    case UndoApply(tx, cur) => Pair(tx) == a && Pair(cur) == a
    case UndoCommit(tx, cur) => Pair(tx) == a && Pair(cur) == a
    case DismissCommit(tx, next) => Pair(tx) == a && Pair(next) == a
    case _ => Ending(d, a, b)
  }

  lemma StartsRecovering(tx: Record, cmd: Command)
    ensures Recovering(Start(tx, cmd), cmd, Pair(tx), PendingPair(tx))
  {
    hide RecordGeneration;
  }

  lemma ProceedsCommanding(tx: Record, cmd: Command)
    ensures Commanding(Proceed(tx, cmd), Pair(tx), CommandPair(tx, cmd))
  {
    hide ValidRuntimeState;
  }

  /** The record recovery leaves behind when an effect ends it. */
  function Recovered(d: Driver): Record
    requires RecoveryPosition(d)
  {
    if d.StableInspect? then d.tx
    else if d.CandidateCommit? && d.tx.transition.Some? then Stored(TakeCandidate(d.tx))
    else Stored(Acknowledged(d.tx))
  }

  ghost predicate Recovers(s: State, c: Record, cmd: Command) {
    s.driver == Proceed(c, cmd) && s.world.possible == {c}
  }

  lemma RecoveryResumes(d: Driver, reply: Reply, cmd: Command, a: Authority, b: Authority)
    requires RecoveryPosition(d) && Recovering(d, cmd, a, b)
    requires d.CandidateCommit? ==> d.tx.transition.Some? && d.tx.transition.value.direction == Narrowing
    ensures Recovering(Resume(d, reply), cmd, a, b)
            || (Resume(d, reply) == Proceed(Recovered(d), cmd) && Pair(Recovered(d)) in {a, b}
                && (d.StableInspect? || (Request(d).Commit? && reply == CommitOk)))
    ensures Request(d).Commit? ==> Pair(Request(d).candidate) in {a, b} && Recovered(d) == Stored(Request(d).candidate)
  {
    hide RecordGeneration, CandidateGeneration, Proceed;
  }

  lemma RecoveryAt(s: State, base: Record)
    requires Inv(s, base) && RecoveryPosition(s.driver)
    ensures s.world.possible == {s.driver.tx}
    ensures s.driver.CandidateCommit? ==>
              s.driver.tx.transition.Some? && s.driver.tx.transition.value.direction == Narrowing
    ensures Request(s.driver).Commit? || Request(s.driver).BeginApply? || Request(s.driver).ApplyAndInspect?
            || Request(s.driver) in {InspectNow, InspectApplied}
    ensures s.driver.StableInspect? ==> Request(s.driver) == InspectNow
  {
    hide Guarded, ValidRecord, RecordGeneration, CandidateGeneration;
  }

  /** An effect of recovery keeps both authorities, or ends recovery on one record with one of them. */
  lemma RecoveryStep(s: State, s': State, base: Record, cmd: Command, a: Authority, b: Authority)
    requires Inv(s, base) && EffectStep(s, s') && RecoveryPosition(s.driver)
    requires DiskWithin(s.world, a, b) && Recovering(s.driver, cmd, a, b)
    ensures DiskWithin(s'.world, a, b)
    ensures Recovering(s'.driver, cmd, a, b)
            || (Recovers(s', Recovered(s.driver), cmd) && Pair(Recovered(s.driver)) in {a, b})
  {
    hide RecordGeneration, ValidRecord, Proceed, Inv, Recovering, Request, Resume;
    var reply := TakeReply(s, s');
    RecoveryAt(s, base);
    RecoveryResumes(s.driver, reply, cmd, a, b);
  }

  lemma EndingStep(s: State, s': State, a: Authority, b: Authority)
    requires EffectStep(s, s') && DiskWithin(s.world, a, b) && Ending(s.driver, a, b)
    ensures DiskWithin(s'.world, a, b) && Ending(s'.driver, a, b)
  {
    hide ValidRecord, RecordGeneration;
    var reply := TakeReply(s, s');
  }

  lemma CommandResumes(d: Driver, reply: Reply, a: Authority, b: Authority)
    requires Commanding(d, a, b)
    ensures Commanding(Resume(d, reply), a, b)
  {
    hide RecordGeneration, CandidateGeneration, Proceed;
  }

  lemma CommandCommits(d: Driver, a: Authority, b: Authority)
    requires Commanding(d, a, b) && Request(d).Commit?
    ensures Pair(Request(d).candidate) in {a, b}
  {
    hide RecordGeneration, CandidateGeneration;
  }

  lemma CommandStep(s: State, s': State, a: Authority, b: Authority)
    requires EffectStep(s, s')
    requires DiskWithin(s.world, a, b) && Commanding(s.driver, a, b)
    ensures DiskWithin(s'.world, a, b) && Commanding(s'.driver, a, b)
  {
    hide Resume, Request, ValidRecord, Commanding, RecordGeneration;
    var reply := TakeReply(s, s');
    CommandResumes(s.driver, reply, a, b);
    if Request(s.driver).Commit? {
      CommandCommits(s.driver, a, b);
    }
  }

  lemma TakeReply(s: State, s': State) returns (reply: Reply)
    requires EffectStep(s, s')
    ensures Perform(Request(s.driver), s.world, reply, s'.world) && s'.driver == Resume(s.driver, reply)
  {
    reply :| Perform(Request(s.driver), s.world, reply, s'.world) && s'.driver == Resume(s.driver, reply);
  }

  /** Before the k-th state the disk only ever held the authority of record tx or its pending one. */
  ghost predicate OnlyRecovered(run: seq<State>, k: nat, tx: Record)
    requires k <= |run|
  {
    forall i :: 0 <= i < k ==> DiskWithin(run[i].world, Pair(tx), PendingPair(tx))
  }

  /** Recovery of record tx ended at the j-th state with record c, and the command went on from there. */
  ghost predicate WentOn(run: seq<State>, k: nat, tx: Record, cmd: Command, j: nat, c: Record)
    requires k < |run|
  {
    && j <= k && OnlyRecovered(run, j, tx)
    && Recovers(run[j], c, cmd) && Pair(c) in {Pair(tx), PendingPair(tx)}
    && forall i :: j <= i <= k ==> DiskWithin(run[i].world, Pair(c), CommandPair(c, cmd))
  }

  ghost predicate StillRecovering(run: seq<State>, k: nat, tx: Record, cmd: Command)
    requires k < |run|
  {
    OnlyRecovered(run, k + 1, tx) && Recovering(run[k].driver, cmd, Pair(tx), PendingPair(tx))
  }

  ghost predicate NowCommanding(run: seq<State>, k: nat, tx: Record, cmd: Command)
    requires k < |run|
  {
    exists j, c :: WentOn(run, k, tx, cmd, j, c) && Commanding(run[k].driver, Pair(c), CommandPair(c, cmd))
  }

  lemma RecoveryContinues(run: seq<State>, k: nat, base: Record, tx: Record, cmd: Command)
    requires 0 < k < |run| && Inv(run[k - 1], base) && StillRecovering(run, k - 1, tx, cmd)
    requires EffectStep(run[k - 1], run[k]) || CrashStep(run[k - 1], run[k])
    ensures StillRecovering(run, k, tx, cmd) || NowCommanding(run, k, tx, cmd)
  {
    hide EffectStep, Recovering, Ending, Commanding, Recovers, Inv, DiskWithin, Proceed, CommandPair;
    var s, s', a, b := run[k - 1], run[k], Pair(tx), PendingPair(tx);
    if !EffectStep(s, s') {
      IdleEnds(s.world, s'.world, cmd, a, b);
    } else if RecoveryPosition(s.driver) {
      RecoveryStep(s, s', base, cmd, a, b);
      if !Recovering(s'.driver, cmd, a, b) {
        var c := Recovered(s.driver);
        RecoveredCommands(s', c, cmd);
        assert WentOn(run, k, tx, cmd, k, c);
      }
    } else {
      RecoveringEnds(s.driver, cmd, a, b);
      EndingStep(s, s', a, b);
      EndingRecovers(s'.driver, cmd, a, b);
    }
  }

  lemma RecoveredCommands(s: State, c: Record, cmd: Command)
    requires Recovers(s, c, cmd)
    ensures DiskWithin(s.world, Pair(c), CommandPair(c, cmd))
    ensures Commanding(s.driver, Pair(c), CommandPair(c, cmd))
  {
    hide Proceed, CommandPair, Commanding;
    ProceedsCommanding(c, cmd);
  }

  lemma IdleEnds(w: World, w': World, cmd: Command, a: Authority, b: Authority)
    requires DiskWithin(w, a, b) && w' == w
    ensures DiskWithin(w', a, b) && Recovering(Idle, cmd, a, b) && Commanding(Idle, a, b)
  {}

  lemma RecoveringEnds(d: Driver, cmd: Command, a: Authority, b: Authority)
    requires Recovering(d, cmd, a, b) && !RecoveryPosition(d)
    ensures Ending(d, a, b)
  {}

  lemma EndingRecovers(d: Driver, cmd: Command, a: Authority, b: Authority)
    requires Ending(d, a, b)
    ensures Recovering(d, cmd, a, b)
  {}

  lemma CommandContinues(run: seq<State>, k: nat, tx: Record, cmd: Command)
    requires 0 < k < |run| && NowCommanding(run, k - 1, tx, cmd)
    requires EffectStep(run[k - 1], run[k]) || CrashStep(run[k - 1], run[k])
    ensures NowCommanding(run, k, tx, cmd)
  {
    hide EffectStep, Commanding, Recovers, DiskWithin, CommandPair, OnlyRecovered;
    var j, c :| WentOn(run, k - 1, tx, cmd, j, c) && Commanding(run[k - 1].driver, Pair(c), CommandPair(c, cmd));
    var s, s', a, b := run[k - 1], run[k], Pair(c), CommandPair(c, cmd);
    if EffectStep(s, s') {
      CommandStep(s, s', a, b);
    } else {
      IdleEnds(s.world, s'.world, cmd, a, b);
    }
    assert WentOn(run, k, tx, cmd, j, c);
  }

  lemma {:induction false} CommandPhases(run: seq<State>, k: nat, base: Record, tx: Record, cmd: Command)
    requires IsOperation(run) && k < |run| && Inv(run[0], base)
    requires run[0].driver == Start(tx, cmd) && run[0].world.possible == {tx}
    ensures Inv(run[k], base) && (StillRecovering(run, k, tx, cmd) || NowCommanding(run, k, tx, cmd))
  {
    hide EffectStep, Inv, Recovering, NowCommanding, Start;
    if k == 0 {
      StartsRecovering(tx, cmd);
    } else {
      CommandPhases(run, k - 1, base, tx, cmd);
      var s, s' := run[k - 1], run[k - 1 + 1];
      assert EffectStep(s, s') || CrashStep(s, s');
      StepKeepsInv(s, s', base);
      if StillRecovering(run, k - 1, tx, cmd) {
        RecoveryContinues(run, k, base, tx, cmd);
      } else {
        CommandContinues(run, k, tx, cmd);
      }
    }
  }

  /** Any command, its recovery included, is crash atomic. Until recovery ends, each record the disk may
      hold carries exactly the authority of the record the command read or the one its narrow marker
      names. From then on each carries what recovery left or the command's next authority. */
  lemma CommandIsAtomic(run: seq<State>, k: nat, base: Record, tx: Record, cmd: Command)
    requires IsOperation(run) && k < |run| && Inv(run[0], base)
    requires run[0].driver == Start(tx, cmd) && run[0].world.possible == {tx}
    ensures OnlyRecovered(run, k + 1, tx) || exists j, c :: WentOn(run, k, tx, cmd, j, c)
  {
    hide EffectStep, Inv, Recovering, Commanding, WentOn, OnlyRecovered;
    CommandPhases(run, k, base, tx, cmd);
  }

  /** The same of every stretch of a run that starts where a command has just read a record. */
  lemma EveryCommandIsAtomic(run: seq<State>, m: nat, op: seq<State>, k: nat, tx: Record, cmd: Command)
    requires IsRun(run) && m + |op| <= |run| && op == run[m..m + |op|] && IsOperation(op) && k < |op|
    requires op[0].driver == Start(tx, cmd) && op[0].world.possible == {tx}
    ensures OnlyRecovered(op, k + 1, tx) || exists j, c :: WentOn(op, k, tx, cmd, j, c)
  {
    hide Initial, Step, IsOperation, WentOn, OnlyRecovered, Inv, Start;
    RunInv(run, m);
    CommandIsAtomic(op, k, BaseOf(run[0]), tx, cmd);
  }

  // ---------------------------------------------------------------------------------------------
  // After an uncertain final narrow commit nothing is applied any more

  predicate FailingClosed(d: Driver) {
    d.FailTeardown? || d.FailMark? || d.Done? || d.Idle?
  }

  /** From an uncertain final narrow commit on (the revoke's or the recovered one's), the operation
      never issues another apply, so a wider runtime is never restored over it. */
  lemma {:induction false} NoApplyAfterUncertainNarrow(run: seq<State>, j: nat, k: nat)
    requires IsOperation(run) && j < k < |run|
    requires run[j].driver.NarrowFinal? || run[j].driver.CandidateCommit?
    requires run[j + 1].driver == Resume(run[j].driver, CommitUncertain)
    ensures FailingClosed(run[k].driver)
    ensures !Request(run[k].driver).BeginApply? && !Request(run[k].driver).ApplyAndInspect?
    decreases k
  {
    hide EffectStep, Resume;
    if k > j + 1 {
      NoApplyAfterUncertainNarrow(run, j, k - 1);
      assert EffectStep(run[k - 1], run[k - 1 + 1]) || CrashStep(run[k - 1], run[k - 1 + 1]);
      FailingClosedStep(run[k - 1], run[k]);
    } else {
      UncertainNarrowFailsClosed(run[j].driver);
    }
  }

  lemma UncertainNarrowFailsClosed(d: Driver)
    requires d.NarrowFinal? || d.CandidateCommit?
    ensures FailingClosed(Resume(d, CommitUncertain))
  {
  }

  lemma FailingClosedStep(s: State, s': State)
    requires FailingClosed(s.driver) && (EffectStep(s, s') || CrashStep(s, s'))
    ensures FailingClosed(s'.driver)
  {
    hide Perform;
  }

  // ---------------------------------------------------------------------------------------------
  // Recovery with cooperative effects

  function CoopReply(d: Driver, w: World): Reply {
    match Request(d)
    case Commit(_, _) => CommitOk
    case BeginApply(_) | ApplyAndInspect(_) => ApplyOk
    case InspectApplied | InspectNow | NoEffect =>
      if w.runtime.Serving? then Observed(w.runtime.gen) else NotObserved
    case Teardown => TeardownOk
  }

  function CoopWorld(d: Driver, w: World): World {
    match Request(d)
    case Commit(_, c) => w.(possible := {Stored(c)})
    case BeginApply(target) => w.(runtime := Serving(RecordGeneration(target)), evidence := Unproven)
    case ApplyAndInspect(target) =>
      w.(runtime := Serving(RecordGeneration(target)), evidence := Seen(RecordGeneration(target)))
    case InspectApplied | InspectNow =>
      w.(evidence := if w.runtime.Serving? then Seen(w.runtime.gen) else Unproven)
    case Teardown => w.(runtime := Absent, evidence := ProvenAbsent)
    case NoEffect => w
  }

  /** The next state when every effect succeeds and every inspect answers. */
  function CoopNext(s: State): State {
    State(CoopWorld(s.driver, s.world), Resume(s.driver, CoopReply(s.driver, s.world)))
  }

  function CoopRun(s: State, n: nat): State
    decreases n
  {
    if n == 0 || s.driver.Done? then s else CoopRun(CoopNext(s), n - 1)
  }

  /** Cooperative outcomes are outcomes the effect contracts allow. */
  lemma CoopIsStep(s: State, base: Record)
    requires Inv(s, base) && Request(s.driver) != NoEffect
    ensures EffectStep(s, CoopNext(s))
  {
    hide Inv, Resume, ValidRecord;
    if Request(s.driver).Commit? {
      CandidateAcceptable(s, base);
    }
    assert Perform(Request(s.driver), s.world, CoopReply(s.driver, s.world), CoopNext(s).world);
  }

  predicate TakesCandidate(r: Record, runtime: Runtime) {
    && r.transition.Some? && r.transition.value.direction == Narrowing
    && runtime == Serving(CandidateGeneration(r))
  }

  lemma CoopUnroll(s: State, n: nat)
    requires !s.driver.Done? && n > 0
    ensures CoopRun(s, n) == CoopRun(CoopNext(s), n - 1)
  {}

  lemma CoopCommitted(s: State, n: nat)
    requires n > 0 && (s.driver.StableCommit? || s.driver.DurableCommit?) && s.driver.cmd.RecoverOnly?
    ensures CoopRun(s, n) == State(s.world.(possible := {Stored(Acknowledged(s.driver.tx))}),
                                   Done(true, Stored(Acknowledged(s.driver.tx))))
  {
    CoopUnroll(s, n);
  }

  lemma CoopBlocked(r: Record, w: World)
    requires r.status == Running && r.uncertain
    ensures var mark := StoppedRecord(r, None);
            CoopRun(State(w, Start(r, RecoverOnly)), 4)
            == State(World({Stored(mark)}, Absent, ProvenAbsent), Done(false, Stored(mark)))
  {
    var s := State(w, Start(r, RecoverOnly));
    CoopUnroll(s, 4);
    CoopUnroll(CoopNext(s), 3);
  }

  lemma CoopStable(r: Record, w: World)
    requires r.status == Running && !r.uncertain && r.transition.None?
    ensures var s := CoopRun(State(w, Start(r, RecoverOnly)), 4);
            && s.driver in {Done(true, r), Done(true, Stored(Acknowledged(r)))}
            && s.world.possible == (if s.driver.tx == r then w.possible else {s.driver.tx})
            && s.world.runtime == Serving(RecordGeneration(r))
  {
    hide RecordGeneration;
    var s := State(w, Start(r, RecoverOnly));
    CoopUnroll(s, 4);
    var t, n := s, 4;
    if s.driver.StableInspect? {
      t, n := CoopNext(s), 3;
    }
    if t.driver.StableApply? {
      CoopUnroll(t, n);
      CoopUnroll(CoopNext(t), n - 1);
      CoopCommitted(CoopNext(CoopNext(t)), n - 2);
    }
  }

  lemma CoopTransition(r: Record, w: World)
    requires r.status == Running && !r.uncertain && r.transition.Some?
    ensures var s := CoopRun(State(w, Start(r, RecoverOnly)), 4);
            && s.driver == Done(true, Stored(if TakesCandidate(r, w.runtime) then TakeCandidate(r) else Acknowledged(r)))
            && s.world.possible == {s.driver.tx}
            && s.world.runtime == Serving(if TakesCandidate(r, w.runtime) then CandidateGeneration(r) else RecordGeneration(r))
  {
    hide RecordGeneration, CandidateGeneration;
    var s := State(w, Start(r, RecoverOnly));
    CoopUnroll(s, 4);
    var t := CoopNext(s);
    if t.driver.CandidateCommit? {
      CoopUnroll(t, 3);
    } else if t.driver.DurableApply? {
      CoopUnroll(t, 3);
      CoopCommitted(CoopNext(t), 2);
    } else {
      CoopCommitted(t, 3);
    }
  }

  /** One recovery whose effects cooperate ends within four effects. A blocked record is torn down and
      stopped; any other ends with exact agreement and no transition, on the candidate authority exactly
      when a narrow candidate is what the runtime was serving, and on the durable authority otherwise. */
  lemma CooperativeRecovery(r: Record, w: World, base: Record)
    requires Guarded(w, base) && w.possible == {r} && r.status == Running
    ensures var s := CoopRun(State(w, Start(r, RecoverOnly)), 4);
            && s.driver.Done? && s.driver.ok == !r.uncertain
            && s.world.possible == {s.driver.tx} && s.driver.tx.transition.None?
            && (r.uncertain ==> s.driver.tx.status == Stopped && s.world.runtime == Absent
                                && Pair(s.driver.tx) == Pair(r))
            && (!r.uncertain ==>
                  && s.driver.tx.status == Running
                  && s.world.runtime == Serving(RecordGeneration(s.driver.tx))
                  && Pair(s.driver.tx) == if TakesCandidate(r, w.runtime)
                                          then (r.transition.value.grants, r.transition.value.revision) else Pair(r))
  {
    hide CoopRun, Start, ValidRecord, RecordAuthority;
    if r.uncertain {
      CoopBlocked(r, w);
    } else if r.transition.None? {
      CoopStable(r, w);
    } else {
      CoopTransition(r, w);
    }
  }
}
