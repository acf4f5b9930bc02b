/** The session egress authority protocol as a step relation over an adversarial environment
    (internal/cli/session_protocol.go, internal/cli/session.go).

    A driver is suspended at one effect at a time. The environment answers each effect with any
    outcome its contract allows, and may kill the driver between any two steps. The next command
    reads one of the records the disk may hold and starts with recovery. */
module EgressMachine {
  import opened Wrappers
  import opened ExactEgress
  import opened SessionRecord

  // ---------------------------------------------------------------------------------------------
  // The world: which records the disk may hold, and what the proxy enforces

  datatype Runtime = Absent | Serving(gen: Generation)

  /** What the last runtime effect proved. */
  datatype Evidence = Unproven | Seen(gen: Generation) | ProvenAbsent

  datatype World = World(possible: set<Record>, runtime: Runtime, evidence: Evidence)

  datatype Effect =
    | Commit(tx: Record, candidate: Record)
    | BeginApply(target: Record)
    | InspectApplied
    | InspectNow
    | ApplyAndInspect(target: Record)
    | Teardown
    | NoEffect

  datatype Reply =
    | CommitOk | CommitUncertain | CommitFailed
    | ApplyOk | ApplyFailed
    | Observed(gen: Generation) | NotObserved
    | TeardownOk | TeardownFailed

  function Stored(r: Record): Record { r.(version := r.version + 1) }

  predicate MayServe(before: Runtime, target: Record, after: Runtime) {
    after == before || after == Serving(RecordGeneration(target))
  }

  /** The contract of each effect: what every outcome tells about the world. */
  ghost predicate Perform(e: Effect, w: World, reply: Reply, w': World) {
    match e
    case Commit(tx, c) =>
      && w'.runtime == w.runtime && w'.evidence == w.evidence
      && (if c.version != tx.version || !ValidRecord(c) then reply == CommitFailed && w'.possible == w.possible
          else match reply
               case CommitOk => w'.possible == {Stored(c)}
               case CommitUncertain => w'.possible == w.possible + {Stored(c)}
               case CommitFailed => w'.possible == w.possible
               case _ => false)
    case BeginApply(target) =>
      && w'.possible == w.possible && w'.evidence == Unproven
      && MayServe(w.runtime, target, w'.runtime) && reply in {ApplyOk, ApplyFailed}
    case ApplyAndInspect(target) =>
      && w'.possible == w.possible
      && (match reply
          case ApplyOk =>
            w'.runtime == Serving(RecordGeneration(target)) && w'.evidence == Seen(RecordGeneration(target))
          case ApplyFailed => MayServe(w.runtime, target, w'.runtime) && w'.evidence == Unproven
          case _ => false)
    case InspectApplied | InspectNow =>
      && w'.possible == w.possible && w'.runtime == w.runtime
      && (match reply
          case Observed(g) => w.runtime == Serving(g) && w'.evidence == Seen(g)
          case NotObserved => w'.evidence == Unproven
          case _ => false)
    case Teardown =>
      && w'.possible == w.possible
      && (match reply
          case TeardownOk => w'.runtime == Absent && w'.evidence == ProvenAbsent
          case TeardownFailed => w'.runtime in {w.runtime, Absent} && w'.evidence == Unproven
          case _ => false)
    case NoEffect => false
  }

  // ---------------------------------------------------------------------------------------------
  // The records the drivers propose

  function AppliedOf(g: Generation): Applied { Applied(g.revision, Some(g.hash)) }

  /** Pending widen: the new authority is durable before the runtime hears of it. */
  function WidenIntent(cur: Record, next: Record): Record {
    cur.(grants := next.grants, revision := next.revision,
         transition := Some(Transition(Widening, next.revision, RecordGeneration(next).hash, next.grants)))
  }

  /** Narrow intent: the old authority stays durable. */
  function NarrowIntent(cur: Record, next: Record): Record {
    cur.(transition := Some(Transition(Narrowing, next.revision, RecordGeneration(next).hash, next.grants)))
  }

  /** No transition, and the record's own generation recorded as applied. */
  function Acknowledged(r: Record): Record {
    r.(applied := AppliedOf(RecordGeneration(r)), transition := None)
  }

  function TakeCandidate(r: Record): Record
    requires r.transition.Some?
  {
    Acknowledged(r.(grants := r.transition.value.grants, revision := r.transition.value.revision))
  }

  function Restored(tx: Record, cur: Record): Record {
    tx.(grants := cur.grants, revision := cur.revision, applied := cur.applied, transition := None)
  }

  function BlockedRecord(base: Record): Record { base.(uncertain := true) }

  function StoppedRecord(base: Record, restore: Option<Record>): Record {
    var kept := if restore.Some? then restore.value else base;
    base.(status := Stopped, ownerVerified := false, grants := kept.grants, revision := kept.revision,
          applied := NEVER_APPLIED, transition := None, uncertain := true)
  }

  // ---------------------------------------------------------------------------------------------
  // The drivers

  datatype Command =
    | RecoverOnly
    | Grant(dest: Destination, id: nat)
    | Revoke(id: nat)
    | Dismiss(dest: Destination, now: int)

  datatype Driver =
    | Idle
    | Done(ok: bool, tx: Record)
    // recovery, then the command
    | StableInspect(tx: Record, cmd: Command)
    | StableApply(tx: Record, cmd: Command)
    | StableConfirm(tx: Record, cmd: Command)
    | StableCommit(tx: Record, cmd: Command)
    | TransitionInspect(tx: Record, cmd: Command)
    | DurableApply(tx: Record, cmd: Command)
    | DurableCommit(tx: Record, cmd: Command)
    | CandidateCommit(tx: Record, cmd: Command)
    // widen
    | WidenCommit(cur: Record, next: Record)
    | WidenApply(tx: Record, cur: Record, next: Record)
    | WidenConfirm(tx: Record, cur: Record, next: Record)
    | WidenFinal(tx: Record, cur: Record, next: Record)
    // narrow
    | NarrowCommit(cur: Record, next: Record)
    | NarrowApply(tx: Record, cur: Record, next: Record)
    | NarrowConfirm(tx: Record, cur: Record, next: Record)
    | NarrowFinal(tx: Record, cur: Record, next: Record)
    | RestoreApply(tx: Record, cur: Record)
    | RestoreCommit(tx: Record, cur: Record)
    | UndoApply(tx: Record, cur: Record)
    | UndoCommit(tx: Record, cur: Record)
    // dismiss
    | DismissCommit(tx: Record, next: Record)
    // fail closed
    | FailTeardown(tx: Record, base: Record, restore: Option<Record>)
    | FailMark(tx: Record, mark: Record, attempts: nat)

  const FAILURE_COMMIT_ATTEMPTS: nat := 2

  function Request(d: Driver): Effect {
    match d
    case Idle | Done(_, _) => NoEffect
    case StableInspect(_, _) | TransitionInspect(_, _) => InspectNow
    case StableApply(tx, _) => BeginApply(tx)
    case StableConfirm(_, _) | WidenConfirm(_, _, _) | NarrowConfirm(_, _, _) => InspectApplied
    case StableCommit(tx, _) => Commit(tx, Acknowledged(tx))
    case DurableApply(tx, _) => ApplyAndInspect(tx)
    case DurableCommit(tx, _) => Commit(tx, Acknowledged(tx))
    case CandidateCommit(tx, _) => if tx.transition.Some? then Commit(tx, TakeCandidate(tx)) else NoEffect
    case WidenCommit(cur, next) => Commit(cur, WidenIntent(cur, next))
    case WidenApply(_, _, next) => BeginApply(next)
    case WidenFinal(tx, _, _) => Commit(tx, Acknowledged(tx))
    case NarrowCommit(cur, next) => Commit(cur, NarrowIntent(cur, next))
    case NarrowApply(_, _, next) => BeginApply(next)
    case NarrowFinal(tx, _, _) => if tx.transition.Some? then Commit(tx, TakeCandidate(tx)) else NoEffect
    case RestoreApply(_, cur) => ApplyAndInspect(cur)
    case RestoreCommit(tx, cur) => Commit(tx, Restored(tx, cur))
    case UndoApply(_, cur) => ApplyAndInspect(cur)
    case UndoCommit(tx, cur) => Commit(tx, Restored(tx, cur))
    case DismissCommit(tx, next) => Commit(tx, next)
    case FailTeardown(_, _, _) => Teardown
    case FailMark(tx, mark, _) => Commit(tx, mark)
  }

  function FailClosed(tx: Record, restore: Option<Record>): Driver {
    FailTeardown(tx, tx, restore)
  }

  function FailClosedAt(tx: Record, restore: Record, upper: Record): Driver {
    FailTeardown(tx, upper, Some(restore))
  }

  /** What a command does once recovery returned nil. */
  function Proceed(tx: Record, cmd: Command): Driver {
    match cmd
    case RecoverOnly => Done(true, tx)
    case Grant(dest, id) =>
      (match AppendGrant(tx, dest, id)
       case Refused => Done(false, tx)
       case Existing(_) => Done(true, tx)
       case Appended(next, _) =>
         if ValidRuntimeState(WidenIntent(tx, next)) then WidenCommit(tx, next) else Done(false, tx))
    case Revoke(id) =>
      (match RevokeGrant(tx, id)
       case None => Done(false, tx)
       case Some(next) =>
         if ValidRuntimeState(NarrowIntent(tx, next)) then NarrowCommit(tx, next) else Done(false, tx))
    case Dismiss(dest, now) =>
      (match DismissEgress(tx, dest, now)
       case None => Done(false, tx)
       case Some(next) => DismissCommit(tx, next))
  }

  /** A command on a freshly read record: recovery first. */
  function Start(tx: Record, cmd: Command): Driver {
    if tx.status != Running then Done(false, tx)
    else if tx.uncertain then FailClosed(tx, None)
    else if tx.transition.Some? then TransitionInspect(tx, cmd)
    else if tx.applied == AppliedOf(RecordGeneration(tx)) then StableInspect(tx, cmd)
    else StableApply(tx, cmd)
  }

  function CandidateGeneration(tx: Record): Generation
    requires tx.transition.Some?
  {
    var t := tx.transition.value;
    GenerationOf(tx.persistent, t.grants, t.revision)
  }

  function AfterTransitionInspect(tx: Record, cmd: Command, reply: Reply): Driver {
    if tx.transition.None? then Idle
    else if tx.transition.value.direction == Narrowing && reply == Observed(CandidateGeneration(tx)) then
      CandidateCommit(tx, cmd)
    else if reply == Observed(RecordGeneration(tx)) then DurableCommit(tx, cmd)
    else DurableApply(tx, cmd)
  }

  /** How a suspended driver continues with the effect's reply. */
  function Resume(d: Driver, reply: Reply): Driver {
    match d
    case Idle | Done(_, _) => d
    case StableInspect(tx, cmd) =>
      if reply == Observed(RecordGeneration(tx)) then Proceed(tx, cmd) else StableApply(tx, cmd)
    case StableApply(tx, cmd) => if reply == ApplyOk then StableConfirm(tx, cmd) else FailClosed(tx, None)
    case StableConfirm(tx, cmd) =>
      if reply == Observed(RecordGeneration(tx)) then StableCommit(tx, cmd) else FailClosed(tx, None)
    case StableCommit(tx, cmd) =>
      if reply == CommitOk then Proceed(Stored(Acknowledged(tx)), cmd) else FailClosed(tx, None)
    case TransitionInspect(tx, cmd) => AfterTransitionInspect(tx, cmd, reply)
    case DurableApply(tx, cmd) => if reply == ApplyOk then DurableCommit(tx, cmd) else FailClosed(tx, None)
    case DurableCommit(tx, cmd) =>
      if reply == CommitOk then Proceed(Stored(Acknowledged(tx)), cmd) else FailClosed(tx, None)
    case CandidateCommit(tx, cmd) =>
      if reply == CommitOk && tx.transition.Some? then Proceed(Stored(TakeCandidate(tx)), cmd)
      else FailClosed(tx, None)
    case WidenCommit(cur, next) =>
      if reply == CommitOk then WidenApply(Stored(WidenIntent(cur, next)), cur, next)
      else if reply == CommitUncertain then FailClosedAt(cur, cur, WidenIntent(cur, next))
      else Done(false, cur)
    case WidenApply(tx, cur, next) =>
      if reply == ApplyOk then WidenConfirm(tx, cur, next) else FailClosed(tx, Some(cur))
    case WidenConfirm(tx, cur, next) =>
      if reply == Observed(RecordGeneration(next)) then WidenFinal(tx, cur, next) else FailClosed(tx, Some(cur))
    case WidenFinal(tx, cur, next) =>
      if reply == CommitOk then Done(true, Stored(Acknowledged(tx))) else FailClosed(tx, Some(cur))
    case NarrowCommit(cur, next) =>
      if reply == CommitOk then NarrowApply(Stored(NarrowIntent(cur, next)), cur, next)
      else if reply == CommitUncertain then FailClosedAt(cur, cur, NarrowIntent(cur, next))
      else Done(false, cur)
    case NarrowApply(tx, cur, next) =>
      if reply == ApplyOk then NarrowConfirm(tx, cur, next) else RestoreApply(tx, cur)
    case NarrowConfirm(tx, cur, next) =>
      if reply == Observed(RecordGeneration(next)) then NarrowFinal(tx, cur, next) else RestoreApply(tx, cur)
    case NarrowFinal(tx, cur, next) =>
      if reply == CommitOk && tx.transition.Some? then Done(true, Stored(TakeCandidate(tx)))
      else if reply == CommitUncertain then FailClosed(tx, None)
      else UndoApply(tx, cur)
    case RestoreApply(tx, cur) =>
      if reply == ApplyOk then RestoreCommit(tx, cur) else FailClosed(tx, Some(cur))
    case RestoreCommit(tx, cur) =>
      if reply == CommitUncertain then FailClosed(tx, Some(cur))
      else Done(false, if reply == CommitOk then Stored(Restored(tx, cur)) else tx)
    case UndoApply(tx, cur) => if reply == ApplyOk then UndoCommit(tx, cur) else FailClosed(tx, Some(cur))
    case UndoCommit(tx, cur) => Done(false, if reply == CommitOk then Stored(Restored(tx, cur)) else tx)
    case DismissCommit(tx, next) => if reply == CommitOk then Done(true, Stored(next)) else Done(false, tx)
    case FailTeardown(tx, base, restore) =>
      FailMark(tx, if reply == TeardownOk then StoppedRecord(base, restore) else BlockedRecord(base),
               FAILURE_COMMIT_ATTEMPTS)
    case FailMark(tx, mark, attempts) =>
      if reply == CommitOk then Done(false, Stored(mark))
      else if attempts > 1 then FailMark(tx, mark, attempts - 1)
      else Done(false, tx)
  }

  // ---------------------------------------------------------------------------------------------
  // Steps and runs

  datatype State = State(world: World, driver: Driver)

  /** The environment performs the requested effect and the driver takes the reply. */
  ghost predicate EffectStep(s: State, s': State) {
    exists reply ::
      Perform(Request(s.driver), s.world, reply, s'.world) && s'.driver == Resume(s.driver, reply)
  }

  /** The driver process dies, or the finished command releases the record lock. */
  predicate CrashStep(s: State, s': State) {
    s' == s.(driver := Idle)
  }

  /** A command takes the lock and reads one of the records the disk may hold. */
  ghost predicate OpenStep(s: State, s': State) {
    exists r, cmd ::
      s.driver.Idle? && r in s.world.possible
      && s' == State(s.world.(possible := {r}, evidence := Unproven), Start(r, cmd))
  }

  ghost predicate Step(s: State, s': State) {
    EffectStep(s, s') || CrashStep(s, s') || OpenStep(s, s')
  }

  function RuntimeAuthority(r: Runtime): set<Destination> {
    match r
    case Absent => {}
    case Serving(g) => set d | d in g.hash.overlay
  }

  /** A running session whose runtime set is within its record. */
  ghost predicate Initial(s: State) {
    && s.driver.Idle?
    && exists r :: s.world.possible == {r} && ValidRecord(r) && r.status == Running
                   && RuntimeAuthority(s.world.runtime) <= RecordAuthority(r)
  }

  ghost predicate IsRun(run: seq<State>) {
    && |run| > 0 && Initial(run[0])
    && forall i :: 0 <= i < |run| - 1 ==> Step(run[i], run[i + 1])
  }
}
