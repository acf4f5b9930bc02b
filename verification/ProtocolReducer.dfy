/** The symbolic session-protocol reducer (internal/engine/session/protocol.go) over
    arbitrary finite grant sets and arbitrary revision bounds.

    The repository checks its reducer against a TLA+ model with two grants and revisions
    0..2. Here the invariants of that model are proved for every bound and every run: those of one state
    together (EveryRunIsSafe), those about the events before it one by one (proven teardown, exact owner,
    unknown commit), and freedom from deadlock. */
module ProtocolReducer {
  import opened Wrappers

  type Grant = nat

  datatype Status = Created | Running | Stopped
  datatype Mode = Normal | Blocked | Terminal
  datatype Health = Healthy | Uncertain | Corrupt | Stale
  datatype Operation = Idle | Claim | Widen | Narrow | Recover | Stop | Teardown
  datatype Effect = NoEffect | Commit | Apply | Inspect | TeardownEffect
  datatype Outcome = Pending | Success | Failure | UncertainResult
  datatype Direction = NoDirection | Widening | Narrowing
  datatype Owner = OwnerA | OwnerB

  datatype Action =
    | ClaimStart | ClaimCommit | RecoverClaim | HandoffExact | ReleaseExact
    | WidenStart | WidenCommit | ApplyAction | InspectAction | WidenFinalCommit
    | NarrowStart | NarrowFinalCommit | RecoverEgress | ObserveInvalidPersistence
    | StopStart | RequestTeardown | TeardownAction | TerminalStutter

  datatype Report =
    | Unreported | KnownOld | KnownNew | CommitUnknown | Succeeded | Matched
    | ObservedCorrupt | ObservedStale | TeardownProven | TeardownUnknown

  datatype Truth = NoTruth | OldTruth | NewTruth

  datatype Event = Event(action: Action, report: Report, grant: Option<Grant>, truth: Truth)

  /** A symbolic generation: exact authority plus revision, or the NoGen sentinel. */
  datatype Generation = NoGen | Gen(authority: set<Grant>, revision: int)

  datatype Bounds = Bounds(maxRevision: nat, grants: set<Grant>)

  datatype State = State(
    status: Status,
    owners: set<Owner>,
    detached: bool,
    durable: set<Grant>,
    durableRevision: int,
    recorded: Generation,
    runtime: set<Grant>,
    runtimeGen: Generation,
    inspected: Generation,
    health: Health,
    mode: Mode,
    operation: Operation,
    effect: Effect,
    result: Outcome,
    pending: set<Grant>,
    pendingRevision: int,
    direction: Direction
  )

  const INITIAL: State :=
    State(Created, {}, false, {}, 0, Gen({}, 0), {}, Gen({}, 0), Gen({}, 0),
          Healthy, Normal, Idle, NoEffect, Pending, {}, 0, NoDirection)

  predicate GenerationInDomain(b: Bounds, g: Generation) {
    g.Gen? ==> 0 <= g.revision <= b.maxRevision && g.authority <= b.grants
  }

  predicate InDomain(b: Bounds, s: State) {
    && s.durable <= b.grants && s.runtime <= b.grants && s.pending <= b.grants
    && 0 <= s.durableRevision <= b.maxRevision
    && 0 <= s.pendingRevision <= b.maxRevision
    && GenerationInDomain(b, s.recorded)
    && GenerationInDomain(b, s.runtimeGen)
    && GenerationInDomain(b, s.inspected)
  }

  predicate EmptyEvent(e: Event) {
    e.report == Unreported && e.grant == None && e.truth == NoTruth
  }

  predicate CommitEvent(e: Event) {
    match e.report
    case KnownOld => e.truth == NoTruth
    case KnownNew => e.truth == NoTruth
    case CommitUnknown => e.truth != NoTruth
    case _ => false
  }

  predicate PendingIsDurable(s: State) {
    s.durable == s.pending && s.durableRevision == s.pendingRevision
  }

  function PendingGen(s: State): Generation { Gen(s.pending, s.pendingRevision) }

  function DurableGen(s: State): Generation { Gen(s.durable, s.durableRevision) }

  function Reset(s: State, result: Outcome): State {
    s.(operation := Idle, effect := NoEffect, result := result,
       pending := {}, pendingRevision := 0, direction := NoDirection)
  }

  function BlockForRecovery(s: State, result: Outcome): State {
    s.(health := Uncertain, mode := Blocked, operation := Recover, effect := Inspect, result := result)
  }

  predicate AtRest(s: State, status: Status) {
    s.status == status && s.mode == Normal && s.operation == Idle
  }

  /** One reducer edge; None is the reducer's refusal. */
  function Reduce(b: Bounds, s: State, e: Event): (next: Option<State>)
  {
    if !InDomain(b, s) then None else
    match e.action
    case ClaimStart =>
      if !EmptyEvent(e) || !AtRest(s, Created) then None
      else Some(s.(operation := Claim, effect := Commit, result := Pending))
    case ClaimCommit =>
      if e.grant != None || s.operation != Claim || s.effect != Commit || !CommitEvent(e) then None else
      var claimed := s.(status := Running, owners := {OwnerA}, detached := false);
      (match e.report
       case KnownNew => Some(Reset(claimed, Success))
       case KnownOld => Some(Reset(s, Failure))
       case _ => Some(BlockForRecovery(if e.truth == NewTruth then claimed else s, UncertainResult)))
    case RecoverClaim =>
      if !EmptyEvent(e) || s.operation != Recover || s.direction != NoDirection || s.effect != Inspect then None
      else Some(Reset(s.(health := Healthy, mode := Normal), if s.status == Running then Success else Failure))
    case HandoffExact =>
      if !EmptyEvent(e) || !AtRest(s, Running) || s.owners != {OwnerA} || s.detached then None
      else Some(s.(owners := {OwnerB}, detached := true))
    case ReleaseExact =>
      if !EmptyEvent(e) || !AtRest(s, Running) || s.owners != {OwnerA} || s.detached then None
      else Some(s.(status := Created, owners := {}, detached := false, result := Failure))
    case WidenStart =>
      if e.report != Unreported || e.truth != NoTruth || !AtRest(s, Running) || e.grant == None
         || e.grant.value !in b.grants || e.grant.value in s.durable || s.durableRevision >= b.maxRevision then None
      else Some(s.(operation := Widen, effect := Commit, result := Pending,
                   pending := s.durable + {e.grant.value}, pendingRevision := s.durableRevision + 1,
                   direction := Widening))
    case WidenCommit =>
      if e.grant != None || s.operation != Widen || s.direction != Widening || s.effect != Commit
         || PendingIsDurable(s) || !CommitEvent(e) then None else
      var widened := s.(durable := s.pending, durableRevision := s.pendingRevision);
      (match e.report
       case KnownNew => Some(widened.(effect := Apply))
       case KnownOld => Some(Reset(s, Failure))
       case _ => Some(BlockForRecovery(if e.truth == NewTruth then widened else s, UncertainResult)))
    case ApplyAction =>
      if e.report != Succeeded || e.grant != None || e.truth != NoTruth || s.effect != Apply then None
      else if (s.direction == Widening && (s.operation == Widen || s.operation == Recover) && PendingIsDurable(s))
              || (s.direction == Narrowing && s.operation == Narrow)
      then Some(s.(runtime := s.pending, runtimeGen := PendingGen(s), effect := Inspect))
      else None
    case InspectAction =>
      if e.report != Matched || e.grant != None || e.truth != NoTruth || s.effect != Inspect
         || (s.operation != Widen && s.operation != Narrow) || s.runtimeGen != PendingGen(s) then None
      else Some(s.(inspected := s.runtimeGen, effect := Commit))
    case WidenFinalCommit =>
      if e.grant != None || s.operation != Widen || s.direction != Widening || s.effect != Commit
         || !PendingIsDurable(s) || s.inspected != PendingGen(s) || !CommitEvent(e) then None else
      var acknowledged := s.(recorded := PendingGen(s));
      (match e.report
       case KnownNew => Some(Reset(acknowledged.(health := Healthy, mode := Normal), Success))
       case KnownOld => Some(BlockForRecovery(s, Failure))
       case _ => Some(BlockForRecovery(if e.truth == NewTruth then acknowledged else s, UncertainResult)))
    case NarrowStart =>
      if e.report != Unreported || e.truth != NoTruth || !AtRest(s, Running) || e.grant == None
         || e.grant.value !in b.grants || e.grant.value !in s.durable || s.durableRevision >= b.maxRevision then None
      else Some(s.(operation := Narrow, effect := Apply, result := Pending,
                   pending := s.durable - {e.grant.value}, pendingRevision := s.durableRevision + 1,
                   direction := Narrowing))
    case NarrowFinalCommit =>
      if e.grant != None || s.operation != Narrow || s.direction != Narrowing || s.effect != Commit
         || s.inspected != PendingGen(s) || !CommitEvent(e) then None else
      var narrowed := s.(durable := s.pending, durableRevision := s.pendingRevision, recorded := PendingGen(s));
      (match e.report
       case KnownNew => Some(Reset(narrowed.(health := Healthy, mode := Normal), Success))
       case KnownOld => Some(Reset(s.(runtime := s.durable, runtimeGen := DurableGen(s), inspected := DurableGen(s)), Failure))
       case _ => Some(BlockForRecovery(if e.truth == NewTruth then narrowed else s, UncertainResult)))
    case RecoverEgress =>
      if !EmptyEvent(e) || s.operation != Recover || s.direction == NoDirection || s.effect != Inspect then None
      else Some(Reset(s.(runtime := s.durable, runtimeGen := DurableGen(s), inspected := DurableGen(s),
                         recorded := DurableGen(s), health := Healthy, mode := Normal),
                      if PendingIsDurable(s) then Success else Failure))
    case ObserveInvalidPersistence =>
      if e.grant != None || e.truth != NoTruth || !AtRest(s, Created) then None
      else if e.report == ObservedCorrupt then
        Some(s.(health := Corrupt, mode := Blocked, operation := Recover, result := Failure))
      else if e.report == ObservedStale then
        Some(s.(health := Stale, mode := Blocked, operation := Recover, result := Failure))
      else None
    case StopStart =>
      if !EmptyEvent(e) || !AtRest(s, Running) then None
      else Some(s.(operation := Stop, effect := TeardownEffect, result := Pending))
    case RequestTeardown =>
      if !EmptyEvent(e) || s.mode != Blocked || s.effect == TeardownEffect then None
      else Some(s.(operation := Teardown, effect := TeardownEffect, result := Pending))
    case TeardownAction =>
      if e.grant != None || e.truth != NoTruth || s.effect != TeardownEffect
         || (s.operation != Stop && s.operation != Teardown) then None
      else if e.report == TeardownProven then
        Some(s.(status := Stopped, owners := {}, detached := false, runtime := {}, runtimeGen := NoGen,
                inspected := NoGen, health := Healthy, mode := Terminal, operation := Idle, effect := NoEffect,
                result := Failure, pending := {}, pendingRevision := 0, direction := NoDirection))
      else if e.report == TeardownUnknown then
        Some(s.(health := Uncertain, mode := Blocked, operation := Teardown, effect := TeardownEffect,
                result := UncertainResult))
      else None
    case TerminalStutter =>
      if !EmptyEvent(e) || s.status != Stopped then None else Some(s)
  }

  /** Both correlated worlds of a commit whose durability is unknown. */
  function ReduceUnknownCommit(b: Bounds, s: State, a: Action): Option<(State, State)> {
    var oldWorld := Reduce(b, s, Event(a, CommitUnknown, None, OldTruth));
    var newWorld := Reduce(b, s, Event(a, CommitUnknown, None, NewTruth));
    if oldWorld.Some? && newWorld.Some? then Some((oldWorld.value, newWorld.value)) else None
  }

  // ---------------------------------------------------------------------------------------------
  // The safety invariants of the TLA+ model, stated on the reducer's own state.

  predicate ValidRecordShape(s: State) {
    (s.status == Running) == (s.owners != {})
  }

  predicate AtMostOneLiveOwner(s: State) { |s.owners| <= 1 }

  predicate RuntimeWithinDurable(s: State) { s.runtime <= s.durable }

  predicate NormalStateHasGenerationAgreement(s: State) {
    AtRest(s, Running) ==>
      && s.recorded == DurableGen(s)
      && s.runtime == s.durable
      && s.runtimeGen == s.recorded
      && s.inspected == s.recorded
  }

  predicate UncertaintyBlocksMutation(s: State) {
    s.health == Uncertain ==> s.mode == Blocked && s.operation in {Recover, Teardown}
  }

  predicate StoppedHoldsNothing(s: State) {
    s.status == Stopped ==> s.owners == {} && s.runtime == {} && s.runtimeGen == NoGen
  }

  predicate InvalidPersistenceCannotSucceed(s: State) {
    s.health in {Corrupt, Stale} ==> s.result != Success
  }

  predicate Safe(b: Bounds, s: State) {
    && InDomain(b, s)
    && ValidRecordShape(s)
    && AtMostOneLiveOwner(s)
    && RuntimeWithinDurable(s)
    && NormalStateHasGenerationAgreement(s)
    && UncertaintyBlocksMutation(s)
    && StoppedHoldsNothing(s)
    && InvalidPersistenceCannotSucceed(s)
  }

  // ---------------------------------------------------------------------------------------------
  // The inductive strengthening: what each phase of an operation knows.

  predicate Agreement(s: State) {
    && s.recorded == DurableGen(s)
    && s.runtime == s.durable
    && s.runtimeGen == s.recorded
    && s.inspected == s.recorded
  }

  predicate NoPending(s: State) {
    s.pending == {} && s.pendingRevision == 0 && s.direction == NoDirection
  }

  predicate WidenPhase(s: State) {
    && s.status == Running && s.health == Healthy && s.mode == Normal && s.result == Pending
    && s.direction == Widening
    && s.recorded.Gen? && s.pendingRevision == s.recorded.revision + 1
    && match s.effect
       case Commit =>
         if PendingIsDurable(s) then s.runtime == s.pending && s.runtimeGen == PendingGen(s) && s.inspected == PendingGen(s)
         else s.durable <= s.pending && Agreement(s)
       case Apply => PendingIsDurable(s)
       case Inspect => PendingIsDurable(s) && s.runtime == s.pending && s.runtimeGen == PendingGen(s)
       case _ => false
  }

  predicate NarrowPhase(s: State) {
    && s.status == Running && s.health == Healthy && s.mode == Normal && s.result == Pending
    && s.direction == Narrowing && s.pending <= s.durable && s.pendingRevision == s.durableRevision + 1
    && s.recorded == DurableGen(s)
    && match s.effect
       case Apply => true
       case Inspect => s.runtime == s.pending && s.runtimeGen == PendingGen(s)
       case Commit => s.runtime == s.pending && s.runtimeGen == PendingGen(s) && s.inspected == PendingGen(s)
       case _ => false
  }

  predicate RecoverPhase(s: State) {
    && s.mode == Blocked && s.status != Stopped
    && match s.effect
       case Inspect =>
         s.health == Uncertain && (if s.direction == NoDirection then Agreement(s) else s.status == Running)
       case NoEffect => s.health in {Corrupt, Stale} && s.status == Created && s.result != Success
       case _ => false
  }

  predicate PhaseInvariant(s: State) {
    && ((s.status == Running) == (s.owners != {}))
    && |s.owners| <= 1
    && s.runtime <= s.durable
    && match s.operation
       case Idle =>
         if s.status == Stopped then
           && s.mode == Terminal && s.health == Healthy && s.effect == NoEffect && NoPending(s)
           && s.owners == {} && s.runtime == {} && s.runtimeGen == NoGen
         else s.mode == Normal && s.health == Healthy && s.effect == NoEffect && NoPending(s) && Agreement(s)
       case Claim =>
         && s.status == Created && s.mode == Normal && s.health == Healthy && s.effect == Commit
         && NoPending(s) && Agreement(s)
       case Widen => WidenPhase(s)
       case Narrow => NarrowPhase(s)
       case Recover => RecoverPhase(s)
       case Stop => s.status == Running && s.mode == Normal && s.health == Healthy && s.effect == TeardownEffect
       case Teardown =>
         s.status != Stopped && s.mode == Blocked && s.effect == TeardownEffect && s.result != Success
  }

  lemma PhaseInvariantImpliesSafe(b: Bounds, s: State)
    requires InDomain(b, s) && PhaseInvariant(s)
    ensures Safe(b, s)
  {}

  lemma LifecycleStepKeepsPhase(b: Bounds, s: State, e: Event)
    requires e.action in {ClaimStart, ClaimCommit, RecoverClaim, HandoffExact, ReleaseExact,
                          ObserveInvalidPersistence, TerminalStutter}
    requires InDomain(b, s) && PhaseInvariant(s) && Reduce(b, s, e).Some?
    ensures InDomain(b, Reduce(b, s, e).value) && PhaseInvariant(Reduce(b, s, e).value)
  {
    assert |{OwnerA}| == |{OwnerB}| == 1;
  }

  lemma WidenCommitKeepsPhase(b: Bounds, s: State, e: Event)
    requires e.action == WidenCommit
    requires InDomain(b, s) && PhaseInvariant(s) && Reduce(b, s, e).Some?
    ensures InDomain(b, Reduce(b, s, e).value) && PhaseInvariant(Reduce(b, s, e).value)
  {}

  lemma WidenFinalKeepsPhase(b: Bounds, s: State, e: Event)
    requires e.action == WidenFinalCommit
    requires InDomain(b, s) && PhaseInvariant(s) && Reduce(b, s, e).Some?
    ensures InDomain(b, Reduce(b, s, e).value) && PhaseInvariant(Reduce(b, s, e).value)
  {}

  lemma WidenStartKeepsPhase(b: Bounds, s: State, e: Event)
    requires e.action == WidenStart
    requires InDomain(b, s) && PhaseInvariant(s) && Reduce(b, s, e).Some?
    ensures InDomain(b, Reduce(b, s, e).value) && PhaseInvariant(Reduce(b, s, e).value)
  {}

  lemma NarrowStartKeepsPhase(b: Bounds, s: State, e: Event)
    requires e.action == NarrowStart
    requires InDomain(b, s) && PhaseInvariant(s) && Reduce(b, s, e).Some?
    ensures InDomain(b, Reduce(b, s, e).value) && PhaseInvariant(Reduce(b, s, e).value)
  {}

  lemma NarrowFinalKeepsPhase(b: Bounds, s: State, e: Event)
    requires e.action == NarrowFinalCommit
    requires InDomain(b, s) && PhaseInvariant(s) && Reduce(b, s, e).Some?
    ensures InDomain(b, Reduce(b, s, e).value) && PhaseInvariant(Reduce(b, s, e).value)
  {}

  lemma RuntimeStepKeepsPhase(b: Bounds, s: State, e: Event)
    requires e.action in {ApplyAction, InspectAction, RecoverEgress}
    requires InDomain(b, s) && PhaseInvariant(s) && Reduce(b, s, e).Some?
    ensures InDomain(b, Reduce(b, s, e).value) && PhaseInvariant(Reduce(b, s, e).value)
  {}

  lemma TeardownStepKeepsPhase(b: Bounds, s: State, e: Event)
    requires e.action in {StopStart, RequestTeardown, TeardownAction}
    requires InDomain(b, s) && PhaseInvariant(s) && Reduce(b, s, e).Some?
    ensures InDomain(b, Reduce(b, s, e).value) && PhaseInvariant(Reduce(b, s, e).value)
  {}

  lemma StepKeepsPhase(b: Bounds, s: State, e: Event)
    requires InDomain(b, s) && PhaseInvariant(s) && Reduce(b, s, e).Some?
    ensures InDomain(b, Reduce(b, s, e).value) && PhaseInvariant(Reduce(b, s, e).value)
  {
    hide *;
    match e.action
    case WidenStart => WidenStartKeepsPhase(b, s, e);
    case WidenCommit => WidenCommitKeepsPhase(b, s, e);
    case WidenFinalCommit => WidenFinalKeepsPhase(b, s, e);
    case NarrowStart => NarrowStartKeepsPhase(b, s, e);
    case NarrowFinalCommit => NarrowFinalKeepsPhase(b, s, e);
    case ApplyAction | InspectAction | RecoverEgress => RuntimeStepKeepsPhase(b, s, e);
    case StopStart | RequestTeardown | TeardownAction => TeardownStepKeepsPhase(b, s, e);
    case _ => LifecycleStepKeepsPhase(b, s, e);
  }

  /** A run: every consecutive pair is a reducer edge from the created state. */
  predicate IsRun(b: Bounds, run: seq<State>, events: seq<Event>) {
    && |run| == |events| + 1
    && run[0] == INITIAL
    && forall i :: 0 <= i < |events| ==> Reduce(b, run[i], events[i]) == Some(run[i + 1])
  }

  /** Unbounded form of the TLA+ invariants: any bounds, any run, every state. */
  lemma {:induction false} EveryRunIsSafe(b: Bounds, run: seq<State>, events: seq<Event>, k: nat)
    requires IsRun(b, run, events) && k < |run|
    ensures Safe(b, run[k])
  {
    RunKeepsPhase(b, run, events, k);
    PhaseInvariantImpliesSafe(b, run[k]);
  }

  lemma InitialPhase(b: Bounds)
    ensures InDomain(b, INITIAL) && PhaseInvariant(INITIAL)
  {}

  lemma {:induction false} RunKeepsPhase(b: Bounds, run: seq<State>, events: seq<Event>, k: nat)
    requires IsRun(b, run, events) && k < |run|
    ensures InDomain(b, run[k]) && PhaseInvariant(run[k])
  {
    hide Reduce, PhaseInvariant;
    if k == 0 {
      InitialPhase(b);
    } else {
      RunKeepsPhase(b, run, events, k - 1);
      assert Reduce(b, run[k - 1], events[k - 1]) == Some(run[k - 1 + 1]);
      StepKeepsPhase(b, run[k - 1], events[k - 1]);
    }
  }

  /** An event that some reachable state accepts; used as the deadlock witness. */
  function Progress(s: State): Event {
    match s.operation
    case Idle =>
      Event(if s.status == Running then StopStart else if s.status == Created then ClaimStart else TerminalStutter,
            Unreported, None, NoTruth)
    case Claim => Event(ClaimCommit, KnownOld, None, NoTruth)
    case Widen | Narrow =>
      (match s.effect
       case Apply => Event(ApplyAction, Succeeded, None, NoTruth)
       case Inspect => Event(InspectAction, Matched, None, NoTruth)
       case _ =>
         Event(if s.operation == Narrow then NarrowFinalCommit
               else if PendingIsDurable(s) then WidenFinalCommit else WidenCommit, KnownNew, None, NoTruth))
    case Recover => Event(RequestTeardown, Unreported, None, NoTruth)
    case Stop | Teardown => Event(TeardownAction, TeardownProven, None, NoTruth)
  }

  /** TerminalAwareDeadlock, unbounded: every reachable state accepts some event. */
  lemma NoReachableDeadlock(b: Bounds, run: seq<State>, events: seq<Event>, k: nat)
    requires IsRun(b, run, events) && k < |run|
    ensures exists e :: Reduce(b, run[k], e).Some?
  {
    RunKeepsPhase(b, run, events, k);
    ProgressAccepted(b, run[k]);
  }

  lemma ProgressAccepted(b: Bounds, s: State)
    requires InDomain(b, s) && PhaseInvariant(s)
    ensures Reduce(b, s, Progress(s)).Some?
  {}

  lemma EdgeAt(b: Bounds, run: seq<State>, events: seq<Event>, k: nat)
    requires IsRun(b, run, events) && k < |events|
    ensures Reduce(b, run[k], events[k]) == Some(run[k + 1])
  {
    hide Reduce;
  }

  lemma StoppingEdge(b: Bounds, s: State, e: Event)
    requires Reduce(b, s, e).Some? && s.status != Stopped && Reduce(b, s, e).value.status == Stopped
    ensures e.action == TeardownAction && e.report == TeardownProven
  {}

  /** Stopped is only ever claimed after a teardown proven earlier in the same run. */
  lemma {:induction false} StoppedRequiresProvenTeardown(b: Bounds, run: seq<State>, events: seq<Event>, k: nat)
    requires IsRun(b, run, events) && k < |run| && run[k].status == Stopped
    ensures exists j :: 0 <= j < k && events[j].action == TeardownAction && events[j].report == TeardownProven
  {
    hide Reduce;
    if run[k - 1].status == Stopped {
      StoppedRequiresProvenTeardown(b, run, events, k - 1);
    } else {
      EdgeAt(b, run, events, k - 1);
      StoppingEdge(b, run[k - 1], events[k - 1]);
    }
  }

  lemma ShrinkingEdge(b: Bounds, s: State, e: Event)
    requires PhaseInvariant(s) && Reduce(b, s, e).Some? && !(s.durable <= Reduce(b, s, e).value.durable)
    ensures s.operation == Narrow && s.effect == Commit && e.action == NarrowFinalCommit
    ensures s.inspected == DurableGen(Reduce(b, s, e).value)
  {}

  lemma EntersNarrowCommitByInspect(b: Bounds, s: State, e: Event)
    requires PhaseInvariant(s) && Reduce(b, s, e).Some?
    requires Reduce(b, s, e).value.operation == Narrow && Reduce(b, s, e).value.effect == Commit
    ensures e.action == InspectAction && e.report == Matched
    ensures Reduce(b, s, e).value.inspected == s.runtimeGen
  {}

  /** Durable authority only ever shrinks to the generation that the immediately preceding
      event positively inspected on the runtime. */
  lemma DurableShrinksOnlyAfterInspect(b: Bounds, run: seq<State>, events: seq<Event>, k: nat)
    requires IsRun(b, run, events) && k < |events| && !(run[k].durable <= run[k + 1].durable)
    ensures k > 0 && events[k - 1].action == InspectAction && events[k - 1].report == Matched
    ensures run[k - 1].runtimeGen == DurableGen(run[k + 1])
  {
    hide Reduce, PhaseInvariant;
    EdgeAt(b, run, events, k);
    RunKeepsPhase(b, run, events, k);
    ShrinkingEdge(b, run[k], events[k]);
    EdgeAt(b, run, events, k - 1);
    RunKeepsPhase(b, run, events, k - 1);
    EntersNarrowCommitByInspect(b, run[k - 1], events[k - 1]);
  }

  /** Running under the second owner, or stopped. */
  predicate HandedOff(s: State) {
    s.status == Stopped || (s.status == Running && s.owners == {OwnerB} && s.detached)
  }

  lemma HandedOffStays(b: Bounds, s: State, e: Event)
    requires PhaseInvariant(s) && HandedOff(s) && Reduce(b, s, e).Some?
    ensures HandedOff(Reduce(b, s, e).value)
    ensures e.action !in {HandoffExact, ReleaseExact, ClaimStart, ClaimCommit}
  {
    assert {OwnerA} != {OwnerB} by { assert OwnerA !in {OwnerB}; }
  }

  lemma OwnerEdge(b: Bounds, s: State, e: Event)
    requires Reduce(b, s, e).Some? && e.action in {HandoffExact, ReleaseExact}
    ensures s.status == Running && s.owners == {OwnerA} && !s.detached && AtRest(s, Running)
    ensures e.action == HandoffExact ==> HandedOff(Reduce(b, s, e).value)
    ensures e.action == ReleaseExact ==> Reduce(b, s, e).value.owners == {} && Reduce(b, s, e).value.status == Created
  {}

  lemma {:induction false} HandedOffFrom(b: Bounds, run: seq<State>, events: seq<Event>, i: nat, j: nat)
    requires IsRun(b, run, events) && i < j < |run| && events[i].action == HandoffExact
    ensures HandedOff(run[j])
    decreases j
  {
    hide Reduce, HandedOff, PhaseInvariant;
    EdgeAt(b, run, events, j - 1);
    if j == i + 1 {
      OwnerEdge(b, run[i], events[i]);
    } else {
      HandedOffFrom(b, run, events, i, j - 1);
      RunKeepsPhase(b, run, events, j - 1);
      HandedOffStays(b, run[j - 1], events[j - 1]);
    }
  }

  /** Only the exact first owner of a resting session hands it off or releases it, and a hand-off is final: no
      claim, hand-off or release follows it in the run. */
  lemma OnlyExactOwnerHandsOff(b: Bounds, run: seq<State>, events: seq<Event>, k: nat)
    requires IsRun(b, run, events) && k < |events|
    requires events[k].action in {HandoffExact, ReleaseExact}
    ensures AtRest(run[k], Running) && run[k].owners == {OwnerA} && !run[k].detached
    ensures events[k].action == HandoffExact ==>
              forall j :: k < j < |events| ==>
                            events[j].action !in {HandoffExact, ReleaseExact, ClaimStart, ClaimCommit}
  {
    hide Reduce, HandedOff, PhaseInvariant;
    EdgeAt(b, run, events, k);
    OwnerEdge(b, run[k], events[k]);
    if events[k].action == HandoffExact {
      forall j | k < j < |events|
        ensures events[j].action !in {HandoffExact, ReleaseExact, ClaimStart, ClaimCommit}
      {
        HandedOffFrom(b, run, events, k, j);
        EdgeAt(b, run, events, j);
        RunKeepsPhase(b, run, events, j);
        HandedOffStays(b, run[j], events[j]);
      }
    }
  }

  /** An unknown commit is never classified: both worlds are blocked, in either one the only ways
      on are the recovery inspect and a teardown request, and the two worlds differ. */
  lemma UnknownCommitNeverAssumed(b: Bounds, s: State, a: Action, e: Event)
    requires InDomain(b, s) && PhaseInvariant(s) && ReduceUnknownCommit(b, s, a).Some?
    ensures var worlds := ReduceUnknownCommit(b, s, a).value;
            && worlds.0 != worlds.1
            && worlds.0.mode == worlds.1.mode == Blocked
            && worlds.0.health == worlds.1.health == Uncertain
            && (Reduce(b, worlds.0, e).Some? || Reduce(b, worlds.1, e).Some? ==>
                  e.action in {RecoverClaim, RecoverEgress, RequestTeardown})
  {
    assert a in {ClaimCommit, WidenCommit, WidenFinalCommit, NarrowFinalCommit};
  }

  /** The life of an owner: a claim known to be stored makes the session run under exactly the first owner, a release
      takes it back to created without one, a hand-off passes it to exactly the second, detached. */
  lemma OwnerLife(b: Bounds)
    ensures var claimed := Reduce(b, Reduce(b, INITIAL, Event(ClaimStart, Unreported, None, NoTruth)).value,
                                  Event(ClaimCommit, KnownNew, None, NoTruth));
            && claimed.Some? && claimed.value == INITIAL.(status := Running, owners := {OwnerA}, result := Success)
            && Reduce(b, claimed.value, Event(ReleaseExact, Unreported, None, NoTruth))
               == Some(INITIAL.(result := Failure))
            && Reduce(b, claimed.value, Event(HandoffExact, Unreported, None, NoTruth))
               == Some(claimed.value.(owners := {OwnerB}, detached := true))
  {
    var started := Reduce(b, INITIAL, Event(ClaimStart, Unreported, None, NoTruth));
    assert started == Some(INITIAL.(operation := Claim, effect := Commit, result := Pending));
  }
}
