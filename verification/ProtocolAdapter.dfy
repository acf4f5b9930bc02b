/** The adapter that frames arbitrary concrete grant rows, revisions and hashes around the finite
    symbolic reducer (internal/engine/session/protocol.go, ProtocolAdapter). */
module ProtocolAdapter {
  import opened Wrappers
  import P = ProtocolReducer
  import opened ExactEgress
  import opened SessionRecord

  const GRANT_A: P.Grant := 1
  const GRANT_B: P.Grant := 2

  /** The reviewed model bounds: two grants, revisions 0 to 2. */
  const MODEL := P.Bounds(2, {GRANT_A, GRANT_B})

  const BASE_SYMBOL := P.Gen({}, 0)
  const WIDEN_NEW := P.Gen({GRANT_A}, 1)
  const NARROW_OLD := P.Gen({GRANT_A}, 0)
  const NARROW_NEW := P.Gen({}, 1)

  datatype Binding = Binding(grants: seq<Grant>, revision: int, generation: Generation, applied: Applied)

  datatype Adapter = Adapter(original: Record, baseline: P.State, bindings: map<P.Generation, Binding>)

  function Reduce(s: P.State, action: P.Action, report: P.Report): Option<P.State> {
    match P.Reduce(MODEL, s, P.Event(action, report, None, P.NoTruth))
    case None => None
    case Some(next) => Some(next)
  }

  function StartTransition(s: P.State, action: P.Action): Option<P.State> {
    match P.Reduce(MODEL, s, P.Event(action, P.Unreported, Some(GRANT_A), P.NoTruth))
    case None => None
    case Some(next) => Some(next)
  }

  /** protocolUnknownCommitBlocked */
  predicate UnknownCommitBlocked(s: P.State, action: P.Action) {
    match P.ReduceUnknownCommit(MODEL, s, action)
    case None => false
    case Some((oldWorld, newWorld)) =>
      && oldWorld != newWorld
      && oldWorld.health == P.Uncertain && oldWorld.mode == P.Blocked
      && newWorld.health == P.Uncertain && newWorld.mode == P.Blocked
  }

  predicate BindableSymbol(symbol: P.Generation) {
    symbol.Gen? && P.GenerationInDomain(MODEL, symbol)
  }

  function BindGeneration(a: Adapter, symbol: P.Generation, candidate: Record, preserveApplied: bool): (r: Option<Adapter>)
    ensures r.Some? ==> r.value.original == a.original && r.value.baseline == a.baseline
  {
    var generation := CanonicalGeneration(candidate.persistent, candidate.grants, candidate.revision);
    if !BindableSymbol(symbol) || candidate.persistent != a.original.persistent || generation.None? then None
    else
      var g := generation.value;
      var applied := if preserveApplied then candidate.applied else Applied(g.revision, Some(g.hash));
      var binding := Binding(candidate.grants, candidate.revision, g, applied);
      if symbol in a.bindings && a.bindings[symbol] != binding then None
      else if exists s :: s in a.bindings && s != symbol && a.bindings[s].generation == g then None
      else Some(a.(bindings := a.bindings[symbol := binding]))
  }

  function Stale(s: P.State): P.State {
    s.(health := P.Stale, mode := P.Blocked, operation := P.Recover, effect := P.NoEffect, result := P.Failure)
  }

  function Corrupt(s: P.State): P.State {
    s.(health := P.Corrupt, mode := P.Blocked, operation := P.Recover, effect := P.NoEffect, result := P.Failure)
  }

  function InTransition(s: P.State, before: P.Generation, durable: P.Generation, pending: P.Generation,
                        direction: P.Direction, operation: P.Operation): P.State
    requires before.Gen? && durable.Gen? && pending.Gen?
  {
    s.(durable := durable.authority, durableRevision := durable.revision,
       recorded := before, runtimeGen := before, inspected := before,
       pending := pending.authority, pendingRevision := pending.revision,
       direction := direction, operation := operation, effect := P.Apply, result := P.Pending)
  }

  /** mapConcreteTransition: rebind the persisted transition of the adapter's own record. */
  function MapTransition(a: Adapter, s: P.State): (r: (Adapter, P.State))
    ensures r.0.original == a.original && r.0.baseline == a.baseline && r.1.runtime == s.runtime
  {
    var r := a.original;
    var empty := a.(bindings := map[]);
    if r.transition.None? || !ValidRuntimeState(r) then (a, Corrupt(s))
    else match r.transition.value.direction
         case Widening =>
           if r.grants == [] then (empty, Stale(s)) else
           var prior := r.(grants := r.grants[..|r.grants| - 1], revision := r.applied.revision);
           (match BindGeneration(empty, BASE_SYMBOL, prior, true)
            case None => (empty, Stale(s))
            case Some(one) =>
              match BindGeneration(one, WIDEN_NEW, r, false)
              case None => (one, Stale(s))
              case Some(two) =>
                (two, InTransition(s, BASE_SYMBOL, WIDEN_NEW, WIDEN_NEW, P.Widening, P.Widen)))
         case Narrowing =>
           var candidate := r.(grants := r.transition.value.grants, revision := r.transition.value.revision);
           (match BindGeneration(empty, NARROW_OLD, r, true)
            case None => (empty, Stale(s))
            case Some(one) =>
              match BindGeneration(one, NARROW_NEW, candidate, false)
              case None => (one, Stale(s))
              case Some(two) =>
                (two, InTransition(s, NARROW_OLD, NARROW_OLD, NARROW_NEW, P.Narrowing, P.Narrow)))
  }

  function RunningBase(s: P.State): P.State {
    s.(status := P.Running, owners := {P.OwnerA}, detached := false)
  }

  /** NewProtocolAdapter for a running record. */
  function NewAdapter(r: Record): Adapter {
    var unbound := Adapter(r, P.INITIAL, map[]);
    var first := BindGeneration(unbound, BASE_SYMBOL, r, true);
    var a := if first.Some? then first.value else unbound;
    var base := if first.Some? then P.INITIAL
                else P.INITIAL.(health := P.Corrupt, mode := P.Blocked, operation := P.Recover, result := P.Failure);
    var running := RunningBase(base).(result := P.Success);
    var owned := if r.ownerVerified then running else Stale(running);
    var checked := if ValidRuntimeState(r) then owned else Corrupt(owned);
    var (mapped, state) := if r.transition.Some? && checked.mode == P.Normal then MapTransition(a, checked) else (a, checked);
    var marked := if r.uncertain
                  then state.(health := P.Uncertain, mode := P.Blocked, operation := P.Recover,
                              effect := P.NoEffect, result := P.UncertainResult)
                  else state;
    mapped.(baseline := marked)
  }

  function AtRest(s: P.State): P.State {
    RunningBase(s).(health := P.Healthy, mode := P.Normal, operation := P.Idle, effect := P.NoEffect, result := P.Success)
  }

  /** RebaseGeneration: frame the stable concrete authority as a chosen symbol. */
  function RebaseGeneration(a: Adapter, symbol: P.Generation): Option<(Adapter, P.State)> {
    var b := a.baseline;
    var stable := b.health == P.Healthy && b.mode == P.Normal && b.operation == P.Idle && b.effect == P.NoEffect;
    var ownerOnlyStale := b.health == P.Stale && b.mode == P.Blocked && b.operation == P.Recover && b.effect == P.NoEffect;
    if a.original.status != Running || a.original.transition.Some? || !ValidRuntimeState(a.original)
       || (!stable && !ownerOnlyStale) || symbol.NoGen? then None
    else match BindGeneration(a.(bindings := map[]), symbol, a.original, true)
         case None => None
         case Some(bound) =>
           var s := AtRest(b).(pending := {}, pendingRevision := 0, direction := P.NoDirection,
                               durable := symbol.authority, durableRevision := symbol.revision,
                               recorded := symbol, runtimeGen := symbol, inspected := symbol, runtime := symbol.authority);
           Some((bound.(baseline := s), s))
  }

  /** RebaseVerifiedGeneration: as above, recording the canonical generation as applied. */
  function RebaseVerifiedGeneration(a: Adapter, symbol: P.Generation): Option<(Adapter, P.State)> {
    match RebaseGeneration(a, symbol)
    case None => None
    case Some((rebased, s)) =>
      match BindGeneration(rebased.(bindings := map[]), symbol, a.original, false)
      case None => None
      case Some(bound) => Some((bound, s))
  }

  predicate RefusesProjection(s: P.State) {
    || s.health != P.Healthy || s.mode == P.Blocked
    || s.operation in {P.Claim, P.Recover, P.Stop, P.Teardown}
    || (s.effect == P.Commit && s.operation in {P.Widen, P.Narrow})
  }

  function ProjectedTransition(a: Adapter, s: P.State): Option<Transition>
    requires P.PendingGen(s) in a.bindings
  {
    var b := a.bindings[P.PendingGen(s)];
    Some(Transition(if s.direction == P.Narrowing then Narrowing else Widening, b.revision, b.generation.hash, b.grants))
  }

  /** projectCandidate: the record that a symbolic state stands for, in the adapter's frame. */
  function ProjectCandidate(a: Adapter, s: P.State, preserveBaseline: bool): Option<Record> {
    if preserveBaseline && s == a.baseline then Some(a.original)
    else if !P.InDomain(MODEL, s) || RefusesProjection(s) || s.status == P.Created then None
    else if s.status == P.Running && s.owners != {P.OwnerA} then None
    else if s.status == P.Stopped && s.owners != {} then None
    else if P.DurableGen(s) !in a.bindings then None
    else if s.recorded.Gen? && s.recorded !in a.bindings then None
    else if s.direction != P.NoDirection && P.PendingGen(s) !in a.bindings then None
    else
      var durable := a.bindings[P.DurableGen(s)];
      var framed := a.original.(grants := durable.grants, revision := durable.revision);
      var candidate :=
        if s.status == P.Stopped then
          framed.(status := Stopped, ownerVerified := false, applied := NEVER_APPLIED, transition := None)
        else
          framed.(status := Running,
                  applied := if s.recorded.Gen? then a.bindings[s.recorded].applied else NEVER_APPLIED,
                  transition := if s.direction == P.NoDirection then None else ProjectedTransition(a, s));
      if ValidRuntimeState(candidate) then Some(candidate) else None
  }

  function Candidate(a: Adapter, s: P.State): Option<Record> { ProjectCandidate(a, s, true) }

  /** The symbolic state whose projection a tagged commit proposes. */
  function CommitTarget(s: P.State): Option<P.State> {
    if !P.InDomain(MODEL, s) || s.effect != P.Commit || s.health != P.Healthy || s.mode != P.Normal || s.result != P.Pending
       || s.status != P.Running || s.owners != {P.OwnerA} then None
    else match s.operation
         case Widen =>
           if s.direction != P.Widening then None
           else if !P.PendingIsDurable(s) then
             Some(s.(durable := s.pending, durableRevision := s.pendingRevision, effect := P.Apply))
           else if s.inspected != P.PendingGen(s) then None
           else Some(P.Reset(s.(recorded := P.PendingGen(s)), P.Success))
         case Narrow =>
           if s.direction != P.Narrowing || s.inspected != P.PendingGen(s) then None
           else Some(P.Reset(s.(durable := s.pending, durableRevision := s.pendingRevision, recorded := P.PendingGen(s)),
                             P.Success))
         case _ => None
  }

  function EffectCandidate(a: Adapter, s: P.State): Option<Record> {
    match CommitTarget(s)
    case None => None
    case Some(target) => Candidate(a, target)
  }

  predicate FrameCompatible(a: Adapter, frame: Record) {
    && frame.status == a.original.status && frame.ownerVerified == a.original.ownerVerified
    && frame.persistent == a.original.persistent && ValidRuntimeState(frame)
  }

  function EffectCandidateFrom(a: Adapter, s: P.State, frame: Record): Option<Record> {
    if FrameCompatible(a, frame) then EffectCandidate(a.(original := frame), s) else None
  }

  function CandidateFrom(a: Adapter, s: P.State, frame: Record): Option<Record> {
    if FrameCompatible(a, frame) then ProjectCandidate(a.(original := frame), s, false) else None
  }

  function GenerationCandidate(a: Adapter, symbol: P.Generation): Option<Record> {
    if symbol in a.bindings
    then Some(a.original.(grants := a.bindings[symbol].grants, revision := a.bindings[symbol].revision))
    else None
  }

  predicate GenerationEqual(a: Adapter, symbol: P.Generation, concrete: Generation) {
    symbol in a.bindings && a.bindings[symbol].generation == concrete
  }

  /** EgressTransitionStates: the persisted transition as its active and its blocked recovery state. */
  function TransitionStates(a: Adapter): Option<(Adapter, P.State, P.State)> {
    if a.original.status != Running || a.original.transition.None? || !ValidRuntimeState(a.original) || a.original.uncertain
    then None
    else
      var (mapped, s) := MapTransition(a, AtRest(a.baseline));
      if s.health in {P.Corrupt, P.Stale} || s.direction == P.NoDirection then None
      else
        var active := RunningBase(s).(health := P.Healthy, mode := P.Normal, result := P.Pending,
                                      operation := if s.direction == P.Widening then P.Widen else P.Narrow,
                                      effect := P.Apply);
        Some((mapped, active, P.BlockForRecovery(active, P.Failure)))
  }

  /** BlockedTeardownState for a running record. */
  function BlockedTeardownState(a: Adapter): Option<(Adapter, P.State)> {
    if a.original.status != Running || !ValidRuntimeState(a.original) then None
    else
      var (mapped, s) := if a.original.transition.Some? && a.baseline.direction == P.NoDirection
                         then MapTransition(a, a.baseline) else (a, a.baseline);
      if s.health == P.Corrupt then None
      else Some((mapped, RunningBase(s).(health := P.Stale, mode := P.Blocked, operation := P.Recover,
                                         effect := P.NoEffect, result := P.Failure)))
  }

  function TeardownUnknownCandidate(a: Adapter, s: P.State): Option<Record> {
    if s.status == P.Running && s.health == P.Uncertain && s.mode == P.Blocked && s.operation == P.Teardown
       && s.effect == P.TeardownEffect && s.result == P.UncertainResult
    then Some(a.original.(uncertain := true)) else None
  }

  function TerminalCandidate(a: Adapter, s: P.State): Option<Record> {
    if s.status != P.Stopped then None
    else ProjectCandidate(a, s.(owners := {}, detached := false, runtime := {}, runtimeGen := P.NoGen, inspected := P.NoGen,
                                health := P.Healthy, mode := P.Terminal, operation := P.Idle, effect := P.NoEffect,
                                result := P.Failure, pending := {}, pendingRevision := 0, direction := P.NoDirection), false)
  }

  function TeardownProvenCandidate(a: Adapter, s: P.State, restore: Option<Record>): Option<Record> {
    match TerminalCandidate(a, s)
    case None => None
    case Some(terminal) =>
      match restore
      case None => Some(terminal.(uncertain := true))
      case Some(authority) =>
        var candidate := terminal.(grants := authority.grants, revision := authority.revision);
        if authority.persistent == a.original.persistent && ValidAuthority(authority)
           && ValidAuthority(candidate) && ValidRuntimeState(candidate)
        then Some(candidate.(uncertain := true)) else None
  }
}
