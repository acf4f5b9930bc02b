/** The finite symbolic protocol drives arbitrary concrete authority: every edge the drivers demand is
    accepted, and every candidate the adapter projects is the record the protocol means. */
module AdapterLemmas {
  import opened Wrappers
  import P = ProtocolReducer
  import opened ExactEgress
  import opened SessionRecord
  import opened EgressMachine
  import opened EgressSafety
  import opened ProtocolAdapter

  /** The stable symbolic state over one symbol. */
  function AtSymbol(symbol: P.Generation): P.State
    requires symbol.Gen?
  {
    P.State(P.Running, {P.OwnerA}, false, symbol.authority, symbol.revision, symbol, symbol.authority, symbol, symbol,
            P.Healthy, P.Normal, P.Idle, P.NoEffect, P.Success, {}, 0, P.NoDirection)
  }

  function BindingOf(r: Record): Binding {
    Binding(r.grants, r.revision, RecordGeneration(r), AppliedOf(RecordGeneration(r)))
  }

  lemma RebaseAccepted(cur: Record, symbol: P.Generation)
    requires Stable(cur) && BindableSymbol(symbol)
    ensures RebaseGeneration(NewAdapter(cur), symbol)
            == Some((Adapter(cur, AtSymbol(symbol), map[symbol := BindingOf(cur)]), AtSymbol(symbol)))
  {
    ValidAuthorityBuilds(cur);
  }

  lemma BindAccepted(cur: Record, symbol: P.Generation, target: P.Generation, next: Record)
    requires BindableSymbol(symbol) && BindableSymbol(target) && symbol != target
    requires next.persistent == cur.persistent && next.revision != cur.revision
    requires CanonicalGeneration(next.persistent, next.grants, next.revision) == Some(RecordGeneration(next))
    ensures var a := Adapter(cur, AtSymbol(symbol), map[symbol := BindingOf(cur)]);
            BindGeneration(a, target, next, false)
            == Some(a.(bindings := map[symbol := BindingOf(cur), target := BindingOf(next)]))
  {}

  lemma SymbolsBind()
    ensures BindableSymbol(NARROW_OLD) && BindableSymbol(NARROW_NEW) && BindableSymbol(BASE_SYMBOL)
    ensures BindableSymbol(WIDEN_NEW)
  {}

  /** A stable symbolic state projects to the frame with its symbol's rows, revision and applied generation. */
  lemma RestProjected(a: Adapter, symbol: P.Generation, result: P.Outcome, frame: Record)
    requires BindableSymbol(symbol) && symbol in a.bindings && FrameCompatible(a, frame) && frame.status == Running
    ensures var b := a.bindings[symbol];
            var c := frame.(grants := b.grants, revision := b.revision, applied := b.applied, transition := None);
            CandidateFrom(a, AtSymbol(symbol).(result := result), frame) == if ValidRuntimeState(c) then Some(c) else None
  {
    hide ValidRuntimeState, FrameCompatible;
  }

  // ---------------------------------------------------------------------------------------------
  // Widen

  function WidenAdapter(cur: Record, next: Record): Adapter {
    Adapter(cur, AtSymbol(BASE_SYMBOL), map[BASE_SYMBOL := BindingOf(cur), WIDEN_NEW := BindingOf(next)])
  }

  const WIDEN_STARTED: P.State :=
    AtSymbol(BASE_SYMBOL).(operation := P.Widen, effect := P.Commit, result := P.Pending,
                           pending := {GRANT_A}, pendingRevision := 1, direction := P.Widening)
  const WIDEN_DURABLE: P.State := WIDEN_STARTED.(durable := {GRANT_A}, durableRevision := 1, effect := P.Apply)
  const WIDEN_APPLIED: P.State := WIDEN_DURABLE.(runtime := {GRANT_A}, runtimeGen := WIDEN_NEW, effect := P.Inspect)
  const WIDEN_INSPECTED: P.State := WIDEN_APPLIED.(inspected := WIDEN_NEW, effect := P.Commit)

  /** Every reducer edge of the widen driver is accepted. */
  lemma WidenEdges()
    ensures StartTransition(AtSymbol(BASE_SYMBOL), P.WidenStart) == Some(WIDEN_STARTED)
    ensures Reduce(WIDEN_STARTED, P.WidenCommit, P.KnownNew) == Some(WIDEN_DURABLE)
    ensures Reduce(WIDEN_STARTED, P.WidenCommit, P.KnownOld).Some?
    ensures UnknownCommitBlocked(WIDEN_STARTED, P.WidenCommit)
    ensures Reduce(WIDEN_DURABLE, P.ApplyAction, P.Succeeded) == Some(WIDEN_APPLIED)
    ensures Reduce(WIDEN_APPLIED, P.InspectAction, P.Matched) == Some(WIDEN_INSPECTED)
    ensures Reduce(WIDEN_INSPECTED, P.WidenFinalCommit, P.KnownNew) == Some(AtSymbol(WIDEN_NEW))
    ensures var known := Reduce(WIDEN_INSPECTED, P.WidenFinalCommit, P.KnownOld);
            known.Some? && known.value.health == P.Uncertain && known.value.mode == P.Blocked
    ensures UnknownCommitBlocked(WIDEN_INSPECTED, P.WidenFinalCommit)
  {
    assert {} + {GRANT_A} == {GRANT_A};
  }

  /** The widen driver's first candidate is the widen intent, or refused when the drawn row id collides. */
  lemma WidenIntentProjected(cur: Record, next: Record)
    requires Stable(cur) && Appends(cur, next)
    ensures EffectCandidate(WidenAdapter(cur, next), WIDEN_STARTED)
            == if ValidRuntimeState(WidenIntent(cur, next)) then Some(WidenIntent(cur, next)) else None
  {
    hide ValidRuntimeState, RecordGeneration;
    assert P.DurableGen(WIDEN_DURABLE) == P.PendingGen(WIDEN_DURABLE) == WIDEN_NEW;
    assert CommitTarget(WIDEN_STARTED) == Some(WIDEN_DURABLE);
  }

  lemma AppendedList(grants: seq<SessionRecord.Grant>, g: SessionRecord.Grant)
    requires ValidGrantList(grants) && Grantable(g.dest) && forall x :: x in grants ==> x.dest != g.dest
    ensures ValidGrantList(grants + [g]) <==> forall x :: x in grants ==> x.id != g.id
  {
    hide Grantable;
    var more := grants + [g];
    assert forall i :: 0 <= i < |grants| ==> more[i] == grants[i];
    assert more[|grants|] == g;
    if ValidGrantList(more) {
      forall x | x in grants
        ensures x.id != g.id
      {
        var i :| 0 <= i < |grants| && grants[i] == x;
        assert more[i].id != more[|grants|].id;
      }
    }
  }

  /** The grant driver's intent is refused exactly when the freshly drawn row id is already taken. */
  lemma WidenRefusedIff(cur: Record, dest: Destination, id: nat)
    requires Stable(cur) && AppendGrant(cur, dest, id).Appended?
    ensures ValidRuntimeState(WidenIntent(cur, AppendGrant(cur, dest, id).next))
            <==> forall g :: g in cur.grants ==> g.id != id
  {
    var next := AppendGrant(cur, dest, id).next;
    FindDestFinds(cur.grants, dest);
    AppendedList(cur.grants, SessionRecord.Grant(id, dest));
    ValidAuthorityBuilds(cur);
    DedupKeepsSet(next.persistent + Dests(next.grants));
    assert next.grants[..|next.grants| - 1] == cur.grants;
    hide Grantable, ValidGrantList, FindDest, GenerationOf;
    assert CanonicalGeneration(next.persistent, next.grants, next.revision) == Some(RecordGeneration(next));
  }

  lemma {:induction false} WidenFinalProjected(cur: Record, next: Record)
    requires Stable(cur) && Appends(cur, next) && ValidRecord(WidenIntent(cur, next))
    ensures EffectCandidateFrom(WidenAdapter(cur, next), WIDEN_INSPECTED, Stored(WidenIntent(cur, next)))
            == Some(Acknowledged(Stored(WidenIntent(cur, next))))
  {
    hide ValidRuntimeState, RecordGeneration, ValidAuthority;
    var tx := Stored(WidenIntent(cur, next));
    StoredValid(WidenIntent(cur, next));
    AcknowledgedValid(tx);
    SameAuthority(tx, next);
    assert CommitTarget(WIDEN_INSPECTED) == Some(AtSymbol(WIDEN_NEW));
    assert AtSymbol(WIDEN_NEW) != AtSymbol(BASE_SYMBOL);
  }

  // ---------------------------------------------------------------------------------------------
  // Narrow

  function NarrowAdapter(cur: Record, next: Record): Adapter {
    Adapter(cur, AtSymbol(NARROW_OLD), map[NARROW_OLD := BindingOf(cur), NARROW_NEW := BindingOf(next)])
  }

  const NARROW_STARTED: P.State :=
    AtSymbol(NARROW_OLD).(operation := P.Narrow, effect := P.Apply, result := P.Pending,
                          pending := {}, pendingRevision := 1, direction := P.Narrowing)
  const NARROW_APPLIED: P.State := NARROW_STARTED.(runtime := {}, runtimeGen := NARROW_NEW, effect := P.Inspect)
  const NARROW_INSPECTED: P.State := NARROW_APPLIED.(inspected := NARROW_NEW, effect := P.Commit)

  /** Every reducer edge of the narrow driver is accepted. */
  lemma NarrowEdges()
    ensures StartTransition(AtSymbol(NARROW_OLD), P.NarrowStart) == Some(NARROW_STARTED)
    ensures Reduce(NARROW_STARTED, P.ApplyAction, P.Succeeded) == Some(NARROW_APPLIED)
    ensures Reduce(NARROW_APPLIED, P.InspectAction, P.Matched) == Some(NARROW_INSPECTED)
    ensures Reduce(NARROW_INSPECTED, P.NarrowFinalCommit, P.KnownNew) == Some(AtSymbol(NARROW_NEW))
    ensures Reduce(NARROW_INSPECTED, P.NarrowFinalCommit, P.KnownOld) == Some(AtSymbol(NARROW_OLD).(result := P.Failure))
    ensures UnknownCommitBlocked(NARROW_INSPECTED, P.NarrowFinalCommit)
  {
    assert {GRANT_A} - {GRANT_A} == {};
  }

  lemma NarrowStartedProjects()
    ensures P.InDomain(MODEL, NARROW_STARTED) && !RefusesProjection(NARROW_STARTED)
    ensures NARROW_STARTED.status == P.Running && NARROW_STARTED.owners == {P.OwnerA}
    ensures NARROW_STARTED.recorded == P.DurableGen(NARROW_STARTED) == NARROW_OLD
    ensures P.PendingGen(NARROW_STARTED) == NARROW_NEW && NARROW_STARTED.direction == P.Narrowing
    ensures NARROW_STARTED != AtSymbol(NARROW_OLD)
  {}

  lemma NarrowIntentProjected(cur: Record, next: Record)
    requires Stable(cur) && Cuts(cur, next) && cur.grantable && ValidGrantList(next.grants)
    ensures Candidate(NarrowAdapter(cur, next), NARROW_STARTED) == Some(NarrowIntent(cur, next))
  {
    NarrowIntentValid(cur, next);
    assert ValidRuntimeState(NarrowIntent(cur, next));
    hide ValidRuntimeState, RecordGeneration, ValidAuthority, IsOneGrantNarrower, ValidRecord, ValidGrantList;
    NarrowStartedProjects();
  }

  lemma NarrowTaken(tx: Record, cur: Record, next: Record)
    requires Narrows(tx, cur, next)
    ensures tx.transition.Some? && ValidRuntimeState(TakeCandidate(tx)) && ValidRuntimeState(tx)
    ensures TakeCandidate(tx) == tx.(grants := next.grants, revision := next.revision,
                                     applied := AppliedOf(RecordGeneration(next)), transition := None)
  {
    hide IsOneGrantNarrower, RecordGeneration, RecordAuthority, ValidRuntimeState, ValidAuthority;
    NarrowIntentValid(cur, next);
    StoredValid(NarrowIntent(cur, next));
    NarrowReverts(tx, cur, next);
    TakeCandidateValid(tx);
    SameAuthority(next, tx.(grants := next.grants, revision := next.revision));
  }

  lemma NarrowFinalProjected(tx: Record, cur: Record, next: Record)
    requires Narrows(tx, cur, next)
    ensures EffectCandidateFrom(NarrowAdapter(cur, next), NARROW_INSPECTED, tx) == Some(TakeCandidate(tx))
  {
    NarrowTaken(tx, cur, next);
    hide ValidRuntimeState, RecordGeneration, IsOneGrantNarrower, ValidRecord, ValidGrantList, TakeCandidate;
    assert CommitTarget(NARROW_INSPECTED) == Some(AtSymbol(NARROW_NEW));
    assert AtSymbol(NARROW_NEW) != AtSymbol(NARROW_OLD);
    assert FrameCompatible(NarrowAdapter(cur, next), tx);
  }

  /** Both cleanup commits of the narrow driver propose the old record without its marker. */
  lemma RestoredProjected(tx: Record, cur: Record, next: Record, result: P.Outcome)
    requires Narrows(tx, cur, next)
    ensures CandidateFrom(NarrowAdapter(cur, next), AtSymbol(NARROW_OLD).(result := result), tx) == Some(Restored(tx, cur))
  {
    NarrowIntentValid(cur, next);
    StoredValid(NarrowIntent(cur, next));
    NarrowReverts(tx, cur, next);
    hide ValidRuntimeState, RecordGeneration, ValidAuthority, IsOneGrantNarrower, CandidateFrom, AtSymbol, BindableSymbol;
    SymbolsBind();
    RestProjected(NarrowAdapter(cur, next), NARROW_OLD, result, tx);
  }

  // ---------------------------------------------------------------------------------------------
  // Recovery

  /** A running record that recovery may work on. */
  predicate Recoverable(r: Record) {
    ValidRecord(r) && r.status == Running && !r.uncertain
  }

  function VerifiedAdapter(r: Record): Adapter {
    Adapter(r, AtSymbol(BASE_SYMBOL), map[BASE_SYMBOL := BindingOf(r)])
  }

  lemma VerifiedProjected(r: Record)
    requires Recoverable(r) && r.transition.None?
    ensures RebaseVerifiedGeneration(NewAdapter(r), BASE_SYMBOL) == Some((VerifiedAdapter(r), AtSymbol(BASE_SYMBOL)))
    ensures CandidateFrom(VerifiedAdapter(r), AtSymbol(BASE_SYMBOL), r) == Some(Acknowledged(r))
    ensures forall g :: GenerationEqual(VerifiedAdapter(r), BASE_SYMBOL, g) <==> g == RecordGeneration(r)
  {
    VerifiedRebased(r);
    AcknowledgedValid(r);
    assert ValidRuntimeState(r) && ValidRuntimeState(Acknowledged(r));
    hide RecordGeneration, RebaseVerifiedGeneration, CandidateFrom, ValidRuntimeState, ValidRecord;
    SymbolsBind();
    assert AtSymbol(BASE_SYMBOL).(result := P.Success) == AtSymbol(BASE_SYMBOL);
    RestProjected(VerifiedAdapter(r), BASE_SYMBOL, P.Success, r);
  }

  lemma VerifiedRebased(r: Record)
    requires Recoverable(r) && r.transition.None?
    ensures RebaseVerifiedGeneration(NewAdapter(r), BASE_SYMBOL) == Some((VerifiedAdapter(r), AtSymbol(BASE_SYMBOL)))
  {
    ValidAuthorityBuilds(r);
    hide RecordGeneration, ValidAuthority;
  }

  function CandidateRecord(r: Record): Record
    requires r.transition.Some?
  {
    r.(grants := r.transition.value.grants, revision := r.transition.value.revision)
  }

  predicate IsNarrowing(r: Record) {
    r.transition.Some? && r.transition.value.direction == Narrowing
  }

  /** The bindings the adapter gives a persisted transition. */
  function TransitionBindings(r: Record): map<P.Generation, Binding>
    requires r.transition.Some? && (r.transition.value.direction == Widening ==> r.grants != [])
  {
    if IsNarrowing(r) then map[NARROW_OLD := BindingOf(r), NARROW_NEW := BindingOf(CandidateRecord(r))]
    else
      var prior := r.(grants := r.grants[..|r.grants| - 1], revision := r.applied.revision);
      map[BASE_SYMBOL := BindingOf(prior), WIDEN_NEW := BindingOf(r)]
  }

  function ActiveState(r: Record): P.State {
    if IsNarrowing(r) then NARROW_STARTED.(runtime := {})
    else WIDEN_DURABLE.(runtime := {})
  }

  function RecoveryState(r: Record): P.State { P.BlockForRecovery(ActiveState(r), P.Failure) }

  function RecoveredState(r: Record): P.State {
    if IsNarrowing(r) then AtSymbol(NARROW_OLD).(result := P.Failure) else AtSymbol(WIDEN_NEW)
  }

  lemma TransitionStatesAccepted(r: Record)
    requires Recoverable(r) && r.transition.Some?
    ensures r.transition.value.direction == Widening ==> r.grants != []
    ensures TransitionStates(NewAdapter(r)).Some?
    ensures var (a, active, recovery) := TransitionStates(NewAdapter(r)).value;
            && a.original == r && a.bindings == TransitionBindings(r)
            && active == ActiveState(r) && recovery == RecoveryState(r)
  {
    assert ValidRuntimeState(r);
    hide NewAdapter, MapTransition, ValidRecord, ValidRuntimeState;
    NewAdapterKeepsRuntime(r);
    MappedTransition(NewAdapter(r), AtRest(NewAdapter(r).baseline));
  }

  lemma NewAdapterKeepsRuntime(r: Record)
    ensures NewAdapter(r).original == r && NewAdapter(r).baseline.runtime == {}
  {
    hide BindGeneration, MapTransition, ValidRuntimeState;
  }

  function MappedState(r: Record, s: P.State): P.State {
    if IsNarrowing(r) then InTransition(s, NARROW_OLD, NARROW_OLD, NARROW_NEW, P.Narrowing, P.Narrow)
    else InTransition(s, BASE_SYMBOL, WIDEN_NEW, WIDEN_NEW, P.Widening, P.Widen)
  }

  lemma MappedWidening(a: Adapter, s: P.State)
    requires ValidRecord(a.original) && a.original.transition.Some? && !IsNarrowing(a.original)
    ensures a.original.grants != []
    ensures MapTransition(a, s) == (a.(bindings := TransitionBindings(a.original)), MappedState(a.original, s))
  {
    hide GenerationOf, ValidAuthority;
    var r := a.original;
    var prior := r.(grants := r.grants[..|r.grants| - 1], revision := r.applied.revision);
    assert CanonicalGeneration(prior.persistent, prior.grants, prior.revision) == Some(RecordGeneration(prior));
    assert r.applied == AppliedOf(RecordGeneration(prior)) by { GenerationRevision(prior); }
    var one := BindGeneration(a.(bindings := map[]), BASE_SYMBOL, prior, true);
    assert one == Some(a.(bindings := map[BASE_SYMBOL := BindingOf(prior)]));
    GenerationRevision(r);
    var two := BindGeneration(one.value, WIDEN_NEW, r, false);
    assert two == Some(a.(bindings := map[BASE_SYMBOL := BindingOf(prior), WIDEN_NEW := BindingOf(r)]));
  }

  lemma GenerationRevision(r: Record)
    ensures RecordGeneration(r).revision == r.revision
  {}

  lemma MappedNarrowing(a: Adapter, s: P.State)
    requires ValidRecord(a.original) && IsNarrowing(a.original)
    ensures MapTransition(a, s) == (a.(bindings := TransitionBindings(a.original)), MappedState(a.original, s))
  {
    hide GenerationOf, ValidAuthority, IsOneGrantNarrower;
    var r := a.original;
    var candidate := CandidateRecord(r);
    GenerationRevision(r);
    GenerationRevision(candidate);
    var one := BindGeneration(a.(bindings := map[]), NARROW_OLD, r, true);
    assert one == Some(a.(bindings := map[NARROW_OLD := BindingOf(r)]));
    var two := BindGeneration(one.value, NARROW_NEW, candidate, false);
    assert two == Some(a.(bindings := map[NARROW_OLD := BindingOf(r), NARROW_NEW := BindingOf(candidate)]));
  }

  lemma MappedTransition(a: Adapter, s: P.State)
    requires ValidRecord(a.original) && a.original.transition.Some?
    ensures !IsNarrowing(a.original) ==> a.original.grants != []
    ensures MapTransition(a, s) == (a.(bindings := TransitionBindings(a.original)), MappedState(a.original, s))
  {
    hide MapTransition, MappedState, ValidRecord, TransitionBindings;
    if IsNarrowing(a.original) {
      MappedNarrowing(a, s);
    } else {
      MappedWidening(a, s);
    }
  }

  /** The adapter's own baseline never doubles as the narrowed symbol. */
  lemma BaselineIsNotNarrowed(r: Record)
    requires Recoverable(r) && IsNarrowing(r)
    ensures TransitionStates(NewAdapter(r)).Some?
    ensures TransitionStates(NewAdapter(r)).value.0.baseline != AtSymbol(NARROW_NEW)
  {
    TransitionStatesAccepted(r);
    NarrowBaseline(r);
    MappedTransition(NewAdapter(r), AtRest(NewAdapter(r).baseline));
    hide NewAdapter, MapTransition, ValidRecord, ValidRuntimeState;
  }

  lemma NarrowBaseline(r: Record)
    requires Recoverable(r) && IsNarrowing(r)
    ensures NewAdapter(r).original == r && NewAdapter(r).baseline.durableRevision == 0
  {
    ValidAuthorityBuilds(r);
    var binding := Binding(r.grants, r.revision, RecordGeneration(r), r.applied);
    var a := Adapter(r, P.INITIAL, map[BASE_SYMBOL := binding]);
    assert BindGeneration(Adapter(r, P.INITIAL, map[]), BASE_SYMBOL, r, true) == Some(a);
    MappedTransition(a, RunningBase(P.INITIAL).(result := P.Success));
    hide MapTransition, BindGeneration, RecordGeneration;
  }

  /** The recovery edges of a persisted transition, all accepted. */
  lemma RecoveryEdges(r: Record)
    ensures Reduce(RecoveryState(r), P.RecoverEgress, P.Unreported) == Some(RecoveredState(r).(runtime := P.DurableGen(RecoveryState(r)).authority))
    ensures P.DurableGen(ActiveState(r)) == P.DurableGen(RecoveryState(r)) == if IsNarrowing(r) then NARROW_OLD else WIDEN_NEW
    ensures P.PendingGen(ActiveState(r)) == if IsNarrowing(r) then NARROW_NEW else WIDEN_NEW
    ensures IsNarrowing(r) ==>
              && Reduce(ActiveState(r), P.ApplyAction, P.Succeeded) == Some(NARROW_APPLIED)
              && Reduce(NARROW_APPLIED, P.InspectAction, P.Matched) == Some(NARROW_INSPECTED)
  {
    if IsNarrowing(r) {
      NarrowRecoveryEdge();
    } else {
      WidenRecoveryEdge();
    }
    hide P.Reduce;
  }

  lemma NarrowRecoveryEdge()
    ensures Reduce(P.BlockForRecovery(NARROW_STARTED.(runtime := {}), P.Failure), P.RecoverEgress, P.Unreported)
            == Some(AtSymbol(NARROW_OLD).(result := P.Failure))
    ensures Reduce(NARROW_STARTED.(runtime := {}), P.ApplyAction, P.Succeeded) == Some(NARROW_APPLIED)
    ensures Reduce(NARROW_APPLIED, P.InspectAction, P.Matched) == Some(NARROW_INSPECTED)
  {}

  lemma WidenRecoveryEdge()
    ensures Reduce(P.BlockForRecovery(WIDEN_DURABLE.(runtime := {}), P.Failure), P.RecoverEgress, P.Unreported)
            == Some(AtSymbol(WIDEN_NEW))
  {}

  lemma RecoveredProjected(r: Record, a: Adapter)
    requires Recoverable(r) && r.transition.Some? && a.original == r
    requires r.transition.value.direction == Widening ==> r.grants != []
    requires a.bindings == TransitionBindings(r)
    ensures CandidateFrom(a, RecoveredState(r), r) == Some(Acknowledged(r))
  {
    AcknowledgedValid(r);
    assert ValidRuntimeState(r) && ValidRuntimeState(Acknowledged(r));
    AppliedIsBound(r);
    hide RecordGeneration, ValidRecord, ValidRuntimeState, CandidateFrom, TransitionBindings, AtSymbol, BindableSymbol;
    SymbolsBind();
    RestProjected(a, DurableSymbol(r), RecoveredState(r).result, r);
  }

  function DurableSymbol(r: Record): P.Generation { if IsNarrowing(r) then NARROW_OLD else WIDEN_NEW }

  lemma AppliedIsBound(r: Record)
    requires r.transition.Some? && (r.transition.value.direction == Widening ==> r.grants != [])
    ensures DurableSymbol(r) in TransitionBindings(r) && TransitionBindings(r)[DurableSymbol(r)] == BindingOf(r)
    ensures RecoveredState(r) == AtSymbol(DurableSymbol(r)).(result := RecoveredState(r).result)
  {
    hide RecordGeneration;
  }

  lemma TakenValid(r: Record)
    requires Recoverable(r) && IsNarrowing(r)
    ensures ValidRuntimeState(r) && ValidRuntimeState(TakeCandidate(r))
  {
    TransitionGrantable(r);
    TakeCandidateValid(r);
  }

  lemma CandidateProjected(r: Record, a: Adapter)
    requires Recoverable(r) && IsNarrowing(r) && a.original == r && a.bindings == TransitionBindings(r)
    requires a.baseline != AtSymbol(NARROW_NEW)
    ensures EffectCandidateFrom(a, NARROW_INSPECTED, r) == Some(TakeCandidate(r))
  {
    hide RecordGeneration, ValidRecord, ValidRuntimeState, BindGeneration;
    TakenValid(r);
    assert CommitTarget(NARROW_INSPECTED) == Some(AtSymbol(NARROW_NEW));
  }

  lemma TransitionBindingsMean(r: Record)
    requires r.transition.Some? && (r.transition.value.direction == Widening ==> r.grants != [])
    ensures IsNarrowing(r) ==>
              TransitionBindings(r)[NARROW_OLD].generation == RecordGeneration(r)
              && TransitionBindings(r)[NARROW_NEW].generation == CandidateGeneration(r)
    ensures !IsNarrowing(r) ==> TransitionBindings(r)[WIDEN_NEW].generation == RecordGeneration(r)
  {}

  // ---------------------------------------------------------------------------------------------
  // Fail closed

  /** The symbolic durable generation of a running record, as the adapter binds it. */
  predicate BindsDurable(a: Adapter, s: P.State, base: Record) {
    && a.original == base && P.InDomain(MODEL, s)
    && P.DurableGen(s) in a.bindings
    && a.bindings[P.DurableGen(s)].grants == base.grants && a.bindings[P.DurableGen(s)].revision == base.revision
    && (s.recorded.Gen? ==> s.recorded in a.bindings)
  }

  lemma BaseBinding(base: Record)
    requires ValidRecord(base)
    ensures var binding := Binding(base.grants, base.revision, RecordGeneration(base), base.applied);
            BindGeneration(Adapter(base, P.INITIAL, map[]), BASE_SYMBOL, base, true)
            == Some(Adapter(base, P.INITIAL, map[BASE_SYMBOL := binding]))
  {
    ValidAuthorityBuilds(base);
  }

  lemma MappedBinds(a: Adapter, s: P.State, base: Record)
    requires ValidRecord(base) && a.original == base && base.transition.Some? && s.runtime == {}
    ensures BindsDurable(MapTransition(a, s).0, MapTransition(a, s).1, base)
    ensures MapTransition(a, s).1.direction != P.NoDirection
    ensures MapTransition(a, s).1.runtime == {} && MapTransition(a, s).1.health == s.health
    ensures MapTransition(a, s).0.baseline == a.baseline
  {
    hide MapTransition, ValidRecord, RecordGeneration, P.Reduce;
    MappedTransition(a, s);
    assert {GRANT_A} <= {GRANT_A, GRANT_B};
  }

  /** The adapter of a running record is its base binding, mapped when a transition is persisted. */
  lemma NewAdapterShape(base: Record)
    requires ValidRecord(base) && base.status == Running
    ensures var binding := Binding(base.grants, base.revision, RecordGeneration(base), base.applied);
            var a := Adapter(base, P.INITIAL, map[BASE_SYMBOL := binding]);
            var running := RunningBase(P.INITIAL).(result := P.Success);
            var (m, s) := if base.transition.Some? && base.ownerVerified then MapTransition(a, running)
                          else (a, if base.ownerVerified then running else Stale(running));
            NewAdapter(base) == m.(baseline := if base.uncertain
                                               then s.(health := P.Uncertain, mode := P.Blocked, operation := P.Recover,
                                                       effect := P.NoEffect, result := P.UncertainResult)
                                               else s)
  {
    BaseBinding(base);
    assert ValidRuntimeState(base);
    hide MapTransition, BindGeneration, RecordGeneration, ValidRuntimeState, ValidRecord;
  }

  lemma NewAdapterBinds(base: Record)
    requires ValidRecord(base) && base.status == Running
    ensures BindsDurable(NewAdapter(base), NewAdapter(base).baseline, base)
    ensures NewAdapter(base).baseline.health != P.Corrupt && NewAdapter(base).baseline.runtime == {}
  {
    hide MapTransition, NewAdapter, RecordGeneration, ValidRecord;
    NewAdapterShape(base);
    var a := Adapter(base, P.INITIAL, map[BASE_SYMBOL := Binding(base.grants, base.revision, RecordGeneration(base), base.applied)]);
    if base.transition.Some? {
      MappedBinds(a, RunningBase(P.INITIAL).(result := P.Success), base);
    }
  }

  /** The blocked state that failing closed starts from exists and keeps the record's authority bound. */
  lemma BlockedStateAccepted(base: Record)
    requires ValidRecord(base) && base.status == Running
    ensures BlockedTeardownState(NewAdapter(base)).Some?
    ensures var (a, s) := BlockedTeardownState(NewAdapter(base)).value;
            && BindsDurable(a, s, base) && s.status == P.Running && s.mode == P.Blocked && s.effect == P.NoEffect
  {
    assert ValidRuntimeState(base);
    hide MapTransition, NewAdapter, RecordGeneration, ValidRuntimeState, ValidRecord;
    NewAdapterBinds(base);
    var a := NewAdapter(base);
    BlockedBinds(a, a.baseline, base);
    if base.transition.Some? {
      MappedBinds(a, a.baseline, base);
      BlockedBinds(MapTransition(a, a.baseline).0, MapTransition(a, a.baseline).1, base);
    }
    hide BindsDurable;
  }

  lemma BlockedBinds(a: Adapter, s: P.State, base: Record)
    requires BindsDurable(a, s, base)
    ensures BindsDurable(a, RunningBase(s).(health := P.Stale, mode := P.Blocked, operation := P.Recover,
                                            effect := P.NoEffect, result := P.Failure), base)
  {
  }

  function Requested(s: P.State): P.State {
    s.(operation := P.Teardown, effect := P.TeardownEffect, result := P.Pending)
  }

  function TeardownFailedState(s: P.State): P.State {
    Requested(s).(health := P.Uncertain, mode := P.Blocked, result := P.UncertainResult)
  }

  function TerminalState(s: P.State): P.State {
    s.(status := P.Stopped, owners := {}, detached := false, runtime := {}, runtimeGen := P.NoGen, inspected := P.NoGen,
       health := P.Healthy, mode := P.Terminal, operation := P.Idle, effect := P.NoEffect, result := P.Failure,
       pending := {}, pendingRevision := 0, direction := P.NoDirection)
  }

  lemma TeardownEdges(s: P.State)
    requires P.InDomain(MODEL, s) && s.mode == P.Blocked && s.effect == P.NoEffect
    ensures Reduce(s, P.RequestTeardown, P.Unreported) == Some(Requested(s))
    ensures Reduce(Requested(s), P.TeardownAction, P.TeardownUnknown) == Some(TeardownFailedState(s))
    ensures Reduce(Requested(s), P.TeardownAction, P.TeardownProven) == Some(TerminalState(s))
  {}

  lemma BlockedProjected(a: Adapter, s: P.State, base: Record)
    requires a.original == base && s.status == P.Running
    ensures TeardownUnknownCandidate(a, TeardownFailedState(s)) == Some(BlockedRecord(base))
  {}

  lemma TerminalProjected(a: Adapter, s: P.State, base: Record)
    requires ValidRecord(base) && BindsDurable(a, s, base)
    ensures TerminalCandidate(a, TerminalState(s)) == Some(StoppedRecord(base, None).(uncertain := base.uncertain))
  {
    MarksValid(base, None);
    assert ValidRuntimeState(StoppedRecord(base, None).(uncertain := base.uncertain));
    hide ValidRuntimeState, RecordGeneration, ValidAuthority;
    assert P.DurableGen(TerminalState(s)) == P.DurableGen(s);
  }

  /** A proven teardown projects to the stopped record, with the restored authority when one is given. */
  lemma StoppedProjected(a: Adapter, s: P.State, base: Record, restore: Option<Record>)
    requires ValidRecord(base) && BindsDurable(a, s, base)
    requires restore.Some? ==> ValidRecord(restore.value) && restore.value.persistent == base.persistent
                               && restore.value.grantable == base.grantable
    ensures TeardownProvenCandidate(a, TerminalState(s), restore) == Some(StoppedRecord(base, restore))
  {
    TerminalProjected(a, s, base);
    MarksValid(base, restore);
    hide RecordGeneration, TerminalCandidate, BindsDurable, CanonicalGeneration, ValidGrantList, Grantable;
    var terminal := StoppedRecord(base, None).(uncertain := base.uncertain);
    if restore.Some? {
      var candidate := terminal.(grants := restore.value.grants, revision := restore.value.revision);
      assert candidate.(uncertain := true) == StoppedRecord(base, restore);
      MarkedValid(candidate);
    }
    hide ValidRuntimeState, ValidAuthority;
  }

  lemma MarkedValid(r: Record)
    requires ValidRecord(r.(uncertain := true)) && r.status != Created
    ensures ValidRuntimeState(r) && ValidAuthority(r)
  {
    hide CanonicalGeneration, ValidGrantList, Grantable;
  }
}
