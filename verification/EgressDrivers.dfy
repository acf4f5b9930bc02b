/** The egress drivers in the shape of the source: they consult the symbolic reducer, take their
    candidates from the adapter and issue one effect after the other
    (internal/cli/session_protocol.go, internal/cli/session.go).

    Each driver is proved to follow the step relation of module EgressMachine exactly, so everything
    proved about runs holds of this code. The source's refusal branches ("... is invalid") are dead:
    every reducer edge is accepted and every projection exists, which the assertions below state. */
module EgressDrivers {
  import opened Wrappers
  import P = ProtocolReducer
  import opened ExactEgress
  import opened SessionRecord
  import M = EgressMachine
  import opened EgressSafety
  import opened EgressTheorems
  import opened EgressEffects
  import opened ProtocolAdapter
  import opened AdapterLemmas

  ghost predicate Took(before: M.State, reply: M.Reply, after: M.State) {
    && M.Perform(M.Request(before.driver), before.world, reply, after.world)
    && after.driver == M.Resume(before.driver, reply)
  }

  /** The steps taken so far lead from the origin to the current state. */
  ghost predicate Logged(origin: M.State, history: seq<M.State>, state: M.State) {
    |history| > 0 && history[0] == origin && history[|history| - 1] == state && IsOperation(history)
  }

  /** The locked record transaction together with the runtime effects of one session. */
  class Transaction {
    var current: Record
    var proxy: M.Runtime
    ghost var state: M.State
    ghost var history: seq<M.State>
    ghost const origin: M.State
    ghost const base: Record

    ghost predicate Valid()
      reads this
    {
      && Logged(origin, history, state)
      && proxy == state.world.runtime && Inv(state, base) && Inv(origin, base)
    }

    constructor (r: Record, runtime: M.Runtime, ghost driver: M.Driver, ghost world: M.World, ghost session: Record)
      requires world.runtime == runtime
      requires Inv(M.State(world, driver), session)
      ensures Valid() && current == r && base == session
      ensures state == M.State(world, driver) && origin == state
    {
      current := r;
      proxy := runtime;
      state := M.State(world, driver);
      history := [M.State(world, driver)];
      origin := M.State(world, driver);
      base := session;
    }

    /** One effect, its reply, and the driver's continuation become one step of the history. */
    ghost method Log(reply: M.Reply, world: M.World)
      requires Logged(origin, history, state) && Inv(state, base) && Inv(origin, base)
      requires M.Perform(M.Request(state.driver), state.world, reply, world) && proxy == world.runtime
      modifies this`state, this`history
      ensures Valid() && Took(old(state), reply, state)
      ensures state.world == world && history == old(history) + [state]
    {
      hide Inv, M.Perform, M.Resume;
      EffectKeepsInv(state, reply, world, base);
      var next := M.State(world, M.Resume(state.driver, reply));
      assert M.EffectStep(state, next);
      history := history + [next];
      state := next;
    }

    /** tx.Commit: known new, uncertain, or known old. */
    method Commit(candidate: Record) returns (reply: M.Reply)
      requires Valid() && M.Request(state.driver) == M.Commit(current, candidate)
      modifies this
      ensures Valid() && Took(old(state), reply, state)
      ensures reply.CommitOk? || reply.CommitUncertain? || reply.CommitFailed?
      ensures current == if reply.CommitOk? then M.Stored(candidate) else old(current)
    {
      CandidateAcceptable(state, base);
      hide Inv, ValidRecord;
      var stored := M.Stored(candidate);
      var outcome: nat := *;
      if outcome == 0 {
        reply := M.CommitOk;
        Log(reply, state.world.(possible := {stored}));
        current := stored;
      } else if outcome == 1 {
        reply := M.CommitUncertain;
        Log(reply, state.world.(possible := state.world.possible + {stored}));
      } else {
        reply := M.CommitFailed;
        Log(reply, state.world);
      }
    }

    /** d.beginEgressOverlayApply: the proxy may or may not have moved, whatever is reported. */
    method BeginApply(target: Record) returns (reply: M.Reply)
      requires Valid() && M.Request(state.driver) == M.BeginApply(target)
      modifies this
      ensures Valid() && Took(old(state), reply, state)
      ensures reply.ApplyOk? || reply.ApplyFailed?
      ensures current == old(current)
    {
      hide Inv, RecordGeneration;
      var moved: bool, ok: bool := *, *;
      reply := if ok then M.ApplyOk else M.ApplyFailed;
      if moved {
        proxy := M.Serving(RecordGeneration(target));
      }
      Log(reply, state.world.(runtime := proxy, evidence := M.Unproven));
    }

    /** application.Inspect and d.inspectEgress: no answer, or the generation really enforced. */
    method Inspect() returns (reply: M.Reply)
      requires Valid() && (M.Request(state.driver) == M.InspectApplied || M.Request(state.driver) == M.InspectNow)
      modifies this
      ensures Valid() && Took(old(state), reply, state)
      ensures reply.Observed? || reply.NotObserved?
      ensures current == old(current)
    {
      hide Inv;
      var answered: bool := *;
      if answered && proxy.Serving? {
        reply := M.Observed(proxy.gen);
        Log(reply, state.world.(evidence := M.Seen(proxy.gen)));
      } else {
        reply := M.NotObserved;
        Log(reply, state.world.(evidence := M.Unproven));
      }
    }

    /** d.applyEgressOverlay: success is an acknowledged generation, failure proves nothing. */
    method ApplyAndInspect(target: Record) returns (reply: M.Reply)
      requires Valid() && M.Request(state.driver) == M.ApplyAndInspect(target)
      modifies this
      ensures Valid() && Took(old(state), reply, state)
      ensures reply.ApplyOk? || reply.ApplyFailed?
      ensures current == old(current)
    {
      hide Inv, RecordGeneration;
      var moved: bool, ok: bool := *, *;
      var wanted := RecordGeneration(target);
      if moved || ok {
        proxy := M.Serving(wanted);
      }
      reply := if ok then M.ApplyOk else M.ApplyFailed;
      Log(reply, state.world.(runtime := proxy, evidence := if ok then M.Seen(wanted) else M.Unproven));
    }

    /** d.teardownEgress: success proves absence, failure proves nothing. */
    method Teardown() returns (reply: M.Reply)
      requires Valid() && M.Request(state.driver) == M.Teardown
      modifies this
      ensures Valid() && Took(old(state), reply, state)
      ensures reply.TeardownOk? || reply.TeardownFailed?
      ensures current == old(current)
    {
      hide Inv;
      var gone: bool, ok: bool := *, *;
      if gone || ok {
        proxy := M.Absent;
      }
      reply := if ok then M.TeardownOk else M.TeardownFailed;
      Log(reply, state.world.(runtime := proxy, evidence := if ok then M.ProvenAbsent else M.Unproven));
    }
  }

  /** commitEgressFailureState: a bounded retry, the outcome ignored by the caller. */
  method CommitFailureState(tx: Transaction, mark: Record)
    requires tx.Valid() && tx.state.driver == M.FailMark(tx.current, mark, M.FAILURE_COMMIT_ATTEMPTS)
    modifies tx
    ensures tx.Valid() && tx.state.driver == M.Done(false, tx.current)
  {
    hide Inv, Logged, M.Perform;
    for i := 0 to M.FAILURE_COMMIT_ATTEMPTS
      invariant tx.Valid()
      invariant tx.state.driver == if i < M.FAILURE_COMMIT_ATTEMPTS
                                   then M.FailMark(tx.current, mark, M.FAILURE_COMMIT_ATTEMPTS - i)
                                   else M.Done(false, tx.current)
    {
      var reply := tx.Commit(mark);
      if reply.CommitOk? {
        return;
      }
    }
  }

  lemma FailTeardownFacts(s: M.State, base: Record)
    requires Inv(s, base) && s.driver.FailTeardown?
    ensures ValidRecord(s.driver.base) && s.driver.base.status == Running
    ensures s.driver.restore.Some? ==> ValidRecord(s.driver.restore.value)
                                       && s.driver.restore.value.persistent == s.driver.base.persistent
                                       && s.driver.restore.value.grantable == s.driver.base.grantable
  {
    hide ValidRecord;
  }

  lemma FailPath(tx: Record, base: Record, restore: Option<Record>)
    ensures M.Request(M.FailTeardown(tx, base, restore)) == M.Teardown
    ensures M.Resume(M.FailTeardown(tx, base, restore), M.TeardownOk)
            == M.FailMark(tx, M.StoppedRecord(base, restore), M.FAILURE_COMMIT_ATTEMPTS)
    ensures M.Resume(M.FailTeardown(tx, base, restore), M.TeardownFailed)
            == M.FailMark(tx, M.BlockedRecord(base), M.FAILURE_COMMIT_ATTEMPTS)
  {}

  /** failClosedEgressWithUpperBound: tear down before narrowing durable authority. */
  method FailClosed(tx: Transaction, restore: Option<Record>, upperBound: Option<Record>)
    requires tx.Valid()
    requires tx.state.driver == M.FailTeardown(tx.current, if upperBound.Some? then upperBound.value else tx.current, restore)
    modifies tx
    ensures tx.Valid() && tx.state.driver == M.Done(false, tx.current)
  {
    FailTeardownFacts(tx.state, tx.base);
    FailPath(tx.current, tx.state.driver.base, restore);
    hide M.Request, M.Resume, Requested, TeardownFailedState, TerminalState, M.StoppedRecord, M.BlockedRecord;
    hide Inv, Logged, M.Perform, ValidRecord, BindsDurable, NewAdapter, Reduce, BlockedTeardownState,
         TeardownUnknownCandidate, TeardownProvenCandidate;
    var current := tx.current;
    if upperBound.Some? {
      current := upperBound.value;
    }
    BlockedStateAccepted(current);
    var blocked := BlockedTeardownState(NewAdapter(current));
    assert blocked.Some?;
    var (adapter, s) := blocked.value;
    BlockedEdges(adapter, s, current, restore);
    var requested := Reduce(s, P.RequestTeardown, P.Unreported);
    assert requested.Some? && requested.value.effect == P.TeardownEffect;
    var torn := tx.Teardown();
    if torn.TeardownFailed? {
      var unknown := Reduce(requested.value, P.TeardownAction, P.TeardownUnknown);
      assert unknown.Some?;
      var mark := TeardownUnknownCandidate(adapter, unknown.value);
      assert mark.Some?;
      CommitFailureState(tx, mark.value);
    } else {
      var terminal := Reduce(requested.value, P.TeardownAction, P.TeardownProven);
      assert terminal.Some?;
      var mark := TeardownProvenCandidate(adapter, terminal.value, restore);
      assert mark.Some?;
      CommitFailureState(tx, mark.value);
    }
  }

  lemma BlockedEdges(a: Adapter, s: P.State, base: Record, restore: Option<Record>)
    requires ValidRecord(base) && BindsDurable(a, s, base)
    requires s.status == P.Running && s.mode == P.Blocked && s.effect == P.NoEffect
    requires restore.Some? ==> ValidRecord(restore.value) && restore.value.persistent == base.persistent
                               && restore.value.grantable == base.grantable
    ensures Reduce(s, P.RequestTeardown, P.Unreported) == Some(Requested(s))
    ensures Reduce(Requested(s), P.TeardownAction, P.TeardownUnknown) == Some(TeardownFailedState(s))
    ensures Reduce(Requested(s), P.TeardownAction, P.TeardownProven) == Some(TerminalState(s))
    ensures TeardownUnknownCandidate(a, TeardownFailedState(s)) == Some(M.BlockedRecord(base))
    ensures TeardownProvenCandidate(a, TerminalState(s), restore) == Some(M.StoppedRecord(base, restore))
  {
    assert P.InDomain(MODEL, s) && a.original == base;
    TeardownEdges(s);
    BlockedProjected(a, s, base);
    StoppedProjected(a, s, base, restore);
  }

  // ---------------------------------------------------------------------------------------------

  /** What an appended destination must satisfy for the widen driver. */
  predicate Grants(cur: Record, next: Record) {
    Stable(cur) && cur.grantable && Appends(cur, next) && Grantable(next.grants[|next.grants| - 1].dest)
  }

  lemma WidenBindings(cur: Record, next: Record)
    requires Grants(cur, next)
    ensures RebaseGeneration(NewAdapter(cur), BASE_SYMBOL)
            == Some((Adapter(cur, AtSymbol(BASE_SYMBOL), map[BASE_SYMBOL := BindingOf(cur)]), AtSymbol(BASE_SYMBOL)))
    ensures BindGeneration(Adapter(cur, AtSymbol(BASE_SYMBOL), map[BASE_SYMBOL := BindingOf(cur)]), WIDEN_NEW, next, false)
            == Some(WidenAdapter(cur, next))
    ensures forall g :: GenerationEqual(WidenAdapter(cur, next), WIDEN_NEW, g) <==> g == RecordGeneration(next)
  {
    RebaseAccepted(cur, BASE_SYMBOL);
    DedupKeepsSet(next.persistent + Dests(next.grants));
    forall d | d in Effective(next.persistent, next.grants)
      ensures Grantable(d)
    {
    }
    BindAccepted(cur, BASE_SYMBOL, WIDEN_NEW, next);
  }

  lemma WidenCommitPath(cur: Record, next: Record)
    ensures M.Request(M.WidenCommit(cur, next)) == M.Commit(cur, M.WidenIntent(cur, next))
    ensures M.Resume(M.WidenCommit(cur, next), M.CommitOk)
            == M.WidenApply(M.Stored(M.WidenIntent(cur, next)), cur, next)
    ensures M.Resume(M.WidenCommit(cur, next), M.CommitUncertain)
            == M.FailTeardown(cur, M.WidenIntent(cur, next), Some(cur))
    ensures M.Resume(M.WidenCommit(cur, next), M.CommitFailed) == M.Done(false, cur)
  {
    hide M.WidenIntent;
  }

  lemma WidenRunPath(tx: Record, cur: Record, next: Record, reply: M.Reply)
    ensures M.Request(M.WidenApply(tx, cur, next)) == M.BeginApply(next)
    ensures M.Request(M.WidenConfirm(tx, cur, next)) == M.InspectApplied
    ensures M.Resume(M.WidenApply(tx, cur, next), reply)
            == if reply == M.ApplyOk then M.WidenConfirm(tx, cur, next) else M.FailTeardown(tx, tx, Some(cur))
    ensures M.Resume(M.WidenConfirm(tx, cur, next), reply)
            == if reply == M.Observed(RecordGeneration(next)) then M.WidenFinal(tx, cur, next)
               else M.FailTeardown(tx, tx, Some(cur))
  {
    hide RecordGeneration;
  }

  lemma WidenFinalPath(tx: Record, cur: Record, next: Record)
    ensures M.Request(M.WidenFinal(tx, cur, next)) == M.Commit(tx, M.Acknowledged(tx))
    ensures M.Resume(M.WidenFinal(tx, cur, next), M.CommitOk) == M.Done(true, M.Stored(M.Acknowledged(tx)))
    ensures M.Resume(M.WidenFinal(tx, cur, next), M.CommitUncertain) == M.FailTeardown(tx, tx, Some(cur))
    ensures M.Resume(M.WidenFinal(tx, cur, next), M.CommitFailed) == M.FailTeardown(tx, tx, Some(cur))
  {
    hide M.Acknowledged;
  }

  /** The final commit of a widen; anything but a known success fails closed. */
  method FinishWiden(tx: Transaction, s: P.State, final: Record, cur: Record, ghost next: Record) returns (ok: bool)
    requires tx.Valid() && tx.state.driver == M.WidenFinal(tx.current, cur, next)
    requires s == WIDEN_INSPECTED && final == M.Acknowledged(tx.current)
    modifies tx
    ensures tx.Valid() && tx.state.driver == M.Done(ok, tx.current)
    ensures ok ==> tx.current == M.Stored(M.Acknowledged(old(tx.current)))
  {
    WidenEdges();
    WidenFinalPath(tx.current, cur, next);
    hide Inv, Logged, M.Perform, Reduce, UnknownCommitBlocked, M.Request, M.Resume, M.Acknowledged, M.Stored;
    var reply := tx.Commit(final);
    if reply.CommitOk? {
      var done := Reduce(s, P.WidenFinalCommit, P.KnownNew);
      assert done.Some? && done.value.effect == P.NoEffect && done.value.result == P.Success;
      return true;
    } else if reply.CommitUncertain? {
      assert UnknownCommitBlocked(s, P.WidenFinalCommit);
    } else {
      var knownOld := Reduce(s, P.WidenFinalCommit, P.KnownOld);
      assert knownOld.Some? && knownOld.value.health == P.Uncertain && knownOld.value.mode == P.Blocked;
    }
    FailClosed(tx, Some(cur), None);
    return false;
  }

  /** runRunningSessionWidenProtocol */
  method RunWiden(tx: Transaction, cur: Record, next: Record) returns (ok: bool)
    requires tx.Valid() && tx.current == cur && Grants(cur, next)
    requires tx.state.driver == if ValidRuntimeState(M.WidenIntent(cur, next)) then M.WidenCommit(cur, next)
                                else M.Done(false, cur)
    modifies tx
    ensures tx.Valid() && tx.state.driver == M.Done(ok, tx.current)
    ensures ok ==> tx.current == M.Stored(M.Acknowledged(M.Stored(M.WidenIntent(cur, next))))
  {
    WidenBindings(cur, next);
    WidenCommitPath(cur, next);
    WidenEdges();
    WidenIntentProjected(cur, next);
    if ValidRuntimeState(M.WidenIntent(cur, next)) {
      WidenIntentValid(cur, next);
      WidenFinalProjected(cur, next);
    }
    hide Inv, Logged, M.Perform, ValidRecord, ValidRuntimeState, RecordGeneration, NewAdapter, RebaseGeneration,
         BindGeneration, Reduce, StartTransition, EffectCandidate, EffectCandidateFrom, GenerationEqual, Stable, Grants,
         UnknownCommitBlocked, M.Request, M.Resume, M.WidenIntent, M.Acknowledged, M.Stored;
    var rebased := RebaseGeneration(NewAdapter(cur), BASE_SYMBOL);
    assert rebased.Some?;
    var (framed, s) := rebased.value;
    var bound := BindGeneration(framed, WIDEN_NEW, next, false);
    assert bound.Some?;
    var adapter := bound.value;
    var started := StartTransition(s, P.WidenStart);
    assert started.Some? && started.value.effect == P.Commit;
    s := started.value;
    var pending := EffectCandidate(adapter, s);
    if pending.None? {
      return false;
    }
    var reply := tx.Commit(pending.value);
    if reply.CommitUncertain? {
      assert UnknownCommitBlocked(s, P.WidenCommit);
      FailClosed(tx, Some(cur), pending);
      return false;
    } else if reply.CommitFailed? {
      assert Reduce(s, P.WidenCommit, P.KnownOld).Some?;
      return false;
    }
    var durable := Reduce(s, P.WidenCommit, P.KnownNew);
    assert durable.Some? && durable.value.effect == P.Apply;
    s := durable.value;
    WidenRunPath(tx.current, cur, next, M.ApplyOk);
    var begun := tx.BeginApply(next);
    WidenRunPath(tx.current, cur, next, begun);
    if !begun.ApplyOk? {
      FailClosed(tx, Some(cur), None);
      return false;
    }
    var applied := Reduce(s, P.ApplyAction, P.Succeeded);
    assert applied.Some? && applied.value.effect == P.Inspect;
    s := applied.value;
    var inspected := tx.Inspect();
    WidenRunPath(tx.current, cur, next, inspected);
    if !inspected.Observed? || !GenerationEqual(adapter, WIDEN_NEW, inspected.gen) {
      FailClosed(tx, Some(cur), None);
      return false;
    }
    var matched := Reduce(s, P.InspectAction, P.Matched);
    assert matched.Some? && matched.value.effect == P.Commit;
    s := matched.value;
    var final := EffectCandidateFrom(adapter, s, tx.current);
    assert final.Some?;
    ok := FinishWiden(tx, s, final.value, cur, next);
    return ok;
  }

  // ---------------------------------------------------------------------------------------------

  predicate Revokes(cur: Record, next: Record) {
    Stable(cur) && cur.grantable && Cuts(cur, next) && ValidGrantList(next.grants)
  }

  lemma NarrowBindings(cur: Record, next: Record)
    requires Revokes(cur, next)
    ensures RebaseGeneration(NewAdapter(cur), NARROW_OLD)
            == Some((Adapter(cur, AtSymbol(NARROW_OLD), map[NARROW_OLD := BindingOf(cur)]), AtSymbol(NARROW_OLD)))
    ensures BindGeneration(Adapter(cur, AtSymbol(NARROW_OLD), map[NARROW_OLD := BindingOf(cur)]), NARROW_NEW, next, false)
            == Some(NarrowAdapter(cur, next))
    ensures forall g :: GenerationEqual(NarrowAdapter(cur, next), NARROW_NEW, g) <==> g == RecordGeneration(next)
  {
    RebaseAccepted(cur, NARROW_OLD);
    NarrowerIsSubset(cur.grants, next.grants, false);
    assert ValidAuthority(next);
    ValidAuthorityBuilds(next);
    BindAccepted(cur, NARROW_OLD, NARROW_NEW, next);
  }

  lemma NarrowCommitPath(cur: Record, next: Record)
    ensures M.Request(M.NarrowCommit(cur, next)) == M.Commit(cur, M.NarrowIntent(cur, next))
    ensures M.Resume(M.NarrowCommit(cur, next), M.CommitOk)
            == M.NarrowApply(M.Stored(M.NarrowIntent(cur, next)), cur, next)
    ensures M.Resume(M.NarrowCommit(cur, next), M.CommitUncertain)
            == M.FailTeardown(cur, M.NarrowIntent(cur, next), Some(cur))
    ensures M.Resume(M.NarrowCommit(cur, next), M.CommitFailed) == M.Done(false, cur)
  {
    hide M.NarrowIntent;
  }

  lemma NarrowRunPath(tx: Record, cur: Record, next: Record, reply: M.Reply)
    ensures M.Request(M.NarrowApply(tx, cur, next)) == M.BeginApply(next)
    ensures M.Request(M.NarrowConfirm(tx, cur, next)) == M.InspectApplied
    ensures M.Resume(M.NarrowApply(tx, cur, next), reply)
            == if reply == M.ApplyOk then M.NarrowConfirm(tx, cur, next) else M.RestoreApply(tx, cur)
    ensures M.Resume(M.NarrowConfirm(tx, cur, next), reply)
            == if reply == M.Observed(RecordGeneration(next)) then M.NarrowFinal(tx, cur, next) else M.RestoreApply(tx, cur)
  {
    hide RecordGeneration;
  }

  lemma NarrowFinalPath(tx: Record, cur: Record, next: Record)
    requires tx.transition.Some?
    ensures M.Request(M.NarrowFinal(tx, cur, next)) == M.Commit(tx, M.TakeCandidate(tx))
    ensures M.Resume(M.NarrowFinal(tx, cur, next), M.CommitOk) == M.Done(true, M.Stored(M.TakeCandidate(tx)))
    ensures M.Resume(M.NarrowFinal(tx, cur, next), M.CommitUncertain) == M.FailTeardown(tx, tx, None)
    ensures M.Resume(M.NarrowFinal(tx, cur, next), M.CommitFailed) == M.UndoApply(tx, cur)
  {
    hide M.TakeCandidate;
  }

  lemma RevertPath(tx: Record, cur: Record, reply: M.Reply)
    ensures M.Request(M.RestoreApply(tx, cur)) == M.Request(M.UndoApply(tx, cur)) == M.ApplyAndInspect(cur)
    ensures M.Request(M.RestoreCommit(tx, cur)) == M.Request(M.UndoCommit(tx, cur)) == M.Commit(tx, M.Restored(tx, cur))
    ensures M.Resume(M.RestoreApply(tx, cur), reply)
            == if reply == M.ApplyOk then M.RestoreCommit(tx, cur) else M.FailTeardown(tx, tx, Some(cur))
    ensures M.Resume(M.UndoApply(tx, cur), reply)
            == if reply == M.ApplyOk then M.UndoCommit(tx, cur) else M.FailTeardown(tx, tx, Some(cur))
    ensures M.Resume(M.RestoreCommit(tx, cur), reply)
            == if reply == M.CommitUncertain then M.FailTeardown(tx, tx, Some(cur))
               else M.Done(false, if reply == M.CommitOk then M.Stored(M.Restored(tx, cur)) else tx)
    ensures M.Resume(M.UndoCommit(tx, cur), reply)
            == M.Done(false, if reply == M.CommitOk then M.Stored(M.Restored(tx, cur)) else tx)
  {
    hide M.Restored, M.Stored;
  }

  /** restoreNarrowAfterApplyFailure */
  method RestoreNarrow(tx: Transaction, adapter: Adapter, baseState: P.State, cur: Record, ghost next: Record)
    requires tx.Valid() && tx.state.driver == M.RestoreApply(tx.current, cur)
    requires Narrows(tx.current, cur, next)
    requires adapter == NarrowAdapter(cur, next) && baseState == AtSymbol(NARROW_OLD)
    modifies tx
    ensures tx.Valid() && tx.state.driver == M.Done(false, tx.current)
  {
    RestoredProjected(tx.current, cur, next, P.Success);
    RevertPath(tx.current, cur, M.ApplyOk);
    hide Inv, Logged, M.Perform, M.Request, M.Resume, CandidateFrom, Narrows, NarrowAdapter, M.Restored;
    assert AtSymbol(NARROW_OLD).(result := P.Success) == AtSymbol(NARROW_OLD);
    var restored := tx.ApplyAndInspect(cur);
    RevertPath(tx.current, cur, restored);
    if restored.ApplyFailed? {
      FailClosed(tx, Some(cur), None);
      return;
    }
    var candidate := CandidateFrom(adapter, baseState, tx.current);
    assert candidate.Some?;
    ghost var framed := tx.current;
    var cleared := tx.Commit(candidate.value);
    RevertPath(framed, cur, cleared);
    if cleared.CommitUncertain? {
      FailClosed(tx, Some(cur), None);
    }
  }

  /** The record a completed narrow leaves. */
  function NarrowedRecord(cur: Record, next: Record): Record {
    M.Stored(M.TakeCandidate(M.Stored(M.NarrowIntent(cur, next))))
  }

  lemma NarrowFacts(cur: Record, next: Record)
    requires Revokes(cur, next)
    ensures ValidRuntimeState(M.NarrowIntent(cur, next))
    ensures Narrows(M.Stored(M.NarrowIntent(cur, next)), cur, next)
    ensures M.Stored(M.NarrowIntent(cur, next)).transition.Some?
  {
    hide IsOneGrantNarrower, RecordGeneration;
    NarrowIntentValid(cur, next);
  }

  /** The final commit of a narrow, and the cleanup when it is known to have failed. */
  method FinishNarrow(tx: Transaction, adapter: Adapter, s: P.State, final: Record, cur: Record, ghost next: Record)
    returns (ok: bool)
    requires tx.Valid() && Narrows(tx.current, cur, next) && tx.state.driver == M.NarrowFinal(tx.current, cur, next)
    requires adapter == NarrowAdapter(cur, next) && s == NARROW_INSPECTED
    requires tx.current.transition.Some? && final == M.TakeCandidate(tx.current)
    modifies tx
    ensures tx.Valid() && tx.state.driver == M.Done(ok, tx.current)
    ensures ok ==> tx.current == M.Stored(M.TakeCandidate(old(tx.current)))
  {
    NarrowEdges();
    NarrowFinalPath(tx.current, cur, next);
    RestoredProjected(tx.current, cur, next, P.Failure);
    hide Inv, Logged, M.Perform, Reduce, CandidateFrom, Narrows, NarrowAdapter, UnknownCommitBlocked,
         M.Request, M.Resume, M.TakeCandidate, M.Restored, M.Stored;
    var reply := tx.Commit(final);
    if reply.CommitOk? {
      var done := Reduce(s, P.NarrowFinalCommit, P.KnownNew);
      assert done.Some? && done.value.effect == P.NoEffect && done.value.result == P.Success;
      return true;
    } else if reply.CommitUncertain? {
      // The narrower record may already be durable: never restore the wider runtime.
      assert UnknownCommitBlocked(s, P.NarrowFinalCommit);
      FailClosed(tx, None, None);
      return false;
    }
    var knownOld := Reduce(s, P.NarrowFinalCommit, P.KnownOld);
    assert knownOld.Some? && knownOld.value.result == P.Failure;
    RevertPath(tx.current, cur, M.ApplyOk);
    var restored := tx.ApplyAndInspect(cur);
    RevertPath(tx.current, cur, restored);
    if restored.ApplyFailed? {
      FailClosed(tx, Some(cur), None);
      return false;
    }
    var cleanup := CandidateFrom(adapter, knownOld.value, tx.current);
    assert cleanup.Some?;
    ghost var marked := tx.current;
    reply := tx.Commit(cleanup.value);
    RevertPath(marked, cur, reply);
    return false;
  }

  /** runRunningSessionNarrowProtocol */
  method RunNarrow(tx: Transaction, cur: Record, next: Record) returns (ok: bool)
    requires tx.Valid() && tx.current == cur && Revokes(cur, next)
    requires tx.state.driver == M.NarrowCommit(cur, next)
    modifies tx
    ensures tx.Valid() && tx.state.driver == M.Done(ok, tx.current)
    ensures ok ==> tx.current == NarrowedRecord(cur, next)
  {
    NarrowFacts(cur, next);
    NarrowBindings(cur, next);
    NarrowCommitPath(cur, next);
    NarrowEdges();
    NarrowIntentProjected(cur, next);
    NarrowFinalProjected(M.Stored(M.NarrowIntent(cur, next)), cur, next);
    hide Inv, Logged, M.Perform, ValidRecord, ValidRuntimeState, RecordGeneration, NewAdapter, RebaseGeneration,
         BindGeneration, Reduce, StartTransition, Candidate, EffectCandidateFrom, CandidateFrom, GenerationEqual, Revokes,
         Narrows, UnknownCommitBlocked, M.Request, M.Resume, M.NarrowIntent, M.TakeCandidate, M.Restored, M.Stored;
    var rebased := RebaseGeneration(NewAdapter(cur), NARROW_OLD);
    assert rebased.Some?;
    var (framed, baseState) := rebased.value;
    var bound := BindGeneration(framed, NARROW_NEW, next, false);
    assert bound.Some?;
    var adapter := bound.value;
    var started := StartTransition(baseState, P.NarrowStart);
    assert started.Some? && started.value.effect == P.Apply;
    var s := started.value;
    var intent := Candidate(adapter, s);
    assert intent.Some?;
    var reply := tx.Commit(intent.value);
    if reply.CommitUncertain? {
      FailClosed(tx, Some(cur), intent);
      return false;
    } else if reply.CommitFailed? {
      return false;
    }
    NarrowRunPath(tx.current, cur, next, M.ApplyOk);
    var begun := tx.BeginApply(next);
    NarrowRunPath(tx.current, cur, next, begun);
    if !begun.ApplyOk? {
      RestoreNarrow(tx, adapter, baseState, cur, next);
      return false;
    }
    var applied := Reduce(s, P.ApplyAction, P.Succeeded);
    assert applied.Some? && applied.value.effect == P.Inspect;
    s := applied.value;
    var inspected := tx.Inspect();
    NarrowRunPath(tx.current, cur, next, inspected);
    if !inspected.Observed? || !GenerationEqual(adapter, NARROW_NEW, inspected.gen) {
      RestoreNarrow(tx, adapter, baseState, cur, next);
      return false;
    }
    var matched := Reduce(s, P.InspectAction, P.Matched);
    assert matched.Some? && matched.value.effect == P.Commit;
    s := matched.value;
    var final := EffectCandidateFrom(adapter, s, tx.current);
    assert final.Some?;
    ok := FinishNarrow(tx, adapter, s, final.value, cur, next);
    return ok;
  }

  // ---------------------------------------------------------------------------------------------

  lemma RecoveryFacts(s: M.State, base: Record)
    requires Inv(s, base) && RecoveryPosition(s.driver)
    ensures Recoverable(s.driver.tx)
  {
    hide ValidRecord, RecordGeneration;
    assert s.driver.tx in s.world.possible;
  }

  lemma ProceedFacts(s: M.State, base: Record)
    requires Inv(s, base) && s.driver.StableInspect?
    ensures Stable(s.driver.tx)
  {
    hide ValidRecord, RecordGeneration;
    assert s.driver.tx in s.world.possible;
  }

  lemma StablePath(tx: Record, cmd: M.Command, reply: M.Reply)
    ensures M.Request(M.StableApply(tx, cmd)) == M.BeginApply(tx)
    ensures M.Request(M.StableConfirm(tx, cmd)) == M.InspectApplied
    ensures M.Request(M.StableCommit(tx, cmd)) == M.Request(M.DurableCommit(tx, cmd)) == M.Commit(tx, M.Acknowledged(tx))
    ensures M.Request(M.DurableApply(tx, cmd)) == M.ApplyAndInspect(tx)
    ensures M.Resume(M.StableApply(tx, cmd), reply)
            == if reply == M.ApplyOk then M.StableConfirm(tx, cmd) else M.FailTeardown(tx, tx, None)
    ensures M.Resume(M.DurableApply(tx, cmd), reply)
            == if reply == M.ApplyOk then M.DurableCommit(tx, cmd) else M.FailTeardown(tx, tx, None)
    ensures M.Resume(M.StableConfirm(tx, cmd), reply)
            == if reply == M.Observed(RecordGeneration(tx)) then M.StableCommit(tx, cmd) else M.FailTeardown(tx, tx, None)
    ensures M.Resume(M.StableCommit(tx, cmd), reply) == M.Resume(M.DurableCommit(tx, cmd), reply)
            == if reply == M.CommitOk then M.Proceed(M.Stored(M.Acknowledged(tx)), cmd) else M.FailTeardown(tx, tx, None)
  {
    hide M.Proceed, RecordGeneration, M.Acknowledged;
  }

  /** recoverStableEgressGeneration */
  method RecoverStable(tx: Transaction, ghost cmd: M.Command) returns (ok: bool)
    requires tx.Valid() && tx.state.driver == M.StableApply(tx.current, cmd) && tx.current.transition.None?
    modifies tx
    ensures tx.Valid()
    ensures ok ==> Stable(tx.current) && tx.state.driver == M.Proceed(tx.current, cmd)
    ensures !ok ==> tx.state.driver == M.Done(false, tx.current)
    ensures ok ==> tx.current == M.Stored(M.Acknowledged(old(tx.current)))
  {
    RecoveryFacts(tx.state, tx.base);
    AcknowledgedStable(tx.current);
    VerifiedProjected(tx.current);
    StablePath(tx.current, cmd, M.ApplyOk);
    hide Inv, Logged, M.Perform, M.Request, M.Resume, M.Proceed, Stable, Recoverable, RecordGeneration, NewAdapter,
         RebaseVerifiedGeneration, CandidateFrom, GenerationEqual, VerifiedAdapter, AtSymbol, M.Acknowledged, M.Stored;
    ghost var read := tx.current;
    var rebased := RebaseVerifiedGeneration(NewAdapter(tx.current), BASE_SYMBOL);
    assert rebased.Some?;
    var (adapter, verified) := rebased.value;
    var begun := tx.BeginApply(tx.current);
    StablePath(read, cmd, begun);
    if !begun.ApplyOk? {
      FailClosed(tx, None, None);
      return false;
    }
    var inspected := tx.Inspect();
    StablePath(read, cmd, inspected);
    if !inspected.Observed? || !GenerationEqual(adapter, BASE_SYMBOL, inspected.gen) {
      FailClosed(tx, None, None);
      return false;
    }
    var candidate := CandidateFrom(adapter, verified, tx.current);
    assert candidate.Some?;
    var reply := tx.Commit(candidate.value);
    StablePath(read, cmd, reply);
    if !reply.CommitOk? {
      FailClosed(tx, None, None);
      return false;
    }
    return true;
  }

  /** What the drivers know of a persisted transition once the adapter has mapped it. */
  predicate Mapped(r: Record, a: Adapter, active: P.State, recovery: P.State) {
    && Recoverable(r) && r.transition.Some? && (r.transition.value.direction == Widening ==> r.grants != [])
    && a.original == r && a.bindings == TransitionBindings(r)
    && active == ActiveState(r) && recovery == RecoveryState(r)
  }

  lemma MappedEdges(r: Record, a: Adapter, active: P.State, recovery: P.State, concrete: Generation)
    requires Mapped(r, a, active, recovery)
    ensures (active.direction == P.Narrowing) == IsNarrowing(r) && (active.direction == P.Widening) == !IsNarrowing(r)
    ensures GenerationEqual(a, P.DurableGen(active), concrete) <==> concrete == RecordGeneration(r)
    ensures IsNarrowing(r) ==> (GenerationEqual(a, P.PendingGen(active), concrete) <==> concrete == M.CandidateGeneration(r))
    ensures var durable := GenerationCandidate(a, P.DurableGen(recovery));
            durable.Some? && durable.value == r
  {
    RecoveryEdges(r);
    TransitionBindingsMean(r);
    hide RecordGeneration, M.CandidateGeneration;
  }

  lemma StableProjection(r: Record, a: Adapter, active: P.State, recovery: P.State)
    requires Mapped(r, a, active, recovery)
    ensures var stable := Reduce(recovery, P.RecoverEgress, P.Unreported);
            && stable.Some? && stable.value.effect == P.NoEffect
            && CandidateFrom(a, stable.value, r) == Some(M.Acknowledged(r))
  {
    RecoveryEdges(r);
    RecoveredProjected(r, a);
    ProjectionIgnoresRuntime(a, RecoveredState(r), r, P.DurableGen(RecoveryState(r)).authority);
  }

  lemma ProjectionIgnoresRuntime(a: Adapter, s: P.State, frame: Record, runtime: set<P.Grant>)
    requires runtime <= MODEL.grants && CandidateFrom(a, s, frame).Some?
    ensures CandidateFrom(a, s.(runtime := runtime), frame) == CandidateFrom(a, s, frame)
  {
    hide ValidRuntimeState;
    assert P.DurableGen(s.(runtime := runtime)) == P.DurableGen(s);
    assert P.PendingGen(s.(runtime := runtime)) == P.PendingGen(s);
  }

  /** commitRecoveredEgressState */
  method CommitRecovered(tx: Transaction, adapter: Adapter, ghost active: P.State, recovery: P.State, ghost cmd: M.Command)
    returns (ok: bool)
    requires tx.Valid() && tx.state.driver == M.DurableCommit(tx.current, cmd)
    requires Mapped(tx.current, adapter, active, recovery)
    modifies tx
    ensures tx.Valid()
    ensures ok ==> Stable(tx.current) && tx.state.driver == M.Proceed(tx.current, cmd)
    ensures !ok ==> tx.state.driver == M.Done(false, tx.current)
    ensures ok ==> tx.current == M.Stored(M.Acknowledged(old(tx.current)))
  {
    StableProjection(tx.current, adapter, active, recovery);
    AcknowledgedStable(tx.current);
    hide Inv, Logged, M.Perform, M.Request, M.Resume, M.Proceed, Stable, Mapped, Reduce, CandidateFrom, M.Acknowledged,
         M.Stored;
    ghost var read := tx.current;
    var stable := Reduce(recovery, P.RecoverEgress, P.Unreported);
    assert stable.Some? && stable.value.effect == P.NoEffect;
    var candidate := CandidateFrom(adapter, stable.value, tx.current);
    assert candidate.Some?;
    StablePath(read, cmd, M.CommitOk);
    var reply := tx.Commit(candidate.value);
    StablePath(read, cmd, reply);
    if !reply.CommitOk? {
      FailClosed(tx, None, None);
      return false;
    }
    return true;
  }

  /** applyDurableRecoveryGeneration */
  method ApplyDurable(tx: Transaction, adapter: Adapter, ghost active: P.State, recovery: P.State, ghost cmd: M.Command)
    returns (ok: bool)
    requires tx.Valid() && tx.state.driver == M.DurableApply(tx.current, cmd)
    requires Mapped(tx.current, adapter, active, recovery)
    modifies tx
    ensures tx.Valid()
    ensures ok ==> Stable(tx.current) && tx.state.driver == M.Proceed(tx.current, cmd)
    ensures !ok ==> tx.state.driver == M.Done(false, tx.current)
    ensures ok ==> tx.current == M.Stored(M.Acknowledged(old(tx.current)))
  {
    MappedEdges(tx.current, adapter, active, recovery, RecordGeneration(tx.current));
    hide Inv, Logged, M.Perform, M.Request, M.Resume, M.Proceed, Stable, Mapped, GenerationCandidate;
    ghost var read := tx.current;
    var durable := GenerationCandidate(adapter, P.DurableGen(recovery));
    assert durable.Some?;
    StablePath(read, cmd, M.ApplyOk);
    var reply := tx.ApplyAndInspect(durable.value);
    StablePath(read, cmd, reply);
    if !reply.ApplyOk? {
      FailClosed(tx, None, None);
      return false;
    }
    ok := CommitRecovered(tx, adapter, active, recovery, cmd);
  }

  lemma CandidatePath(tx: Record, cmd: M.Command, reply: M.Reply)
    requires tx.transition.Some?
    ensures M.Request(M.CandidateCommit(tx, cmd)) == M.Commit(tx, M.TakeCandidate(tx))
    ensures M.Resume(M.CandidateCommit(tx, cmd), reply)
            == if reply == M.CommitOk then M.Proceed(M.Stored(M.TakeCandidate(tx)), cmd) else M.FailTeardown(tx, tx, None)
  {
    hide M.Proceed, M.TakeCandidate;
  }

  /** commitRecoveredNarrowCandidate: replay the apply and inspect edges the crash cut off. */
  method CommitRecoveredNarrow(tx: Transaction, adapter: Adapter, active: P.State, ghost recovery: P.State,
                               ghost cmd: M.Command)
    returns (ok: bool)
    requires tx.Valid() && tx.state.driver == M.CandidateCommit(tx.current, cmd)
    requires Mapped(tx.current, adapter, active, recovery) && IsNarrowing(tx.current)
    requires adapter.baseline != AtSymbol(NARROW_NEW)
    modifies tx
    ensures tx.Valid()
    ensures ok ==> Stable(tx.current) && tx.state.driver == M.Proceed(tx.current, cmd)
    ensures !ok ==> tx.state.driver == M.Done(false, tx.current)
    ensures ok ==> tx.current == M.Stored(M.TakeCandidate(old(tx.current)))
  {
    RecoveryEdges(tx.current);
    NarrowEdges();
    CandidateProjected(tx.current, adapter);
    TakenStable(tx.current);
    CandidatePath(tx.current, cmd, M.CommitOk);
    hide Inv, Logged, M.Perform, M.Request, M.Resume, M.Proceed, Stable, Reduce, EffectCandidateFrom, M.TakeCandidate,
         M.Stored, UnknownCommitBlocked, Recoverable, TransitionBindings, RecoveredState;
    ghost var read := tx.current;
    var applied := Reduce(active, P.ApplyAction, P.Succeeded);
    assert applied.Some?;
    var matched := Reduce(applied.value, P.InspectAction, P.Matched);
    assert matched.Some? && matched.value.effect == P.Commit;
    var candidate := EffectCandidateFrom(adapter, matched.value, tx.current);
    assert candidate.Some?;
    var reply := tx.Commit(candidate.value);
    CandidatePath(read, cmd, reply);
    if reply.CommitOk? {
      assert Reduce(matched.value, P.NarrowFinalCommit, P.KnownNew).Some?;
      return true;
    } else if reply.CommitUncertain? {
      assert UnknownCommitBlocked(matched.value, P.NarrowFinalCommit);
    } else {
      assert Reduce(matched.value, P.NarrowFinalCommit, P.KnownOld).Some?;
    }
    FailClosed(tx, None, None);
    return false;
  }

  lemma RecoveredAs(r: Record)
    requires Recoverable(r)
    ensures RecoveredFrom(r, M.Stored(M.Acknowledged(r)))
    ensures r.transition.None? ==> RecoveredFrom(r, r)
    ensures IsNarrowing(r) ==> RecoveredFrom(r, M.Stored(M.TakeCandidate(r)))
  {
    hide ValidRecord, RecordGeneration;
  }

  lemma TransitionMapped(r: Record)
    requires Recoverable(r) && r.transition.Some?
    ensures TransitionStates(NewAdapter(r)).Some?
    ensures var (a, active, recovery) := TransitionStates(NewAdapter(r)).value;
            Mapped(r, a, active, recovery) && (IsNarrowing(r) ==> a.baseline != AtSymbol(NARROW_NEW))
  {
    TransitionStatesAccepted(r);
    if IsNarrowing(r) {
      BaselineIsNotNarrowed(r);
    }
    hide TransitionStates, Recoverable, TransitionBindings, AtSymbol;
  }

  lemma InspectPath(tx: Record, cmd: M.Command, reply: M.Reply)
    ensures M.Request(M.StableInspect(tx, cmd)) == M.Request(M.TransitionInspect(tx, cmd)) == M.InspectNow
    ensures M.Resume(M.StableInspect(tx, cmd), reply)
            == if reply == M.Observed(RecordGeneration(tx)) then M.Proceed(tx, cmd) else M.StableApply(tx, cmd)
    ensures tx.transition.Some? ==>
              M.Resume(M.TransitionInspect(tx, cmd), reply)
              == if IsNarrowing(tx) && reply == M.Observed(M.CandidateGeneration(tx)) then M.CandidateCommit(tx, cmd)
                 else if reply == M.Observed(RecordGeneration(tx)) then M.DurableCommit(tx, cmd)
                 else M.DurableApply(tx, cmd)
  {
    hide M.Proceed, RecordGeneration, M.CandidateGeneration;
  }

  lemma StartPath(tx: Record, cmd: M.Command)
    requires tx.status == Running
    ensures M.Start(tx, cmd)
            == if tx.uncertain then M.FailTeardown(tx, tx, None)
               else if tx.transition.Some? then M.TransitionInspect(tx, cmd)
               else if tx.applied == M.AppliedOf(RecordGeneration(tx)) then M.StableInspect(tx, cmd)
               else M.StableApply(tx, cmd)
  {}

  /** The persisted-transition half of recoverRunningSessionEgressProtocol. */
  method RecoverTransition(tx: Transaction, ghost cmd: M.Command) returns (ok: bool)
    requires tx.Valid() && tx.state.driver == M.TransitionInspect(tx.current, cmd) && tx.current.transition.Some?
    modifies tx
    ensures tx.Valid()
    ensures ok ==> Stable(tx.current) && tx.state.driver == M.Proceed(tx.current, cmd)
    ensures !ok ==> tx.state.driver == M.Done(false, tx.current)
    ensures ok ==> RecoveredFrom(old(tx.current), tx.current)
  {
    RecoveryFacts(tx.state, tx.base);
    TransitionMapped(tx.current);
    RecoveredAs(tx.current);
    InspectPath(tx.current, cmd, M.NotObserved);
    hide Inv, Logged, M.Perform, M.Request, M.Resume, M.Proceed, Stable, Recoverable, Mapped, RecordGeneration, NewAdapter,
         TransitionStates, GenerationEqual, M.CandidateGeneration, RecoveredFrom, M.Acknowledged, M.TakeCandidate, M.Stored;
    ghost var read := tx.current;
    var states := TransitionStates(NewAdapter(tx.current));
    assert states.Some?;
    var (adapter, active, recovery) := states.value;
    var inspected := tx.Inspect();
    InspectPath(read, cmd, inspected);
    MappedEdges(read, adapter, active, recovery, if inspected.Observed? then inspected.gen else RecordGeneration(read));
    if active.direction == P.Narrowing && inspected.Observed?
       && GenerationEqual(adapter, P.PendingGen(active), inspected.gen) {
      ok := CommitRecoveredNarrow(tx, adapter, active, recovery, cmd);
    } else if inspected.Observed? && GenerationEqual(adapter, P.DurableGen(active), inspected.gen) {
      ok := CommitRecovered(tx, adapter, active, recovery, cmd);
    } else {
      ok := ApplyDurable(tx, adapter, active, recovery, cmd);
    }
  }

  /** recoverRunningSessionEgressProtocol on a running record. */
  method Recover(tx: Transaction, ghost cmd: M.Command) returns (ok: bool)
    requires tx.Valid() && tx.current.status == Running && tx.state.driver == M.Start(tx.current, cmd)
    modifies tx
    ensures tx.Valid()
    ensures ok ==> Stable(tx.current) && tx.state.driver == M.Proceed(tx.current, cmd)
    ensures !ok ==> tx.state.driver == M.Done(false, tx.current)
    ensures ok ==> RecoveredFrom(old(tx.current), tx.current)
  {
    StartPath(tx.current, cmd);
    InspectPath(tx.current, cmd, M.NotObserved);
    if tx.state.driver.StableInspect? {
      ProceedFacts(tx.state, tx.base);
    }
    if RecoveryPosition(tx.state.driver) {
      RecoveryFacts(tx.state, tx.base);
      RecoveredAs(tx.current);
    }
    hide Inv, Logged, M.Perform, M.Request, M.Resume, M.Start, M.Proceed, Stable, RecordGeneration, RecoveredFrom,
         Recoverable, M.Acknowledged, M.TakeCandidate, M.Stored, RecoveryPosition;
    if tx.current.uncertain {
      FailClosed(tx, None, None);
      return false;
    }
    if tx.current.transition.Some? {
      ok := RecoverTransition(tx, cmd);
      return;
    }
    var durable := RecordGeneration(tx.current);
    if tx.current.applied == M.AppliedOf(durable) {
      ghost var read := tx.current;
      var inspected := tx.Inspect();
      InspectPath(read, cmd, inspected);
      if inspected == M.Observed(durable) {
        return true;
      }
    }
    ok := RecoverStable(tx, cmd);
  }

  // ---------------------------------------------------------------------------------------------
  // The operator's commands, each on a freshly locked running record

  lemma AppendedFacts(cur: Record, dest: Destination, id: nat)
    requires Stable(cur) && AppendGrant(cur, dest, id).Appended?
    ensures Grants(cur, AppendGrant(cur, dest, id).next)
  {
    hide Stable;
  }

  lemma RevokedFacts(cur: Record, id: nat)
    requires Stable(cur) && RevokeGrant(cur, id).Some?
    ensures Revokes(cur, RevokeGrant(cur, id).value)
  {
    RevokeGrantCuts(cur, id);
    hide ValidRecord, RecordGeneration, IsOneGrantNarrower, RevokeGrant, ValidGrantList;
  }

  lemma WidenAchieves(c: Record, dest: Destination, id: nat)
    requires Stable(c) && AppendGrant(c, dest, id).Appended?
    ensures Achieved(c, M.Stored(M.Acknowledged(M.Stored(M.WidenIntent(c, AppendGrant(c, dest, id).next)))), M.Grant(dest, id))
  {
    AppendRows(c, dest, id);
    hide RecordGeneration, ValidRecord, AppendGrant, HasDest;
  }

  lemma ExistingAchieves(c: Record, dest: Destination, id: nat)
    requires Stable(c) && AppendGrant(c, dest, id).Existing?
    ensures Achieved(c, c, M.Grant(dest, id))
  {
    AppendRows(c, dest, id);
    hide RecordGeneration, ValidRecord, AppendGrant, HasDest;
  }

  lemma NarrowAchieves(c: Record, id: nat)
    requires Stable(c) && RevokeGrant(c, id).Some?
    ensures Achieved(c, NarrowedRecord(c, RevokeGrant(c, id).value), M.Revoke(id))
  {
    RevokeRows(c, id);
    hide RecordGeneration, ValidRecord, RevokeGrant, RowGone;
  }

  /** What the nil answer of a grant is worth: the record authorises the destination and the proxy serves it. */
  lemma GrantServed(tx: Transaction, c: Record, dest: Destination, id: nat)
    requires tx.Valid() && tx.state.driver == M.Done(true, tx.current) && Achieved(c, tx.current, M.Grant(dest, id))
    ensures dest in RecordAuthority(tx.current)
    ensures tx.proxy.Serving? && dest in tx.proxy.gen.hash.overlay
  {
    GrantedRow(c, tx.current, dest, id);
    NilIsExact(tx);
    GrantedServed(tx.current, dest);
    hide Achieved, RecordAuthority;
  }

  /** grantSessionEgress: nil is reported only with the machine's own success, and then the destination is granted:
      by exactly one new row, or by a row that recovery had left. */
  method GrantEgress(tx: Transaction, dest: Destination, id: nat) returns (ok: bool, ghost recovered: Record)
    requires tx.Valid() && tx.state.driver == M.Start(tx.current, M.Grant(dest, id))
    modifies tx
    ensures tx.Valid() && tx.state.driver == M.Done(ok, tx.current)
    ensures ok ==> RecoveredFrom(old(tx.current), recovered) && Achieved(recovered, tx.current, M.Grant(dest, id))
    ensures ok ==> dest in RecordAuthority(tx.current) && tx.proxy.Serving? && dest in tx.proxy.gen.hash.overlay
  {
    recovered := tx.current;
    if tx.current.status != Running {
      return false, recovered;
    }
    hide Inv, Logged, M.Start, ValidRuntimeState, M.WidenIntent, AppendGrant, Grants, RecoveredFrom, Achieved,
         M.Acknowledged, M.Stored, RecordAuthority;
    ok := Recover(tx, M.Grant(dest, id));
    if !ok {
      return;
    }
    recovered := tx.current;
    hide Stable;
    match AppendGrant(tx.current, dest, id) {
      case Refused => ok := false;
      case Existing(_) =>
        ExistingAchieves(tx.current, dest, id);
        ok := true;
      case Appended(next, _) =>
        AppendedFacts(tx.current, dest, id);
        WidenAchieves(tx.current, dest, id);
        ok := RunWiden(tx, tx.current, next);
    }
    if ok {
      GrantServed(tx, recovered, dest, id);
    }
  }

  /** revokeSessionEgress: nil means the row of that id is gone and every other row is kept. */
  method RevokeEgress(tx: Transaction, id: nat) returns (ok: bool, ghost recovered: Record)
    requires tx.Valid() && tx.state.driver == M.Start(tx.current, M.Revoke(id))
    modifies tx
    ensures tx.Valid() && tx.state.driver == M.Done(ok, tx.current)
    ensures ok ==> RecoveredFrom(old(tx.current), recovered) && Achieved(recovered, tx.current, M.Revoke(id))
    ensures ok ==> RowGone(recovered.grants, tx.current.grants, id)
    ensures ok ==> tx.proxy == M.Serving(RecordGeneration(tx.current))
  {
    recovered := tx.current;
    if tx.current.status != Running {
      return false, recovered;
    }
    hide Inv, Logged, M.Start, ValidRuntimeState, M.NarrowIntent, RevokeGrant, Revokes, RecoveredFrom, NarrowedRecord,
         RowGone, RecordGeneration;
    ok := Recover(tx, M.Revoke(id));
    if !ok {
      return;
    }
    recovered := tx.current;
    hide Stable;
    match RevokeGrant(tx.current, id) {
      case None => ok := false;
      case Some(next) =>
        RevokedFacts(tx.current, id);
        NarrowFacts(tx.current, next);
        NarrowAchieves(tx.current, id);
        ok := RunNarrow(tx, tx.current, next);
    }
    if ok {
      NilIsExact(tx);
    }
  }

  lemma DismissPath(tx: Record, dest: Destination, now: int)
    ensures DismissEgress(tx, dest, now).None? ==> M.Proceed(tx, M.Dismiss(dest, now)) == M.Done(false, tx)
    ensures DismissEgress(tx, dest, now).Some? ==>
              var next := DismissEgress(tx, dest, now).value;
              && M.Proceed(tx, M.Dismiss(dest, now)) == M.DismissCommit(tx, next)
              && M.Request(M.DismissCommit(tx, next)) == M.Commit(tx, next)
              && M.Resume(M.DismissCommit(tx, next), M.CommitOk) == M.Done(true, M.Stored(next))
              && M.Resume(M.DismissCommit(tx, next), M.CommitUncertain) == M.Done(false, tx)
              && M.Resume(M.DismissCommit(tx, next), M.CommitFailed) == M.Done(false, tx)
  {
    hide DismissEgress;
  }

  lemma DismissAchieves(c: Record, dest: Destination, now: int)
    requires Stable(c) && DismissEgress(c, dest, now).Some?
    ensures Achieved(c, M.Stored(DismissEgress(c, dest, now).value), M.Dismiss(dest, now))
  {
    hide RecordGeneration, ValidRecord;
  }

  /** dismissSessionEgress: nil means that destination is acknowledged at that time, and nothing else changed. */
  method DismissObservation(tx: Transaction, dest: Destination, now: int) returns (ok: bool, ghost recovered: Record)
    requires tx.Valid() && tx.state.driver == M.Start(tx.current, M.Dismiss(dest, now))
    modifies tx
    ensures tx.Valid() && tx.state.driver == M.Done(ok, tx.current)
    ensures ok ==> RecoveredFrom(old(tx.current), recovered) && Achieved(recovered, tx.current, M.Dismiss(dest, now))
    ensures ok ==> tx.current.acks == old(tx.current.acks)[dest := now]
  {
    recovered := tx.current;
    if tx.current.status != Running {
      return false, recovered;
    }
    hide Inv, Logged, M.Start, DismissEgress, Stable, M.Perform, M.Proceed, M.Request, M.Resume, M.Stored;
    ok := Recover(tx, M.Dismiss(dest, now));
    if !ok {
      return;
    }
    recovered := tx.current;
    DismissPath(tx.current, dest, now);
    match DismissEgress(tx.current, dest, now) {
      case None => ok := false;
      case Some(next) =>
        DismissAchieves(tx.current, dest, now);
        var reply := tx.Commit(next);
        ok := reply.CommitOk?;
    }
  }

  /** What a nil answer of any command means for the record and the proxy it leaves behind. */
  lemma NilIsExact(tx: Transaction)
    requires tx.Valid() && tx.state.driver == M.Done(true, tx.current)
    ensures tx.current.status == Running && tx.current.transition.None?
    ensures tx.proxy == M.Serving(RecordGeneration(tx.current))
    ensures tx.state.world.possible == {tx.current}
    ensures M.RuntimeAuthority(tx.proxy) == RecordAuthority(tx.current)
  {
    hide ValidRecord, RecordGeneration, RecordAuthority, M.RuntimeAuthority, IsOperation;
    ServesAuthority(tx.current);
  }

  lemma {:induction false} HistoryInv(history: seq<M.State>, k: nat, base: Record)
    requires IsOperation(history) && k < |history| && Inv(history[0], base)
    ensures Inv(history[k], base)
  {
    hide Inv, M.EffectStep;
    if k == 0 {
    } else {
      HistoryInv(history, k - 1, base);
      assert M.EffectStep(history[k - 1], history[k - 1 + 1]) || M.CrashStep(history[k - 1], history[k - 1 + 1]);
      StepKeepsInv(history[k - 1], history[k], base);
    }
  }

  /** Every point of a command's history, hence every point at which it may be killed, keeps the runtime
      within every record the disk may hold. */
  lemma HistoryIsBounded(tx: Transaction, k: nat)
    requires tx.Valid() && k < |tx.history|
    ensures RuntimeBounded(tx.history[k].world) && StoppedMeansAbsent(tx.history[k].world)
    ensures tx.history[k].world.possible != {}
  {
    hide DriverInv, OfSession;
    HistoryInv(tx.history, k, tx.base);
  }
}
