/** Safety of the session egress protocol over every run: the runtime never exceeds any record the
    disk may hold, authority shrinks only on proof, and success means exact agreement. */
module EgressSafety {
  import opened Wrappers
  import opened ExactEgress
  import opened SessionRecord
  import opened EgressMachine

  // ---------------------------------------------------------------------------------------------
  // The proposed records are valid

  /** A stable running record whose own generation is recorded as applied. */
  predicate Stable(r: Record) {
    && ValidRecord(r) && r.status == Running && !r.uncertain && r.transition.None?
    && r.applied == AppliedOf(RecordGeneration(r))
  }

  predicate Appends(cur: Record, next: Record) {
    && next.grants != []
    && next == cur.(grants := cur.grants + [next.grants[|next.grants| - 1]], revision := cur.revision + 1)
  }

  predicate Cuts(cur: Record, next: Record) {
    && next == cur.(grants := next.grants, revision := cur.revision + 1)
    && IsOneGrantNarrower(cur.grants, next.grants)
  }

  lemma AppendGrantAppends(tx: Record, dest: Destination, id: nat)
    requires AppendGrant(tx, dest, id).Appended?
    ensures Appends(tx, AppendGrant(tx, dest, id).next) && tx.grantable
  {}

  lemma CutKeepsValidList(grants: seq<SessionRecord.Grant>, i: nat)
    requires i < |grants| && ValidGrantList(grants)
    ensures ValidGrantList(grants[..i] + grants[i + 1..])
  {
    hide Grantable;
    var cut := grants[..i] + grants[i + 1..];
    assert forall k :: 0 <= k < |cut| ==> cut[k] == grants[if k < i then k else k + 1];
  }

  lemma RevokeGrantCuts(tx: Record, id: nat)
    requires ValidRecord(tx) && RevokeGrant(tx, id).Some?
    ensures Cuts(tx, RevokeGrant(tx, id).value) && tx.grantable
    ensures ValidGrantList(RevokeGrant(tx, id).value.grants)
  {
    hide ValidRuntimeState, Grantable, IsOneGrantNarrower, WithoutId;
    var next := RevokeGrant(tx, id).value;
    var i := WithoutIdCuts(tx.grants, id);
    CutIsNarrower(tx.grants, i);
    CutKeepsValidList(tx.grants, i);
  }

  lemma ServesAuthority(r: Record)
    ensures RuntimeAuthority(Serving(RecordGeneration(r))) == RecordAuthority(r)
  {
    EffectiveIsAuthority(r.persistent, r.grants);
  }

  lemma AcknowledgedValid(r: Record)
    requires ValidRecord(r)
    ensures ValidRecord(Acknowledged(r)) && RecordGeneration(Acknowledged(r)) == RecordGeneration(r)
  {
    ValidAuthorityBuilds(r);
  }

  lemma MarksValid(base: Record, restore: Option<Record>)
    requires ValidRecord(base)
    requires restore.Some? ==> ValidRecord(restore.value) && restore.value.persistent == base.persistent
                               && restore.value.grantable == base.grantable
    ensures ValidRecord(BlockedRecord(base)) && ValidRecord(StoppedRecord(base, restore))
  {
    ValidAuthorityBuilds(base);
    if restore.Some? {
      ValidAuthorityBuilds(restore.value);
    }
  }

  lemma WidenIntentValid(cur: Record, next: Record)
    requires Stable(cur) && Appends(cur, next) && cur.grantable && ValidRuntimeState(WidenIntent(cur, next))
    ensures ValidRecord(WidenIntent(cur, next)) && ValidRecord(next.(applied := NEVER_APPLIED))
    ensures RecordAuthority(cur) <= RecordAuthority(next)
  {
    ValidAuthorityBuilds(next.(transition := None));
  }

  /** Every candidate the narrow driver proposes is a valid record. */
  lemma NarrowIntentValid(cur: Record, next: Record)
    requires Stable(cur) && Cuts(cur, next) && cur.grantable && ValidGrantList(next.grants)
    ensures ValidRecord(NarrowIntent(cur, next))
    ensures RecordAuthority(next) <= RecordAuthority(cur)
  {
    NarrowerIsSubset(cur.grants, next.grants, false);
    ValidAuthorityBuilds(cur);
    assert ValidAuthority(next);
    ValidAuthorityBuilds(next);
  }

  lemma TakeCandidateValid(tx: Record)
    requires ValidRecord(tx) && tx.transition.Some? && tx.transition.value.direction == Narrowing
    requires tx.grantable
    ensures ValidRecord(TakeCandidate(tx)) && RecordGeneration(TakeCandidate(tx)) == CandidateGeneration(tx)
    ensures TakeCandidate(tx).applied == AppliedOf(CandidateGeneration(tx))
    ensures RecordAuthority(TakeCandidate(tx)) <= RecordAuthority(tx)
  {
    NarrowerIsSubset(tx.grants, tx.transition.value.grants, false);
  }

  // ---------------------------------------------------------------------------------------------
  // The inductive invariant

  /** Records of one session: valid, with the session's immutable base authority. */
  predicate OfSession(r: Record, base: Record) {
    ValidRecord(r) && r.persistent == base.persistent && r.grantable == base.grantable
  }

  /** The authority law: whatever record the disk holds, the runtime is within it. */
  ghost predicate RuntimeBounded(w: World) {
    forall p :: p in w.possible ==> RuntimeAuthority(w.runtime) <= RecordAuthority(p)
  }

  ghost predicate StoppedMeansAbsent(w: World) {
    forall p :: p in w.possible && p.status == Stopped ==> w.runtime == Absent
  }

  ghost predicate Guarded(w: World, base: Record) {
    && w.possible != {}
    && RuntimeBounded(w)
    && StoppedMeansAbsent(w)
    && forall p :: p in w.possible ==> OfSession(p, base) && p.status != Created
  }

  ghost predicate Settled(tx: Record, w: World) {
    w.possible == {tx} && tx.status == Running && !tx.uncertain
  }

  /** Exact agreement: one possible record, no transition, and the proxy enforces its generation. */
  ghost predicate Exact(tx: Record, w: World) {
    && Settled(tx, w) && tx.transition.None? && tx.applied == AppliedOf(RecordGeneration(tx))
    && w.runtime == Serving(RecordGeneration(tx))
  }

  ghost predicate Covers(w: World, r: Record) {
    forall p :: p in w.possible ==> RecordAuthority(p) <= RecordAuthority(r)
  }

  predicate Widens(tx: Record, cur: Record, next: Record) {
    && Stable(cur) && cur.grantable && Appends(cur, next) && ValidRuntimeState(WidenIntent(cur, next))
    && tx == Stored(WidenIntent(cur, next))
  }

  predicate Narrows(tx: Record, cur: Record, next: Record) {
    && Stable(cur) && cur.grantable && Cuts(cur, next) && ValidGrantList(next.grants)
    && tx == Stored(NarrowIntent(cur, next))
  }

  /** The record before a narrow intent, told apart from it only by the marker. */
  predicate Reverts(tx: Record, cur: Record) {
    && Stable(cur) && tx.grants == cur.grants && tx.revision == cur.revision
    && tx.persistent == cur.persistent && tx.grantable == cur.grantable && ValidRecord(Restored(tx, cur))
  }

  ghost predicate DriverInv(d: Driver, w: World, base: Record) {
    match d
    case Idle => true
    case Done(ok, tx) => ok ==> Exact(tx, w)
    case StableInspect(tx, _) =>
      Settled(tx, w) && tx.transition.None? && tx.applied == AppliedOf(RecordGeneration(tx))
    case StableApply(tx, _) => Settled(tx, w) && tx.transition.None?
    case StableConfirm(tx, _) => Settled(tx, w) && tx.transition.None?
    case StableCommit(tx, _) =>
      Settled(tx, w) && tx.transition.None? && w.runtime == Serving(RecordGeneration(tx))
    case TransitionInspect(tx, _) => Settled(tx, w) && tx.transition.Some?
    case DurableApply(tx, _) => Settled(tx, w) && tx.transition.Some?
    case DurableCommit(tx, _) =>
      Settled(tx, w) && tx.transition.Some? && w.runtime == Serving(RecordGeneration(tx))
    case CandidateCommit(tx, _) =>
      && Settled(tx, w) && tx.transition.Some? && tx.transition.value.direction == Narrowing
      && w.runtime == Serving(CandidateGeneration(tx)) && w.evidence == Seen(CandidateGeneration(tx))
    case WidenCommit(cur, next) => Exact(cur, w) && Widens(Stored(WidenIntent(cur, next)), cur, next)
    case WidenApply(tx, cur, next) => Settled(tx, w) && OfSession(cur, base) && Widens(tx, cur, next)
    case WidenConfirm(tx, cur, next) => Settled(tx, w) && OfSession(cur, base) && Widens(tx, cur, next)
    case WidenFinal(tx, cur, next) =>
      && Settled(tx, w) && OfSession(cur, base) && Widens(tx, cur, next)
      && w.runtime == Serving(RecordGeneration(next))
    case NarrowCommit(cur, next) => Exact(cur, w) && Narrows(Stored(NarrowIntent(cur, next)), cur, next)
    case NarrowApply(tx, cur, next) => Settled(tx, w) && OfSession(cur, base) && Narrows(tx, cur, next)
    case NarrowConfirm(tx, cur, next) => Settled(tx, w) && OfSession(cur, base) && Narrows(tx, cur, next)
    case NarrowFinal(tx, cur, next) =>
      && Settled(tx, w) && OfSession(cur, base) && Narrows(tx, cur, next)
      && w.runtime == Serving(RecordGeneration(next)) && w.evidence == Seen(RecordGeneration(next))
    case RestoreApply(tx, cur) => Settled(tx, w) && OfSession(cur, base) && Reverts(tx, cur)
    case RestoreCommit(tx, cur) =>
      Settled(tx, w) && OfSession(cur, base) && Reverts(tx, cur) && w.runtime == Serving(RecordGeneration(cur))
    case UndoApply(tx, cur) => Settled(tx, w) && OfSession(cur, base) && Reverts(tx, cur)
    case UndoCommit(tx, cur) =>
      Settled(tx, w) && OfSession(cur, base) && Reverts(tx, cur) && w.runtime == Serving(RecordGeneration(cur))
    case DismissCommit(tx, next) => Exact(tx, w) && next == tx.(acks := next.acks) && ValidRecord(next)
    case FailTeardown(tx, upper, restore) =>
      && OfSession(upper, base) && upper.status == Running && upper.version == tx.version
      && Covers(w, upper) && (restore.Some? ==> OfSession(restore.value, base))
    case FailMark(tx, mark, _) =>
      && OfSession(mark, base) && mark.version == tx.version && mark.uncertain
      && (if mark.status == Stopped then w.runtime == Absent && w.evidence == ProvenAbsent
          else mark.status == Running && Covers(w, mark))
  }

  ghost predicate Inv(s: State, base: Record) {
    Guarded(s.world, base) && DriverInv(s.driver, s.world, base)
  }

  // ---------------------------------------------------------------------------------------------
  // Preservation, one driver position at a time

  lemma ProceedInv(tx: Record, cmd: Command, w: World, base: Record)
    requires Guarded(w, base) && Exact(tx, w)
    ensures DriverInv(Proceed(tx, cmd), w, base)
  {
    hide ValidRuntimeState, Grantable, IsOneGrantNarrower, RecordGeneration;
    match cmd {
      case RecoverOnly =>
      case Grant(dest, id) =>
        if AppendGrant(tx, dest, id).Appended? {
          AppendGrantAppends(tx, dest, id);
        }
      case Revoke(id) =>
        if RevokeGrant(tx, id).Some? {
          RevokeGrantCuts(tx, id);
        }
      case Dismiss(dest, now) =>
        if DismissEgress(tx, dest, now).Some? {
          var next := DismissEgress(tx, dest, now).value;
          DismissValid(tx, dest, now);
        }
    }
  }

  lemma DismissValid(tx: Record, dest: Destination, now: int)
    requires ValidRecord(tx) && DismissEgress(tx, dest, now).Some?
    ensures ValidRecord(DismissEgress(tx, dest, now).value)
  {
    hide Grantable, CanonicalGeneration;
  }

  lemma StartInv(r: Record, cmd: Command, w: World, base: Record)
    requires Guarded(w, base) && r in w.possible
    ensures Inv(State(w.(possible := {r}, evidence := Unproven), Start(r, cmd)), base)
  {
    hide ValidRecord, RecordGeneration, RecordAuthority;
  }

  lemma CommitKeepsGuard(tx: Record, c: Record, w: World, reply: Reply, w': World, base: Record)
    requires Guarded(w, base) && Perform(Commit(tx, c), w, reply, w')
    requires OfSession(c, base) && c.status != Created && RuntimeAuthority(w.runtime) <= RecordAuthority(c)
    requires c.status == Stopped ==> w.runtime == Absent
    ensures Guarded(w', base) && OfSession(Stored(c), base) && RecordGeneration(Stored(c)) == RecordGeneration(c)
    ensures c.version == tx.version && reply == CommitOk ==> w'.possible == {Stored(c)}
    ensures reply == CommitFailed ==> w' == w
  {
    hide RuntimeAuthority, CanonicalGeneration, ValidAuthority;
    StoredValid(c);
    assert RecordAuthority(Stored(c)) == RecordAuthority(c);
  }

  lemma StoredValid(c: Record)
    ensures ValidRecord(Stored(c)) == ValidRecord(c)
  {}

  lemma ApplyKeepsGuard(tx: Record, target: Record, w: World, w': World, base: Record)
    requires Guarded(w, base) && Settled(tx, w) && RecordAuthority(target) <= RecordAuthority(tx)
    requires w'.possible == w.possible && MayServe(w.runtime, target, w'.runtime)
    ensures Guarded(w', base) && Settled(tx, w')
  {
    hide RuntimeAuthority, RecordAuthority, ValidRecord, RecordGeneration;
    ServesAuthority(target);
    assert tx in w.possible;
  }

  predicate RecoveryPosition(d: Driver) {
    d.StableInspect? || d.StableApply? || d.StableConfirm? || d.StableCommit?
    || d.TransitionInspect? || d.DurableApply? || d.DurableCommit? || d.CandidateCommit?
  }

  lemma RecoveryApplyInv(d: Driver, w: World, reply: Reply, w': World, base: Record)
    requires d.StableApply? || d.DurableApply?
    requires Guarded(w, base) && DriverInv(d, w, base) && Perform(Request(d), w, reply, w')
    ensures Guarded(w', base) && DriverInv(Resume(d, reply), w', base)
  {
    hide ValidRecord, RecordGeneration, RecordAuthority, RuntimeAuthority;
    ApplyKeepsGuard(d.tx, d.tx, w, w', base);
    assert d.tx in w.possible;
  }

  lemma RecoveryInspectInv(d: Driver, w: World, reply: Reply, w': World, base: Record)
    requires d.StableInspect? || d.StableConfirm? || d.TransitionInspect?
    requires Guarded(w, base) && DriverInv(d, w, base) && Perform(Request(d), w, reply, w')
    ensures Guarded(w', base) && DriverInv(Resume(d, reply), w', base)
  {
    hide ValidRecord, RecordGeneration, RecordAuthority, RuntimeAuthority, CandidateGeneration;
    assert d.tx in w.possible;
    if d.StableInspect? && reply == Observed(RecordGeneration(d.tx)) {
      ProceedInv(d.tx, d.cmd, w', base);
    }
  }

  lemma RecoveryCommitInv(d: Driver, w: World, reply: Reply, w': World, base: Record)
    requires d.StableCommit? || d.DurableCommit?
    requires Guarded(w, base) && DriverInv(d, w, base) && Perform(Request(d), w, reply, w')
    ensures Guarded(w', base) && DriverInv(Resume(d, reply), w', base)
  {
    hide ValidRecord, RecordGeneration, RecordAuthority, RuntimeAuthority, Proceed;
    var tx := d.tx;
    assert tx in w.possible;
    AcknowledgedValid(tx);
    SameAuthority(Acknowledged(tx), tx);
    SameAuthority(Stored(Acknowledged(tx)), tx);
    CommitKeepsGuard(tx, Acknowledged(tx), w, reply, w', base);
    if reply == CommitOk {
      ProceedInv(Stored(Acknowledged(tx)), d.cmd, w', base);
    }
  }

  lemma CandidateCommitInv(d: Driver, w: World, reply: Reply, w': World, base: Record)
    requires d.CandidateCommit?
    requires Guarded(w, base) && DriverInv(d, w, base) && Perform(Request(d), w, reply, w')
    ensures Guarded(w', base) && DriverInv(Resume(d, reply), w', base)
  {
    hide ValidRecord, RecordGeneration, RuntimeAuthority, CandidateGeneration;
    var tx := d.tx;
    assert tx in w.possible;
    TransitionGrantable(tx);
    TakeCandidateValid(tx);
    ServesAuthority(TakeCandidate(tx));
    CommitKeepsGuard(tx, TakeCandidate(tx), w, reply, w', base);
    if reply == CommitOk {
      ProceedInv(Stored(TakeCandidate(tx)), d.cmd, w', base);
    }
  }

  lemma TransitionGrantable(tx: Record)
    requires ValidRecord(tx) && tx.transition.Some?
    ensures tx.grantable
  {
    hide CanonicalGeneration;
  }

  lemma WidenCommitInv(d: Driver, w: World, reply: Reply, w': World, base: Record)
    requires d.WidenCommit?
    requires Guarded(w, base) && DriverInv(d, w, base) && Perform(Request(d), w, reply, w')
    ensures Guarded(w', base) && DriverInv(Resume(d, reply), w', base)
  {
    hide ValidRecord, RecordGeneration, RuntimeAuthority, ValidRuntimeState, RecordAuthority;
    var cur, next := d.cur, d.next;
    assert cur in w.possible;
    var intent := WidenIntent(cur, next);
    WidenIntentValid(cur, next);
    assert RecordAuthority(intent) == RecordAuthority(next) by { SameAuthority(intent, next); }
    CommitKeepsGuard(cur, intent, w, reply, w', base);
    if reply == CommitUncertain {
      assert Stored(intent) in w'.possible;
      assert RecordAuthority(Stored(intent)) == RecordAuthority(intent) by { SameAuthority(Stored(intent), intent); }
    }
  }

  lemma SameAuthority(a: Record, b: Record)
    requires a.persistent == b.persistent && a.grants == b.grants
    ensures RecordAuthority(a) == RecordAuthority(b)
    ensures a.revision == b.revision ==> RecordGeneration(a) == RecordGeneration(b)
  {}

  lemma WidenRunInv(d: Driver, w: World, reply: Reply, w': World, base: Record)
    requires d.WidenApply? || d.WidenConfirm?
    requires Guarded(w, base) && DriverInv(d, w, base) && Perform(Request(d), w, reply, w')
    ensures Guarded(w', base) && DriverInv(Resume(d, reply), w', base)
  {
    hide ValidRecord, RecordGeneration, RuntimeAuthority, ValidRuntimeState, RecordAuthority;
    assert d.tx in w.possible;
    SameAuthority(d.next, d.tx);
    if d.WidenApply? {
      ApplyKeepsGuard(d.tx, d.next, w, w', base);
    }
  }

  lemma WidenFinalInv(d: Driver, w: World, reply: Reply, w': World, base: Record)
    requires d.WidenFinal?
    requires Guarded(w, base) && DriverInv(d, w, base) && Perform(Request(d), w, reply, w')
    ensures Guarded(w', base) && DriverInv(Resume(d, reply), w', base)
  {
    hide ValidRecord, RecordGeneration, RuntimeAuthority, ValidRuntimeState, RecordAuthority;
    var tx := d.tx;
    assert tx in w.possible;
    SameAuthority(d.next, tx);
    SameAuthority(Acknowledged(tx), tx);
    SameAuthority(Stored(Acknowledged(tx)), tx);
    AcknowledgedValid(tx);
    CommitKeepsGuard(tx, Acknowledged(tx), w, reply, w', base);
  }

  lemma NarrowCommitInv(d: Driver, w: World, reply: Reply, w': World, base: Record)
    requires d.NarrowCommit?
    requires Guarded(w, base) && DriverInv(d, w, base) && Perform(Request(d), w, reply, w')
    ensures Guarded(w', base) && DriverInv(Resume(d, reply), w', base)
  {
    hide ValidRecord, RecordGeneration, RuntimeAuthority, ValidRuntimeState, RecordAuthority, IsOneGrantNarrower;
    var cur, intent := d.cur, NarrowIntent(d.cur, d.next);
    assert cur in w.possible;
    NarrowIntentValid(cur, d.next);
    SameAuthority(intent, cur);
    SameAuthority(Stored(intent), cur);
    CommitKeepsGuard(cur, intent, w, reply, w', base);
  }

  lemma NarrowReverts(tx: Record, cur: Record, next: Record)
    requires Narrows(tx, cur, next) && ValidRecord(tx)
    ensures Reverts(tx, cur)
    ensures tx.transition.Some? && tx.transition.value.direction == Narrowing
    ensures CandidateGeneration(tx) == RecordGeneration(next) && RecordAuthority(next) <= RecordAuthority(tx)
  {
    NarrowIntentValid(cur, next);
  }

  lemma NarrowRunInv(d: Driver, w: World, reply: Reply, w': World, base: Record)
    requires d.NarrowApply? || d.NarrowConfirm?
    requires Guarded(w, base) && DriverInv(d, w, base) && Perform(Request(d), w, reply, w')
    ensures Guarded(w', base) && DriverInv(Resume(d, reply), w', base)
  {
    hide ValidRecord, RecordGeneration, RuntimeAuthority, ValidRuntimeState, RecordAuthority, IsOneGrantNarrower;
    assert d.tx in w.possible;
    NarrowReverts(d.tx, d.cur, d.next);
    if d.NarrowApply? {
      ApplyKeepsGuard(d.tx, d.next, w, w', base);
    }
  }

  lemma NarrowFinalInv(d: Driver, w: World, reply: Reply, w': World, base: Record)
    requires d.NarrowFinal?
    requires Guarded(w, base) && DriverInv(d, w, base) && Perform(Request(d), w, reply, w')
    ensures Guarded(w', base) && DriverInv(Resume(d, reply), w', base)
  {
    hide ValidRecord, RecordGeneration, RuntimeAuthority, ValidRuntimeState, RecordAuthority, IsOneGrantNarrower;
    var tx := d.tx;
    assert tx in w.possible;
    NarrowReverts(tx, d.cur, d.next);
    TakeCandidateValid(tx);
    ServesAuthority(TakeCandidate(tx));
    SameAuthority(Stored(TakeCandidate(tx)), TakeCandidate(tx));
    CommitKeepsGuard(tx, TakeCandidate(tx), w, reply, w', base);
  }

  lemma RevertApplyInv(d: Driver, w: World, reply: Reply, w': World, base: Record)
    requires d.RestoreApply? || d.UndoApply?
    requires Guarded(w, base) && DriverInv(d, w, base) && Perform(Request(d), w, reply, w')
    ensures Guarded(w', base) && DriverInv(Resume(d, reply), w', base)
  {
    hide ValidRecord, RecordGeneration, RuntimeAuthority, ValidRuntimeState, RecordAuthority;
    assert d.tx in w.possible;
    SameAuthority(d.cur, d.tx);
    ApplyKeepsGuard(d.tx, d.cur, w, w', base);
  }

  lemma RevertCommitInv(d: Driver, w: World, reply: Reply, w': World, base: Record)
    requires d.RestoreCommit? || d.UndoCommit?
    requires Guarded(w, base) && DriverInv(d, w, base) && Perform(Request(d), w, reply, w')
    ensures Guarded(w', base) && DriverInv(Resume(d, reply), w', base)
  {
    hide ValidRecord, RecordGeneration, RuntimeAuthority, ValidRuntimeState, RecordAuthority;
    var tx, cur, restored := d.tx, d.cur, Restored(d.tx, d.cur);
    assert tx in w.possible;
    SameAuthority(cur, tx);
    SameAuthority(restored, tx);
    SameAuthority(Stored(restored), tx);
    CommitKeepsGuard(tx, restored, w, reply, w', base);
  }

  lemma DismissInv(d: Driver, w: World, reply: Reply, w': World, base: Record)
    requires d.DismissCommit?
    requires Guarded(w, base) && DriverInv(d, w, base) && Perform(Request(d), w, reply, w')
    ensures Guarded(w', base) && DriverInv(Resume(d, reply), w', base)
  {
    hide ValidRecord, RecordGeneration, RuntimeAuthority, RecordAuthority;
    assert d.tx in w.possible;
    SameAuthority(d.next, d.tx);
    SameAuthority(Stored(d.next), d.tx);
    CommitKeepsGuard(d.tx, d.next, w, reply, w', base);
  }

  lemma FailTeardownInv(d: Driver, w: World, reply: Reply, w': World, base: Record)
    requires d.FailTeardown?
    requires Guarded(w, base) && DriverInv(d, w, base) && Perform(Request(d), w, reply, w')
    ensures Guarded(w', base) && DriverInv(Resume(d, reply), w', base)
  {
    hide ValidRecord, RecordAuthority;
    MarksValid(d.base, d.restore);
    SameAuthority(BlockedRecord(d.base), d.base);
  }

  lemma FailMarkInv(d: Driver, w: World, reply: Reply, w': World, base: Record)
    requires d.FailMark?
    requires Guarded(w, base) && DriverInv(d, w, base) && Perform(Request(d), w, reply, w')
    ensures Guarded(w', base) && DriverInv(Resume(d, reply), w', base)
  {
    hide ValidRecord, RecordAuthority;
    var p :| p in w.possible;
    assert RuntimeAuthority(w.runtime) <= RecordAuthority(d.mark);
    SameAuthority(Stored(d.mark), d.mark);
    CommitKeepsGuard(d.tx, d.mark, w, reply, w', base);
  }

  lemma InvParts(s: State, s': State, base: Record)
    ensures Inv(s, base) <==> Guarded(s.world, base) && DriverInv(s.driver, s.world, base)
    ensures Inv(s', base) <==> Guarded(s'.world, base) && DriverInv(s'.driver, s'.world, base)
  {
    hide Guarded, DriverInv;
  }

  lemma NothingRequested(d: Driver, w: World, reply: Reply, w': World)
    requires d.Idle? || d.Done?
    ensures !Perform(Request(d), w, reply, w')
  {}

  lemma EffectKeepsInv(s: State, reply: Reply, w': World, base: Record)
    requires Inv(s, base) && Perform(Request(s.driver), s.world, reply, w')
    ensures Inv(State(w', Resume(s.driver, reply)), base)
  {
    hide *;
    var d, w := s.driver, s.world;
    InvParts(s, State(w', Resume(d, reply)), base);
    match d
    case StableApply(_, _) => RecoveryApplyInv(d, w, reply, w', base);
    case DurableApply(_, _) => RecoveryApplyInv(d, w, reply, w', base);
    case StableInspect(_, _) => RecoveryInspectInv(d, w, reply, w', base);
    case StableConfirm(_, _) => RecoveryInspectInv(d, w, reply, w', base);
    case TransitionInspect(_, _) => RecoveryInspectInv(d, w, reply, w', base);
    case StableCommit(_, _) => RecoveryCommitInv(d, w, reply, w', base);
    case DurableCommit(_, _) => RecoveryCommitInv(d, w, reply, w', base);
    case CandidateCommit(_, _) => CandidateCommitInv(d, w, reply, w', base);
    case WidenCommit(_, _) => WidenCommitInv(d, w, reply, w', base);
    case WidenApply(_, _, _) => WidenRunInv(d, w, reply, w', base);
    case WidenConfirm(_, _, _) => WidenRunInv(d, w, reply, w', base);
    case WidenFinal(_, _, _) => WidenFinalInv(d, w, reply, w', base);
    case NarrowCommit(_, _) => NarrowCommitInv(d, w, reply, w', base);
    case NarrowApply(_, _, _) => NarrowRunInv(d, w, reply, w', base);
    case NarrowConfirm(_, _, _) => NarrowRunInv(d, w, reply, w', base);
    case NarrowFinal(_, _, _) => NarrowFinalInv(d, w, reply, w', base);
    case RestoreApply(_, _) => RevertApplyInv(d, w, reply, w', base);
    case RestoreCommit(_, _) => RevertCommitInv(d, w, reply, w', base);
    case UndoApply(_, _) => RevertApplyInv(d, w, reply, w', base);
    case UndoCommit(_, _) => RevertCommitInv(d, w, reply, w', base);
    case DismissCommit(_, _) => DismissInv(d, w, reply, w', base);
    case FailTeardown(_, _, _) => FailTeardownInv(d, w, reply, w', base);
    case FailMark(_, _, _) => FailMarkInv(d, w, reply, w', base);
    case Idle => NothingRequested(d, w, reply, w');
    case Done(_, _) => NothingRequested(d, w, reply, w');
  }
}
