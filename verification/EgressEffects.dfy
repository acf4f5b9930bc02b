/** What the operator's commands do: the record and the proxy that a grant, a revoke, a dismissal or a recovery
    leaves behind, stated on rows and acknowledgements (internal/cli/session.go, session_protocol.go). */
module EgressEffects {
  import opened Wrappers
  import opened ExactEgress
  import opened SessionRecord
  import opened EgressMachine
  import opened EgressSafety
  import opened EgressTheorems
  import opened AdapterLemmas

  // ---------------------------------------------------------------------------------------------
  // The effect of a command, on the rows

  predicate HasDest(grants: seq<SessionRecord.Grant>, dest: Destination) {
    exists g :: g in grants && g.dest == dest
  }

  predicate HasId(grants: seq<SessionRecord.Grant>, id: nat) {
    exists g :: g in grants && g.id == id
  }

  /** One row of that id is gone, every other row is kept, in order. */
  predicate RowGone(was: seq<SessionRecord.Grant>, now: seq<SessionRecord.Grant>, id: nat) {
    exists i :: 0 <= i < |was| && was[i].id == id && now == was[..i] + was[i + 1..]
  }

  /** What a command that answers nil has done to the rows, the revision and the acknowledgements of record c. */
  predicate Edited(c: Record, grants: seq<SessionRecord.Grant>, revision: int, acks: map<Destination, int>, cmd: Command) {
    match cmd
    case RecoverOnly => grants == c.grants && revision == c.revision && acks == c.acks
    case Grant(dest, id) =>
      && acks == c.acks
      && if HasDest(c.grants, dest) then grants == c.grants && revision == c.revision
         else grants == c.grants + [SessionRecord.Grant(id, dest)] && revision == c.revision + 1
    case Revoke(id) => acks == c.acks && RowGone(c.grants, grants, id) && revision == c.revision + 1
    case Dismiss(dest, now) => grants == c.grants && revision == c.revision && acks == c.acks[dest := now]
  }

  /** Nothing else differs but the version and the applied generation, and no marker is left. */
  predicate SameFrame(c: Record, r: Record) {
    r == c.(grants := r.grants, revision := r.revision, acks := r.acks, applied := r.applied, transition := None,
            version := r.version)
  }

  /** The command on record c ended in record r with a nil answer. */
  predicate Achieved(c: Record, r: Record, cmd: Command) {
    SameFrame(c, r) && Edited(c, r.grants, r.revision, r.acks, cmd)
  }

  /** The same session, with the same acknowledgements. */
  predicate SameSession(c: Record, r: Record) {
    r == c.(status := r.status, ownerVerified := r.ownerVerified, grants := r.grants, revision := r.revision,
            applied := r.applied, transition := r.transition, uncertain := r.uncertain, version := r.version)
  }

  /** An error leaves the authority as it was, unless a record under a marker is left for the next recovery. */
  predicate Undone(c: Record, r: Record) {
    SameSession(c, r) && (r.status == Stopped || r.transition.None? ==> Pair(r) == Pair(c))
  }

  /** Which commands are carried out when no effect fails. */
  predicate Permitted(c: Record, cmd: Command) {
    match cmd
    case RecoverOnly => true
    case Grant(dest, id) => c.grantable && Grantable(dest) && (HasDest(c.grants, dest) || !HasId(c.grants, id))
    case Revoke(id) => c.grantable && HasId(c.grants, id)
    case Dismiss(dest, _) => c.grantable && Grantable(dest)
  }

  /** What recovery of record tx may leave: its own authority or the one its narrow marker names, nothing else
      changed, and no marker. */
  predicate RecoveredFrom(tx: Record, c: Record) {
    && SameFrame(tx, c) && c.acks == tx.acks && c.status == Running
    && Pair(c) in {Pair(tx), PendingPair(tx)}
  }

  // ---------------------------------------------------------------------------------------------
  // The drivers pursue it

  /** Still recovering record tx for this command, or failing closed from there. */
  predicate OnRecord(d: Driver, tx: Record, cmd: Command) {
    match d
    case Idle | FailTeardown(_, _, _) | FailMark(_, _, _) => true
    case Done(ok, _) => !ok
    case _ => RecoveryPosition(d) && d.tx == tx && d.cmd == cmd && tx.status == Running
  }

  predicate GrantUnderWay(cmd: Command, c: Record, cur: Record, next: Record) {
    cmd.Grant? && cur == c && !HasDest(c.grants, cmd.dest)
    && next == c.(grants := c.grants + [SessionRecord.Grant(cmd.id, cmd.dest)], revision := c.revision + 1)
  }

  predicate RevokeUnderWay(cmd: Command, c: Record, cur: Record, next: Record) {
    cmd.Revoke? && cur == c && RowGone(c.grants, next.grants, cmd.id)
    && next == c.(grants := next.grants, revision := c.revision + 1)
  }

  predicate RevertUnderWay(c: Record, tx: Record, cur: Record) {
    cur == c && Pair(tx) == Pair(c) && SameSession(c, tx)
  }

  /** The command on record c, past its recovery. */
  predicate Pursues(d: Driver, c: Record, cmd: Command) {
    && c.status == Running && c.transition.None?
    && match d
       case Idle => true
       case Done(ok, r) => if ok then Achieved(c, r, cmd) else Undone(c, r)
       case WidenCommit(cur, next) => GrantUnderWay(cmd, c, cur, next)
       case WidenApply(tx, cur, next) => GrantUnderWay(cmd, c, cur, next) && tx == Stored(WidenIntent(c, next))
       case WidenConfirm(tx, cur, next) => GrantUnderWay(cmd, c, cur, next) && tx == Stored(WidenIntent(c, next))
       case WidenFinal(tx, cur, next) => GrantUnderWay(cmd, c, cur, next) && tx == Stored(WidenIntent(c, next))
       case NarrowCommit(cur, next) => RevokeUnderWay(cmd, c, cur, next)
       case NarrowApply(tx, cur, next) => RevokeUnderWay(cmd, c, cur, next) && tx == Stored(NarrowIntent(c, next))
       case NarrowConfirm(tx, cur, next) => RevokeUnderWay(cmd, c, cur, next) && tx == Stored(NarrowIntent(c, next))
       case NarrowFinal(tx, cur, next) => RevokeUnderWay(cmd, c, cur, next) && tx == Stored(NarrowIntent(c, next))
       case RestoreApply(tx, cur) => RevertUnderWay(c, tx, cur)
       case RestoreCommit(tx, cur) => RevertUnderWay(c, tx, cur)
       case UndoApply(tx, cur) => RevertUnderWay(c, tx, cur)
       case UndoCommit(tx, cur) => RevertUnderWay(c, tx, cur)
       case DismissCommit(tx, next) => cmd.Dismiss? && tx == c && next == c.(acks := c.acks[cmd.dest := cmd.now])
       case FailTeardown(tx, upper, restore) =>
         && Undone(c, tx) && Undone(c, upper)
         && (restore.Some? ==> Pair(restore.value) == Pair(c)) && (restore.None? ==> Pair(upper) == Pair(c))
       case FailMark(tx, mark, _) => Undone(c, tx) && Undone(c, mark)
       case _ => false
  }

  lemma StartsOnRecord(tx: Record, cmd: Command)
    ensures OnRecord(Start(tx, cmd), tx, cmd)
  {
    hide RecordGeneration;
  }

  /** Appending on rows: refused, already there, or one new row at the end. */
  lemma AppendRows(c: Record, dest: Destination, id: nat)
    ensures var a := AppendGrant(c, dest, id);
            if !(c.grantable && Grantable(dest)) then a.Refused?
            else if HasDest(c.grants, dest) then a.Existing?
            else a.Appended? && a.next == c.(grants := c.grants + [SessionRecord.Grant(id, dest)], revision := c.revision + 1)
  {
    FindDestFinds(c.grants, dest);
    hide Grantable, FindDest;
  }

  /** Revoking on rows: refused, or the row of that id gone. */
  lemma RevokeRows(c: Record, id: nat)
    ensures RevokeGrant(c, id).Some? <==> c.grantable && HasId(c.grants, id)
    ensures RevokeGrant(c, id).Some? ==>
              var next := RevokeGrant(c, id).value;
              RowGone(c.grants, next.grants, id) && next == c.(grants := next.grants, revision := c.revision + 1)
  {
    WithoutIdFinds(c.grants, id);
    if RevokeGrant(c, id).Some? {
      var i := WithoutIdCuts(c.grants, id);
      GoneAt(c.grants, i, id);
    }
    hide WithoutId, RowGone;
  }

  lemma ProceedPursues(c: Record, cmd: Command)
    requires c.status == Running && c.transition.None?
    ensures Pursues(Proceed(c, cmd), c, cmd)
  {
    hide ValidRuntimeState, RowGone, Grantable, HasDest, HasId, AppendGrant, RevokeGrant, WidenIntent, NarrowIntent;
    match cmd {
      case RecoverOnly =>
      case Grant(dest, id) => AppendRows(c, dest, id);
      case Revoke(id) => RevokeRows(c, id);
      case Dismiss(_, _) =>
    }
  }

  lemma GoneAt(was: seq<SessionRecord.Grant>, i: nat, id: nat)
    requires i < |was| && was[i].id == id
    ensures RowGone(was, was[..i] + was[i + 1..], id)
  {
  }

  lemma GrantStep(d: Driver, reply: Reply, c: Record, cmd: Command)
    requires Pursues(d, c, cmd) && (d.WidenCommit? || d.WidenApply? || d.WidenConfirm? || d.WidenFinal?)
    ensures Pursues(Resume(d, reply), c, cmd)
  {
    hide RecordGeneration, HasDest;
  }

  lemma RevokeStep(d: Driver, reply: Reply, c: Record, cmd: Command)
    requires Pursues(d, c, cmd) && (d.NarrowCommit? || d.NarrowApply? || d.NarrowConfirm? || d.NarrowFinal?)
    ensures Pursues(Resume(d, reply), c, cmd)
  {
    hide RecordGeneration, RowGone;
  }

  lemma PursuesStep(d: Driver, reply: Reply, c: Record, cmd: Command)
    requires Pursues(d, c, cmd)
    ensures Pursues(Resume(d, reply), c, cmd)
  {
    hide RecordGeneration, CandidateGeneration, Proceed, RowGone, HasDest, GrantUnderWay, RevokeUnderWay;
    if d.WidenCommit? || d.WidenApply? || d.WidenConfirm? || d.WidenFinal? {
      GrantStep(d, reply, c, cmd);
    } else if d.NarrowCommit? || d.NarrowApply? || d.NarrowConfirm? || d.NarrowFinal? {
      RevokeStep(d, reply, c, cmd);
    }
  }

  lemma RecoveryResumesOn(d: Driver, reply: Reply, tx: Record, cmd: Command)
    requires RecoveryPosition(d) && OnRecord(d, tx, cmd)
    requires d.CandidateCommit? ==> tx.transition.Some? && tx.transition.value.direction == Narrowing
    requires d.StableInspect? ==> tx.transition.None?
    ensures OnRecord(Resume(d, reply), tx, cmd)
            || (Resume(d, reply) == Proceed(Recovered(d), cmd) && RecoveredFrom(tx, Recovered(d))
                && (d.StableInspect? || (Request(d).Commit? && reply == CommitOk)))
    ensures Request(d).Commit? ==> Recovered(d) == Stored(Request(d).candidate)
  {
    hide RecordGeneration, CandidateGeneration, Proceed;
  }

  lemma StableHasNoMarker(s: State, base: Record)
    requires Inv(s, base) && s.driver.StableInspect?
    ensures s.driver.tx.transition.None?
  {
    hide Guarded, ValidRecord, RecordGeneration;
  }

  /** The state in which recovery of tx ended with record c. */
  ghost predicate EndsRecovery(s: State, tx: Record, c: Record, cmd: Command) {
    Recovers(s, c, cmd) && RecoveredFrom(tx, c)
  }

  lemma RecoveryStepOn(s: State, s': State, base: Record, tx: Record, cmd: Command)
    requires Inv(s, base) && EffectStep(s, s') && RecoveryPosition(s.driver) && OnRecord(s.driver, tx, cmd)
    ensures OnRecord(s'.driver, tx, cmd) || EndsRecovery(s', tx, Recovered(s.driver), cmd)
  {
    hide RecordGeneration, ValidRecord, Proceed, Inv, Request, Resume, RecoveredFrom;
    var reply := TakeReply(s, s');
    RecoveryAt(s, base);
    if s.driver.StableInspect? {
      StableHasNoMarker(s, base);
    }
    RecoveryResumesOn(s.driver, reply, tx, cmd);
  }

  lemma FailingStays(d: Driver, reply: Reply, tx: Record, cmd: Command)
    requires OnRecord(d, tx, cmd) && !RecoveryPosition(d)
    ensures OnRecord(Resume(d, reply), tx, cmd)
  {
  }

  /** Recovery ended in the j-th state with record c, and the driver has pursued the command on it since. */
  ghost predicate Pursuing(run: seq<State>, k: nat, tx: Record, cmd: Command, j: nat, c: Record)
    requires k < |run|
  {
    j <= k && EndsRecovery(run[j], tx, c, cmd) && Pursues(run[k].driver, c, cmd)
  }

  ghost predicate InCommand(run: seq<State>, k: nat, tx: Record, cmd: Command)
    requires k < |run|
  {
    exists j, c :: Pursuing(run, k, tx, cmd, j, c)
  }

  lemma IdleCounts(tx: Record, c: Record, cmd: Command)
    ensures OnRecord(Idle, tx, cmd)
    ensures c.status == Running && c.transition.None? ==> Pursues(Idle, c, cmd)
  {}

  lemma PursuedFrame(d: Driver, c: Record, cmd: Command)
    requires Pursues(d, c, cmd)
    ensures c.status == Running && c.transition.None?
  {}

  lemma RecoveringGoesOn(run: seq<State>, k: nat, base: Record, tx: Record, cmd: Command)
    requires 0 < k < |run| && Inv(run[k - 1], base) && OnRecord(run[k - 1].driver, tx, cmd)
    requires EffectStep(run[k - 1], run[k]) || CrashStep(run[k - 1], run[k])
    ensures OnRecord(run[k].driver, tx, cmd) || InCommand(run, k, tx, cmd)
  {
    hide EffectStep, Inv, OnRecord, Pursues, Recovers, RecoveredFrom;
    var s, s' := run[k - 1], run[k];
    if !EffectStep(s, s') {
      IdleCounts(tx, tx, cmd);
    } else if RecoveryPosition(s.driver) {
      RecoveryStepOn(s, s', base, tx, cmd);
      if !OnRecord(s'.driver, tx, cmd) {
        var c := Recovered(s.driver);
        EndPursues(s', tx, c, cmd);
        assert Pursuing(run, k, tx, cmd, k, c);
      }
    } else {
      var reply := TakeReply(s, s');
      FailingStays(s.driver, reply, tx, cmd);
    }
  }

  lemma EndPursues(s: State, tx: Record, c: Record, cmd: Command)
    requires EndsRecovery(s, tx, c, cmd)
    ensures Pursues(s.driver, c, cmd)
  {
    hide Pursues, Proceed;
    ProceedPursues(c, cmd);
  }

  lemma CommandGoesOn(run: seq<State>, k: nat, tx: Record, cmd: Command)
    requires 0 < k < |run| && InCommand(run, k - 1, tx, cmd)
    requires EffectStep(run[k - 1], run[k]) || CrashStep(run[k - 1], run[k])
    ensures InCommand(run, k, tx, cmd)
  {
    hide EffectStep, Pursues, EndsRecovery;
    var j, c :| Pursuing(run, k - 1, tx, cmd, j, c);
    var s, s' := run[k - 1], run[k];
    if EffectStep(s, s') {
      var reply := TakeReply(s, s');
      PursuesStep(s.driver, reply, c, cmd);
    } else {
      PursuedFrame(s.driver, c, cmd);
      IdleCounts(tx, c, cmd);
    }
    assert Pursuing(run, k, tx, cmd, j, c);
  }

  lemma {:induction false} CommandRuns(run: seq<State>, k: nat, base: Record, tx: Record, cmd: Command)
    requires IsOperation(run) && k < |run| && Inv(run[0], base) && run[0].driver == Start(tx, cmd)
    ensures Inv(run[k], base) && (OnRecord(run[k].driver, tx, cmd) || InCommand(run, k, tx, cmd))
  {
    hide EffectStep, Inv, OnRecord, InCommand, Start;
    if k == 0 {
      StartsOnRecord(tx, cmd);
    } else {
      CommandRuns(run, k - 1, base, tx, cmd);
      var s, s' := run[k - 1], run[k - 1 + 1];
      assert EffectStep(s, s') || CrashStep(s, s');
      StepKeepsInv(s, s', base);
      if OnRecord(run[k - 1].driver, tx, cmd) {
        RecoveringGoesOn(run, k, base, tx, cmd);
      } else {
        CommandGoesOn(run, k, tx, cmd);
      }
    }
  }

  // ---------------------------------------------------------------------------------------------
  // A nil answer means the command was carried out

  lemma AnswerPursued(d: Driver, c: Record, cmd: Command)
    requires Pursues(d, c, cmd) && d.Done?
    ensures if d.ok then Achieved(c, d.tx, cmd) else Undone(c, d.tx)
  {}

  lemma NilIsPursued(d: Driver, tx: Record, cmd: Command)
    requires OnRecord(d, tx, cmd)
    ensures !(d.Done? && d.ok)
  {}

  /** Whenever a command started on record tx answers nil, it has been carried out on the record recovery left: a
      grant added exactly its row, or found a row of that destination, a revoke removed exactly the row of that id,
      a dismissal set exactly that acknowledgement, and nothing else changed. */
  lemma NilMeansDone(run: seq<State>, k: nat, base: Record, tx: Record, cmd: Command, r: Record)
    returns (j: nat, c: Record)
    requires IsOperation(run) && k < |run| && Inv(run[0], base) && run[0].driver == Start(tx, cmd)
    requires run[k].driver == Done(true, r)
    ensures j <= k && run[j].world.possible == {c} && RecoveredFrom(tx, c) && Achieved(c, r, cmd)
  {
    hide IsOperation, Inv, Start, OnRecord, Pursues, RecoveredFrom, Achieved;
    CommandRuns(run, k, base, tx, cmd);
    if OnRecord(run[k].driver, tx, cmd) {
      NilIsPursued(run[k].driver, tx, cmd);
    }
    j, c :| Pursuing(run, k, tx, cmd, j, c);
    AnswerPursued(run[k].driver, c, cmd);
  }

  /** When a command past its recovery answers an error, the authority is what recovery left, unless the record is
      left running under a marker. */
  lemma ErrorUndoes(run: seq<State>, k: nat, base: Record, tx: Record, cmd: Command, r: Record, j: nat, c: Record)
    requires IsOperation(run) && j <= k < |run| && Inv(run[0], base)
    requires EndsRecovery(run[j], tx, c, cmd) && run[k].driver == Done(false, r)
    ensures r.status == Stopped || r.transition.None? ==> r.grants == c.grants && r.revision == c.revision
    ensures r.acks == c.acks && r.persistent == c.persistent && r.grantable == c.grantable
    decreases k
  {
    hide IsOperation, Inv, Pursues, EndsRecovery;
    PursuedSince(run, k, tx, cmd, j, c);
    AnswerPursued(run[k].driver, c, cmd);
  }

  lemma {:induction false} PursuedSince(run: seq<State>, k: nat, tx: Record, cmd: Command, j: nat, c: Record)
    requires IsOperation(run) && j <= k < |run| && EndsRecovery(run[j], tx, c, cmd)
    ensures Pursues(run[k].driver, c, cmd)
    decreases k
  {
    hide EffectStep, Pursues, EndsRecovery;
    if j == k {
      EndPursues(run[j], tx, c, cmd);
    } else {
      PursuedSince(run, k - 1, tx, cmd, j, c);
      var s, s' := run[k - 1], run[k - 1 + 1];
      assert EffectStep(s, s') || CrashStep(s, s');
      if EffectStep(s, s') {
        var reply := TakeReply(s, s');
        PursuesStep(s.driver, reply, c, cmd);
      } else {
        PursuedFrame(s.driver, c, cmd);
        IdleCounts(tx, c, cmd);
      }
    }
  }

  /** A nil grant: the record authorises the destination and the proxy's overlay holds it. */
  lemma GrantGrants(run: seq<State>, k: nat, base: Record, tx: Record, dest: Destination, id: nat, r: Record)
    requires IsOperation(run) && k < |run| && Inv(run[0], base) && run[0].driver == Start(tx, Command.Grant(dest, id))
    requires run[k].driver == Done(true, r)
    ensures dest in RecordAuthority(r)
    ensures run[k].world.runtime.Serving? && dest in run[k].world.runtime.gen.hash.overlay
  {
    hide IsOperation, Inv, Start, RecoveredFrom;
    var j, c := NilMeansDone(run, k, base, tx, Command.Grant(dest, id), r);
    CommandRuns(run, k, base, tx, Command.Grant(dest, id));
    GrantedRow(c, r, dest, id);
    DoneServes(run[k], base);
    GrantedServed(r, dest);
  }

  lemma GrantedRow(c: Record, r: Record, dest: Destination, id: nat)
    requires Achieved(c, r, Command.Grant(dest, id))
    ensures HasDest(r.grants, dest) && dest in RecordAuthority(r)
  {
    if !HasDest(c.grants, dest) {
      assert SessionRecord.Grant(id, dest) in r.grants;
    }
    var g :| g in r.grants && g.dest == dest;
  }

  lemma DoneServes(s: State, base: Record)
    requires Inv(s, base) && s.driver.Done? && s.driver.ok
    ensures s.world.runtime == Serving(RecordGeneration(s.driver.tx)) && s.world.possible == {s.driver.tx}
    ensures ValidRecord(s.driver.tx)
  {
    hide ValidRecord, RecordGeneration, RecordAuthority, RuntimeAuthority;
    assert s.driver.tx in s.world.possible;
  }

  lemma GrantedServed(r: Record, dest: Destination)
    ensures dest in RecordAuthority(r) <==> dest in RecordGeneration(r).hash.overlay
  {
    EffectiveIsAuthority(r.persistent, r.grants);
    assert dest in (set d | d in Effective(r.persistent, r.grants)) <==> dest in Effective(r.persistent, r.grants);
  }

  /** A nil revoke: no row of that id is left, and the proxy's overlay lost that row's destination unless a rule of
      the profile has it too. */
  lemma RevokeRevokes(run: seq<State>, k: nat, base: Record, tx: Record, id: nat, r: Record) returns (gone: Destination)
    requires IsOperation(run) && k < |run| && Inv(run[0], base) && run[0].driver == Start(tx, Revoke(id))
    requires run[k].driver == Done(true, r)
    ensures !HasId(r.grants, id) && (gone !in r.persistent ==> gone !in RecordAuthority(r))
    ensures run[k].world.runtime.Serving?
    ensures gone !in r.persistent ==> gone !in run[k].world.runtime.gen.hash.overlay
  {
    hide IsOperation, Inv, Start, RecoveredFrom;
    var j, c := NilMeansDone(run, k, base, tx, Revoke(id), r);
    CommandRuns(run, k, base, tx, Revoke(id));
    CommandRuns(run, j, base, tx, Revoke(id));
    OnlyRecordValid(run[j], base, c);
    var i :| 0 <= i < |c.grants| && c.grants[i].id == id && r.grants == c.grants[..i] + c.grants[i + 1..];
    gone := c.grants[i].dest;
    RowIsGone(c, r, i);
    DoneServes(run[k], base);
    GrantedServed(r, gone);
  }

  lemma OnlyRecordValid(s: State, base: Record, c: Record)
    requires Inv(s, base) && s.world.possible == {c}
    ensures ValidRecord(c)
  {
    hide ValidRecord, DriverInv, RuntimeAuthority, RecordAuthority;
    assert c in s.world.possible;
  }

  lemma RowIsGone(c: Record, r: Record, i: nat)
    requires ValidRecord(c) && i < |c.grants| && r.grants == c.grants[..i] + c.grants[i + 1..]
    ensures !HasId(r.grants, c.grants[i].id)
    ensures c.grants[i].dest !in r.persistent ==> c.grants[i].dest !in RecordAuthority(r)
  {
    hide ValidRuntimeState, Grantable;
    forall g | g in r.grants
      ensures g.id != c.grants[i].id && g.dest != c.grants[i].dest
    {
      var k :| 0 <= k < |r.grants| && r.grants[k] == g;
      assert g == c.grants[if k < i then k else k + 1];
    }
  }

  // ---------------------------------------------------------------------------------------------
  // With cooperative effects every permitted command is carried out

  lemma IntentBuilds(c: Record, dest: Destination, id: nat)
    requires Stable(c) && AppendGrant(c, dest, id).Appended?
    ensures ValidRuntimeState(WidenIntent(c, AppendGrant(c, dest, id).next)) <==> !HasId(c.grants, id)
  {
    WidenRefusedIff(c, dest, id);
    hide AppendGrant, ValidRuntimeState, Stable;
  }

  lemma GrantProceeds(c: Record, dest: Destination, id: nat)
    requires Stable(c)
    ensures var cmd := Command.Grant(dest, id);
            var d := Proceed(c, cmd);
            if !Permitted(c, cmd) then d == Done(false, c)
            else if HasDest(c.grants, dest) then d == Done(true, c)
            else d == WidenCommit(c, c.(grants := c.grants + [SessionRecord.Grant(id, dest)], revision := c.revision + 1))
  {
    hide ValidRuntimeState, Grantable, Stable, AppendGrant, HasDest, HasId, WidenIntent;
    AppendRows(c, dest, id);
    if AppendGrant(c, dest, id).Appended? {
      IntentBuilds(c, dest, id);
    }
  }

  lemma NarrowBuilds(c: Record, id: nat)
    requires Stable(c) && RevokeGrant(c, id).Some?
    ensures ValidRuntimeState(NarrowIntent(c, RevokeGrant(c, id).value))
  {
    RevokeGrantCuts(c, id);
    NarrowIntentValid(c, RevokeGrant(c, id).value);
    hide ValidRuntimeState, Stable, RevokeGrant, NarrowIntent, Cuts, ValidGrantList;
  }

  lemma RevokeProceeds(c: Record, id: nat)
    requires Stable(c)
    ensures var d := Proceed(c, Revoke(id));
            if !Permitted(c, Revoke(id)) then d == Done(false, c)
            else d.NarrowCommit? && d.cur == c && RowGone(c.grants, d.next.grants, id)
                 && d.next == c.(grants := d.next.grants, revision := c.revision + 1)
  {
    hide ValidRuntimeState, Stable, RowGone, HasId, NarrowIntent, RevokeGrant;
    RevokeRows(c, id);
    if RevokeGrant(c, id).Some? {
      NarrowBuilds(c, id);
    }
  }

  lemma CoopWiden(c: Record, next: Record, w: World)
    ensures CoopRun(State(w, WidenCommit(c, next)), 4).driver == Done(true, Stored(Acknowledged(Stored(WidenIntent(c, next)))))
  {
    hide RecordGeneration, Acknowledged, WidenIntent, Stored;
    var s := State(w, WidenCommit(c, next));
    CoopUnroll(s, 4);
    var t := CoopNext(s);
    assert t.driver == WidenApply(Stored(WidenIntent(c, next)), c, next);
    CoopUnroll(t, 3);
    CoopUnroll(CoopNext(t), 2);
    CoopUnroll(CoopNext(CoopNext(t)), 1);
  }

  lemma CoopNarrow(c: Record, next: Record, w: World)
    ensures CoopRun(State(w, NarrowCommit(c, next)), 4).driver == Done(true, Stored(TakeCandidate(Stored(NarrowIntent(c, next)))))
  {
    var s := State(w, NarrowCommit(c, next));
    var tx := Stored(NarrowIntent(c, next));
    assert tx.transition.Some?;
    hide RecordGeneration, TakeCandidate, NarrowIntent, Stored;
    CoopUnroll(s, 4);
    var t := CoopNext(s);
    assert t.driver == NarrowApply(tx, c, next);
    CoopUnroll(t, 3);
    CoopUnroll(CoopNext(t), 2);
    CoopUnroll(CoopNext(CoopNext(t)), 1);
  }

  /** On a record that recovery left, a command whose effects cooperate answers nil within four effects exactly when
      it is permitted, and then it has been carried out; otherwise it is refused with nothing changed. */
  lemma CooperativeCommand(c: Record, cmd: Command, w: World)
    requires Stable(c)
    ensures var s := CoopRun(State(w, Proceed(c, cmd)), 4);
            && s.driver.Done? && (s.driver.ok <==> Permitted(c, cmd))
            && (s.driver.ok ==> Achieved(c, s.driver.tx, cmd))
            && (!s.driver.ok ==> s == State(w, Done(false, c)))
  {
    hide RecordGeneration, ValidRecord, RowGone, HasDest, HasId, Grantable, CoopRun;
    match cmd {
      case RecoverOnly => CoopStays(State(w, Done(true, c)));
      case Grant(dest, id) =>
        GrantProceeds(c, dest, id);
        if Permitted(c, cmd) && !HasDest(c.grants, dest) {
          CoopWiden(c, c.(grants := c.grants + [SessionRecord.Grant(id, dest)], revision := c.revision + 1), w);
        } else {
          CoopStays(State(w, Done(true, c)));
          CoopStays(State(w, Done(false, c)));
        }
      case Revoke(id) =>
        RevokeProceeds(c, id);
        if Permitted(c, cmd) {
          CoopNarrow(c, Proceed(c, cmd).next, w);
        } else {
          CoopStays(State(w, Done(false, c)));
        }
      case Dismiss(dest, now) =>
        if Permitted(c, cmd) {
          CoopDismiss(c, c.(acks := c.acks[dest := now]), w);
        } else {
          CoopStays(State(w, Done(false, c)));
        }
    }
  }

  lemma CoopStays(s: State)
    requires s.driver.Done?
    ensures CoopRun(s, 4) == s
  {}

  lemma CoopDismiss(c: Record, next: Record, w: World)
    ensures CoopRun(State(w, DismissCommit(c, next)), 4).driver == Done(true, Stored(next))
  {
    CoopUnroll(State(w, DismissCommit(c, next)), 4);
  }

  // ---------------------------------------------------------------------------------------------
  // What a failed effect leads to when the effects after it cooperate

  lemma CoopFailClosed(tx: Record, base: Record, restore: Option<Record>, w: World)
    ensures var mark := StoppedRecord(base, restore);
            CoopRun(State(w, FailTeardown(tx, base, restore)), 2)
            == State(World({Stored(mark)}, Absent, ProvenAbsent), Done(false, Stored(mark)))
  {
    CoopUnroll(State(w, FailTeardown(tx, base, restore)), 2);
    CoopUnroll(CoopNext(State(w, FailTeardown(tx, base, restore))), 1);
  }

  /** A grant that fails after its intent is durable ends stopped, without a proxy, with the rows it had before. */
  lemma FailedGrantStops(d: Driver, reply: Reply, w: World)
    requires d.WidenApply? || d.WidenConfirm? || d.WidenFinal?
    requires d.WidenApply? ==> reply != ApplyOk
    requires d.WidenConfirm? ==> reply != Observed(RecordGeneration(d.next))
    requires d.WidenFinal? ==> reply != CommitOk
    ensures var s := CoopRun(State(w, Resume(d, reply)), 2);
            && s.driver.Done? && !s.driver.ok && s.world.runtime == Absent && s.world.possible == {s.driver.tx}
            && s.driver.tx.status == Stopped && Pair(s.driver.tx) == Pair(d.cur)
  {
    hide RecordGeneration, CoopRun;
    CoopFailClosed(d.tx, d.tx, Some(d.cur), w);
  }

  lemma CoopRevert(tx: Record, cur: Record, w: World)
    ensures var restored := Stored(Restored(tx, cur));
            CoopRun(State(w, RestoreApply(tx, cur)), 2)
            == CoopRun(State(w, UndoApply(tx, cur)), 2)
            == State(World({restored}, Serving(RecordGeneration(cur)), Seen(RecordGeneration(cur))), Done(false, restored))
  {
    hide RecordGeneration, Restored;
    CoopUnroll(State(w, RestoreApply(tx, cur)), 2);
    CoopUnroll(CoopNext(State(w, RestoreApply(tx, cur))), 1);
    CoopUnroll(State(w, UndoApply(tx, cur)), 2);
    CoopUnroll(CoopNext(State(w, UndoApply(tx, cur))), 1);
  }

  /** A revoke whose apply, inspect or final commit is known to have failed ends with the old rows, no marker, and
      the proxy serving the old generation again. */
  lemma FailedRevokeRestores(d: Driver, reply: Reply, w: World)
    requires d.NarrowApply? || d.NarrowConfirm? || d.NarrowFinal?
    requires d.NarrowApply? ==> reply != ApplyOk
    requires d.NarrowConfirm? ==> reply != Observed(RecordGeneration(d.next))
    requires d.NarrowFinal? ==> reply == CommitFailed
    ensures var s := CoopRun(State(w, Resume(d, reply)), 2);
            && s.driver.Done? && !s.driver.ok && s.world.possible == {s.driver.tx}
            && s.world.runtime == Serving(RecordGeneration(d.cur))
            && Pair(s.driver.tx) == Pair(d.cur) && s.driver.tx.transition.None? && s.driver.tx.applied == d.cur.applied
            && s.driver.tx.status == d.tx.status
  {
    hide RecordGeneration, CoopRun;
    CoopRevert(d.tx, d.cur, w);
  }

  /** The failure mark is tried twice: a first attempt that does not succeed is followed by one more, and no third. */
  lemma MarkTriedTwice(tx: Record, base: Record, restore: Option<Record>, torn: Reply, first: Reply, second: Reply)
    requires first != CommitOk && second != CommitOk
    ensures var d := Resume(FailTeardown(tx, base, restore), torn);
            && d.FailMark? && Request(d) == Commit(tx, d.mark)
            && Request(Resume(d, first)) == Commit(tx, d.mark)
            && Resume(Resume(d, first), second) == Done(false, tx)
            && Resume(d, CommitOk) == Resume(Resume(d, first), CommitOk) == Done(false, Stored(d.mark))
            && d.mark.uncertain && (d.mark.status == Stopped <==> torn == TeardownOk || base.status == Stopped)
  {
  }

  // ---------------------------------------------------------------------------------------------
  // A whole command, recovery included, with cooperative effects

  lemma AcknowledgedStable(r: Record)
    requires Recoverable(r)
    ensures Stable(Stored(Acknowledged(r)))
  {
    AcknowledgedValid(r);
    StoredValid(Acknowledged(r));
  }

  lemma TakenStable(r: Record)
    requires Recoverable(r) && IsNarrowing(r)
    ensures Stable(Stored(TakeCandidate(r)))
  {
    TransitionGrantable(r);
    TakeCandidateValid(r);
    StoredValid(TakeCandidate(r));
    SameAuthority(Stored(TakeCandidate(r)), TakeCandidate(r));
  }

  /** The command ended as it should on the record c that recovery left. */
  predicate Finishes(s: State, c: Record, cmd: Command) {
    && s.driver.Done? && (s.driver.ok <==> Permitted(c, cmd))
    && (s.driver.ok ==> Achieved(c, s.driver.tx, cmd)) && (!s.driver.ok ==> s.driver.tx == c)
  }

  lemma {:induction false} CoopAfter(s: State, m: nat, n: nat)
    ensures CoopRun(s, m + n) == CoopRun(CoopRun(s, m), n)
    decreases m
  {
    if m == 0 || s.driver.Done? {
    } else {
      CoopAfter(CoopNext(s), m - 1, n);
    }
  }

  lemma DoneStays(s: State, n: nat)
    requires s.driver.Done?
    ensures CoopRun(s, n) == s
  {}

  lemma CommandFinishes(c: Record, cmd: Command, w: World, n: nat)
    requires Stable(c) && n >= 4
    ensures Finishes(CoopRun(State(w, Proceed(c, cmd)), n), c, cmd)
  {
    hide CoopRun, Stable, Proceed, Achieved, Permitted;
    CooperativeCommand(c, cmd, w);
    CoopAfter(State(w, Proceed(c, cmd)), 4, n - 4);
    DoneStays(CoopRun(State(w, Proceed(c, cmd)), 4), n - 4);
  }

  lemma CommitFinishes(s: State, r: Record, cmd: Command, n: nat)
    requires Recoverable(r) && n >= 5 && (s.driver == StableCommit(r, cmd) || s.driver == DurableCommit(r, cmd))
    ensures Finishes(CoopRun(s, n), Stored(Acknowledged(r)), cmd)
  {
    hide Recoverable, Stable, Proceed, Finishes, Acknowledged, CoopRun;
    AcknowledgedStable(r);
    CoopUnroll(s, n);
    assert CoopNext(s).driver == Proceed(Stored(Acknowledged(r)), cmd);
    CommandFinishes(Stored(Acknowledged(r)), cmd, CoopNext(s).world, n - 1);
  }

  lemma TakeFinishes(s: State, r: Record, cmd: Command, n: nat)
    requires Recoverable(r) && IsNarrowing(r) && n >= 5 && s.driver == CandidateCommit(r, cmd)
    ensures Finishes(CoopRun(s, n), Stored(TakeCandidate(r)), cmd)
  {
    hide Recoverable, Stable, Proceed, Finishes, TakeCandidate, CoopRun;
    TakenStable(r);
    CoopUnroll(s, n);
    assert CoopNext(s).driver == Proceed(Stored(TakeCandidate(r)), cmd);
    CommandFinishes(Stored(TakeCandidate(r)), cmd, CoopNext(s).world, n - 1);
  }

  lemma ApplyFinishes(s: State, r: Record, cmd: Command, n: nat)
    requires Recoverable(r) && n >= 7 && (s.driver == StableApply(r, cmd) || s.driver == DurableApply(r, cmd))
    ensures Finishes(CoopRun(s, n), Stored(Acknowledged(r)), cmd)
  {
    hide Recoverable, Proceed, Finishes, Acknowledged, CoopRun, RecordGeneration;
    CoopUnroll(s, n);
    var t := CoopNext(s);
    if s.driver.StableApply? {
      CoopUnroll(t, n - 1);
      CommitFinishes(CoopNext(t), r, cmd, n - 2);
    } else {
      CommitFinishes(t, r, cmd, n - 1);
    }
  }

  /** What cooperative recovery leaves of an unblocked running record: the candidate when that is what the proxy serves,
      the record as it is when the proxy serves what it says is applied, and else the record acknowledged. */
  function Left(r: Record, runtime: Runtime): Record {
    if TakesCandidate(r, runtime) then Stored(TakeCandidate(r))
    else if r.transition.None? && r.applied == AppliedOf(RecordGeneration(r)) && runtime == Serving(RecordGeneration(r)) then r
    else Stored(Acknowledged(r))
  }

  /** Any command on any running record, all its effects cooperating, ends within eight effects. On a blocked record it
      fails; on any other it answers nil exactly when it is permitted on what recovery left, and has then been carried
      out there. */
  lemma CooperativeFromStart(r: Record, cmd: Command, w: World)
    requires ValidRecord(r) && r.status == Running
    ensures var s := CoopRun(State(w, Start(r, cmd)), 8);
            && s.driver.Done? && (r.uncertain ==> !s.driver.ok && s.driver.tx.status == Stopped && s.world.runtime == Absent)
            && (!r.uncertain ==> RecoveredFrom(r, Left(r, w.runtime)) && Finishes(s, Left(r, w.runtime), cmd))
  {
    hide RecordGeneration, CandidateGeneration, ValidRecord, Proceed, Finishes, CoopRun;
    var s := State(w, Start(r, cmd));
    if r.uncertain {
      CoopFailClosed(r, r, None, w);
      CoopAfter(s, 2, 6);
      DoneStays(CoopRun(s, 2), 6);
    } else {
      LeftIsRecovered(r, w.runtime);
      if r.transition.None? {
        if s.driver.StableInspect? {
          CoopUnroll(s, 8);
          if w.runtime == Serving(RecordGeneration(r)) {
            CommandFinishes(r, cmd, CoopNext(s).world, 7);
          } else {
            ApplyFinishes(CoopNext(s), r, cmd, 7);
          }
        } else {
          ApplyFinishes(s, r, cmd, 8);
        }
      } else {
        CoopUnroll(s, 8);
        InspectFinishes(CoopNext(s), r, cmd, w.runtime);
      }
      FinishesIsDone(CoopRun(s, 8), Left(r, w.runtime), cmd);
    }
  }

  lemma FinishesIsDone(s: State, c: Record, cmd: Command)
    requires Finishes(s, c, cmd)
    ensures s.driver.Done?
  {}

  lemma LeftIsRecovered(r: Record, runtime: Runtime)
    requires r.status == Running
    ensures RecoveredFrom(r, Left(r, runtime))
  {
    hide RecordGeneration, CandidateGeneration;
  }

  lemma InspectFinishes(t: State, r: Record, cmd: Command, runtime: Runtime)
    requires Recoverable(r) && r.transition.Some?
    requires t.driver == AfterTransitionInspect(r, cmd, if runtime.Serving? then Observed(runtime.gen) else NotObserved)
    ensures Finishes(CoopRun(t, 7), Left(r, runtime), cmd)
  {
    hide RecordGeneration, CandidateGeneration, Recoverable, Finishes, CoopRun, Acknowledged, TakeCandidate;
    if t.driver.CandidateCommit? {
      TakeFinishes(t, r, cmd, 7);
    } else if t.driver.DurableCommit? {
      CommitFinishes(t, r, cmd, 7);
    } else {
      ApplyFinishes(t, r, cmd, 7);
    }
  }
}
