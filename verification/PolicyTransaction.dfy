/** The policy replacement call in the shape of its source (internal/engine/policy/transaction.go), each effect
    failing or succeeding at will, any number of steps of other calls between its own, and every state it passes
    through recorded as steps of the machine. */
module PolicyTransaction {
  import opened Wrappers
  import opened PolicyMachine

  datatype Failure = NoError | KnownError | UncertainError

  /** What the caller asked for holds of the file that is there: none for a create-only call, the one with the
      expected hash if it named a hash; and its validation passed. */
  predicate Wanted(hash: string -> string, o: Options, current: Option<Inode>) {
    && (o.createOnly ==> current == None)
    && (match o.expected
        case None => true
        case Some(h) => match current case None => false case Some(file) => hash(file.text) == h)
    && o.valid
  }

  lemma WantedIsApproved(hash: string -> string, o: Options, current: Option<Inode>)
    ensures Wanted(hash, o, current) <==> Approved(hash, o, current)
  {
  }

  /** One call of ReplacePolicyAtomic, with the file system it works on. */
  class Call {
    const id: nat
    const hash: string -> string
    var system: System
    ghost var trace: seq<System>

    /** The trace is this call's own steps so far and what other calls did between them. */
    ghost predicate Valid()
      reads this
    {
      && id in system.writers
      && |trace| > 0 && trace[|trace| - 1] == system
      && forall i :: 0 < i < |trace| ==>
                       WriterStep(hash, id, trace[i - 1], trace[i]) || OthersMove(id, trace[i - 1], trace[i])
    }

    function Position(): PolicyMachine.Position
      reads this
      requires id in system.writers
    {
      system.writers[id].at
    }

    constructor (id: nat, hash: string -> string, system: System)
      requires id in system.writers
      ensures Valid() && this.id == id && this.hash == hash && this.system == system && trace == [system]
    {
      this.id, this.hash, this.system := id, hash, system;
      trace := [system];
    }

    /** One step of this call. */
    method Take(next: System)
      requires Valid() && WriterStep(hash, id, system, next) && next.writers.Keys == system.writers.Keys
      modifies this
      ensures Valid() && system == next && trace == old(trace) + [next]
    {
      hide WriterStep, OthersMove;
      trace := trace + [next];
      system := next;
    }

    /** Other calls may take any number of steps. */
    method Others()
      requires Valid()
      modifies this
      ensures Valid() && trace == old(trace) + [system] && OthersMove(id, old(system), system)
    {
      var next: System := *;
      if !OthersMove(id, system, next) {
        next := system;
      }
      hide WriterStep, OthersMove;
      trace := trace + [next];
      system := next;
    }

    /** Blocking on the lock until whoever held it let go. */
    method WaitForLock()
      requires Valid() && system.lock != Some(id)
      modifies this
      ensures Valid() && trace == old(trace) + [system] && OthersMove(id, old(system), system) && system.lock.None?
    {
      var next: System := *;
      if !OthersMove(id, system, next) || next.lock.Some? {
        next := system.(lock := None);
      }
      assert OthersMove(id, system, next);
      hide WriterStep, OthersMove;
      trace := trace + [next];
      system := next;
    }

    /** One step under the lock, and whatever the others do meanwhile. */
    method Advance(next: System)
      requires Valid() && WriterStep(hash, id, system, next) && next.writers.Keys == system.writers.Keys
      requires id in next.writers && next.lock == Some(id)
      modifies this
      ensures Valid() && old(trace) <= trace
      ensures system.disk == next.disk && system.log == next.log && system.lock == next.lock
      ensures system.writers[id] == next.writers[id]
    {
      Take(next);
      Others();
    }

    /** withPolicyLock around the body; a lock that cannot be had is a known failure. held is the state in which the
        call got the lock, or gave up; faulted says that some effect failed. Without a fault the call commits exactly
        when what it asked for holds of the file it found. */
    method ReplacePolicyAtomic() returns (outcome: Outcome, ghost held: System, ghost faulted: bool)
      requires Valid() && Position().Starting? && system.lock != Some(id) && trace == [system]
      modifies this
      ensures Valid() && Position() == Done(outcome) && trace[0] == old(system)
      ensures held in trace && OthersMove(id, old(system), held)
      ensures outcome.KnownFailed? ==> system.disk == held.disk && system.log == held.log
      ensures !outcome.KnownFailed? ==>
                && Wanted(hash, old(system.writers[id].options), held.disk.visible)
                && system.disk.visible == Some(Inode(old(system.writers[id].content), true))
                && system.log == held.log + [Wrote(id, held.disk.visible, system.disk.visible)]
      ensures outcome.KnownCommitted? ==> system.disk.crashable == {system.disk.visible}
      ensures system.lock != Some(id)
      ensures !faulted ==>
                outcome == if Wanted(hash, old(system.writers[id].options), held.disk.visible) then KnownCommitted
                           else KnownFailed
    {
      hide Approved, Wanted;
      faulted := false;
      WaitForLock();
      held := system;
      var locked: bool := *;
      if !locked {
        Take(At(system, id, Done(KnownFailed)));
        assert held == trace[1];
        return KnownFailed, held, true;
      }
      WantedIsApproved(hash, system.writers[id].options, system.disk.visible);
      Take(At(system, id, ReadingCurrent).(lock := Some(id)));
      var failure;
      failure, faulted := ReplaceUnderLock();
      outcome := match failure
        case NoError => KnownCommitted
        case KnownError => KnownFailed
        case UncertainError => CommitUncertain;
      Take(At(system, id, Done(outcome)).(lock := None));
      assert held == trace[1];
    }

    /** What the body under the lock leaves for its outcome. */
    twostate predicate Replaced(failure: Failure)
      reads this
      requires id in old(system.writers) && id in system.writers
    {
      var was, w := old(system), old(system.writers[id]);
      && system.lock == was.lock
      && Position() == Unlocking(match failure case NoError => KnownCommitted case KnownError => KnownFailed
                                               case UncertainError => CommitUncertain)
      && (failure.KnownError? ==> system.disk == was.disk && system.log == was.log)
      && (!failure.KnownError? ==>
            && Approved(hash, w.options, was.disk.visible)
            && system.disk.visible == Some(Inode(w.content, true))
            && system.log == was.log + [Wrote(id, was.disk.visible, system.disk.visible)])
      && (failure.NoError? ==> system.disk.crashable == {system.disk.visible})
    }

    /** replacePolicyUnderLock: read, check, write. */
    method ReplaceUnderLock() returns (failure: Failure, ghost faulted: bool)
      requires Valid() && Position().ReadingCurrent? && system.lock == Some(id)
      modifies this
      ensures Valid() && Replaced(failure) && old(trace) <= trace
      ensures !faulted ==>
                (failure.NoError? <==> Wanted(hash, old(system.writers[id].options), old(system.disk.visible)))
                && (failure.NoError? || failure.KnownError?)
    {
      var o, current := system.writers[id].options, system.disk.visible;
      WantedIsApproved(hash, o, current);
      var readable: bool := *;
      faulted := !readable;
      if !readable
         || (o.createOnly && current.Some?)
         || (o.expected.Some? && (current.None? || hash(current.value.text) != o.expected.value))
         || !o.valid {
        Advance(Fail(system, id));
        return KnownError, faulted;
      }
      Advance(At(system, id, CreatingTemp));
      failure, faulted := WritePolicyAtomic(o.createOnly);
    }

    /** writePolicyAtomic: fill and sync a temporary file, publish it, sync the directory. */
    method WritePolicyAtomic(createOnly: bool) returns (failure: Failure, ghost faulted: bool)
      requires Valid() && Position().CreatingTemp? && system.lock == Some(id)
      requires createOnly == system.writers[id].options.createOnly
      requires Approved(hash, system.writers[id].options, system.disk.visible)
      modifies this
      ensures Valid() && Replaced(failure) && old(trace) <= trace
      ensures !faulted ==> failure.NoError?
    {
      var content := system.writers[id].content;
      var created, filled, synced, closed: bool := *, *, *, *;
      if !created {
        Advance(Fail(system, id));
        return KnownError, true;
      }
      Advance(At(system, id, Filling));
      if !filled {
        Advance(Fail(system, id));
        return KnownError, true;
      }
      Advance(At(system, id, SyncingTemp(Inode(content, false))));
      if !synced {
        Advance(Fail(system, id));
        return KnownError, true;
      }
      Advance(At(system, id, ClosingTemp(Inode(content, true))));
      if !closed {
        Advance(Fail(system, id));
        return KnownError, true;
      }
      Advance(At(system, id, Publishing(Inode(content, true))));
      var published: bool := *;
      if !published {
        Advance(Fail(system, id));
        return KnownError, true;
      }
      var entry := Some(Inode(content, true));
      Advance(At(system, id, if createOnly then RemovingTemp else SyncingDir)
              .(disk := Disk(entry, system.disk.crashable + {entry}),
                log := system.log + [Wrote(id, system.disk.visible, entry)]));
      failure, faulted := Settle(createOnly);
    }

    /** After publishing: drop the link's source, sync the directory; any failure leaves the commit uncertain. */
    method Settle(createOnly: bool) returns (failure: Failure, ghost faulted: bool)
      requires Valid() && system.lock == Some(id)
      requires Position() == if createOnly then RemovingTemp else SyncingDir
      modifies this
      ensures Valid() && old(trace) <= trace && !failure.KnownError?
      ensures system.lock == old(system.lock) && system.log == old(system.log)
      ensures system.disk.visible == old(system.disk.visible)
      ensures system.writers[id] == old(system.writers[id])
                                    .(at := Unlocking(if failure.NoError? then KnownCommitted else CommitUncertain))
      ensures failure.NoError? ==> system.disk.crashable == {system.disk.visible}
      ensures !faulted ==> failure.NoError?
    {
      if createOnly {
        var removed: bool := *;
        if !removed {
          Advance(At(system, id, Unlocking(CommitUncertain)));
          return UncertainError, true;
        }
        Advance(At(system, id, SyncingDir));
      }
      var synced: bool := *;
      if !synced {
        Advance(At(system, id, Unlocking(CommitUncertain)));
        return UncertainError, true;
      }
      Advance(At(system, id, Unlocking(KnownCommitted)).(disk := system.disk.(crashable := {system.disk.visible})));
      return NoError, false;
    }
  }
}
