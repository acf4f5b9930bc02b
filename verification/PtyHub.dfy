/** The supervisor's IO hub (internal/cli/supervise.go): one PTY reader, one accept loop, one input pump per
    client and the exit path, interleaved at their lock and socket operations. Clients are numbered in the
    order they were accepted; any socket operation may fail. */
module PtyHub {
  import opened Wrappers

  type Client = nat

  /** What a client has been sent: output chunks by number, and the exit frame. */
  datatype Frame = Chunk(index: nat) | Exit

  datatype Reader =
    | Reading                       // between chunks
    | Looked(target: Option<Client>, chunk: nat) // chunk read, slot looked up
    | Dropping(client: Client)      // write failed, before taking the lock
    | Closing(client: Client)
    | Drained                       // PTY end of file

  datatype Acceptor = Listening | Accepted(client: Client) | Refusing(client: Client) | Stopped

  datatype Pump = Pumping | PumpDropping | PumpClosing | PumpDone

  datatype Teardown =
    | AgentRunning
    | ListenerClosed
    | ExitLooked(target: Option<Client>)
    | ExitSent
    | SlotTaken(target: Option<Client>)
    | Finished

  /** chunks counts the chunks read so far; the one being broadcast, if any, is the last. */
  datatype Hub = Hub(
    slot: Option<Client>, closed: set<Client>, accepted: nat, sent: map<Client, seq<Frame>>, chunks: nat,
    reader: Reader, acceptor: Acceptor, pumps: map<Client, Pump>, teardown: Teardown
  )

  const INITIAL := Hub(None, {}, 0, map[], 0, Reading, Listening, map[], AgentRunning)

  // ---------------------------------------------------------------------------------------------
  // Steps

  function Send(h: Hub, c: Client, f: Frame): Hub
    requires c in h.sent
  {
    h.(sent := h.sent[c := h.sent[c] + [f]])
  }

  /** dropConn's critical section: the slot is freed only if it still holds this client. */
  function Release(h: Hub, c: Client): Hub {
    if h.slot == Some(c) then h.(slot := None) else h
  }

  function Close(h: Hub, c: Client): Hub { h.(closed := h.closed + {c}) }

  /** The drain loop and broadcast. */
  predicate ReaderStep(h: Hub, t: Hub) {
    match h.reader
    case Reading =>
      t == h.(reader := Looked(h.slot, h.chunks), chunks := h.chunks + 1) || t == h.(reader := Drained)
    case Looked(None, _) => t == h.(reader := Reading)
    case Looked(Some(c), chunk) =>
      || t == h.(reader := Dropping(c))
      || (c in h.sent && c !in h.closed && t == Send(h, c, Chunk(chunk)).(reader := Reading))
    case Dropping(c) => t == Release(h, c).(reader := Closing(c))
    case Closing(c) => t == Close(h, c).(reader := Reading)
    case Drained => false
  }

  /** acceptLoop: a second client is refused, a first one gets the slot and an input pump. */
  predicate AcceptorStep(h: Hub, t: Hub) {
    match h.acceptor
    case Listening =>
      || (h.teardown.AgentRunning?
          && t == h.(acceptor := Accepted(h.accepted), accepted := h.accepted + 1, sent := h.sent[h.accepted := []]))
      || (!h.teardown.AgentRunning? && t == h.(acceptor := Stopped))
    case Accepted(c) =>
      if h.slot.Some? then t == h.(acceptor := Refusing(c))
      else t == h.(slot := Some(c), acceptor := Listening, pumps := h.pumps[c := Pumping])
    case Refusing(c) => t == Close(h, c).(acceptor := Listening)
    case Stopped => false
  }

  /** serveInput of one client, from the read or write error that ends it. */
  predicate PumpStep(h: Hub, t: Hub, c: Client) {
    && c in h.pumps
    && match h.pumps[c]
       case Pumping => t == h.(pumps := h.pumps[c := PumpDropping])
       case PumpDropping => t == Release(h, c).(pumps := h.pumps[c := PumpClosing])
       case PumpClosing => t == Close(h, c).(pumps := h.pumps[c := PumpDone])
       case PumpDone => false
  }

  /** After the agent exited: stop accepting, wait for the reader, send the exit frame, close the client. */
  predicate TeardownStep(h: Hub, t: Hub) {
    match h.teardown
    case AgentRunning => t == h.(teardown := ListenerClosed)
    case ListenerClosed => h.reader.Drained? && t == h.(teardown := ExitLooked(h.slot))
    case ExitLooked(None) => t == h.(teardown := ExitSent)
    case ExitLooked(Some(c)) =>
      || t == h.(teardown := ExitSent)
      || (c in h.sent && c !in h.closed && t == Send(h, c, Exit).(teardown := ExitSent))
    case ExitSent => t == h.(slot := None, teardown := SlotTaken(h.slot))
    case SlotTaken(target) =>
      t == (if target.Some? then Close(h, target.value) else h).(teardown := Finished)
    case Finished => false
  }

  ghost predicate Step(h: Hub, t: Hub) {
    ReaderStep(h, t) || AcceptorStep(h, t) || TeardownStep(h, t) || exists c: Client :: PumpStep(h, t, c)
  }

  ghost predicate IsRun(run: seq<Hub>) {
    |run| > 0 && run[0] == INITIAL && forall i :: 0 < i < |run| ==> Step(run[i - 1], run[i])
  }

  // ---------------------------------------------------------------------------------------------
  // The invariant

  /** The chunks from, from + 1, ..., from + n - 1. */
  function Chunks(from: nat, n: nat): (frames: seq<Frame>)
    ensures |frames| == n && forall i :: 0 <= i < n ==> frames[i] == Chunk(from + i)
  {
    seq(n, i requires 0 <= i < n => Chunk(from + i))
  }

  /** A contiguous, in-order stretch of output, with at most an exit frame after it. */
  ghost predicate Contiguous(frames: seq<Frame>) {
    exists from: nat, n: nat :: frames == Chunks(from, n) || frames == Chunks(from, n) + [Exit]
  }

  /** Nothing sent yet, or a stretch that ends just before chunk next. */
  ghost predicate UpTo(frames: seq<Frame>, next: nat) {
    frames == [] || exists from: nat, n: nat :: n > 0 && from + n == next && frames == Chunks(from, n)
  }

  /** The reader is between looking up the slot and being done with the chunk. */
  predicate InBroadcast(h: Hub) {
    h.reader.Looked? || h.reader.Dropping? || h.reader.Closing?
  }

  predicate Busy(h: Hub, c: Client) {
    match h.reader
    case Looked(target, _) => target == Some(c)
    case Dropping(client) => client == c
    case Closing(client) => client == c
    case _ => false
  }

  /** The chunk a client that is served next would get: the one under way for the client being written to, the
      first one after it for a client that has been there since before, and none yet for a later arrival. */
  function Due(h: Hub, c: Client): nat {
    if !InBroadcast(h) then h.chunks
    else if Busy(h, c) && h.chunks > 0 then h.chunks - 1
    else 0
  }

  /** Whether the exit frame may have been sent. */
  predicate ExitPossible(h: Hub) {
    h.teardown.ExitSent? || h.teardown.SlotTaken? || h.teardown.Finished?
  }

  /** Every client number in use is of an accepted client. */
  ghost predicate Numbered(h: Hub) {
    && (forall c: Client :: c in h.sent <==> c < h.accepted)
    && (forall c :: c in h.pumps ==> c < h.accepted)
    && (h.slot.Some? ==> h.slot.value < h.accepted)
    && (match h.reader
        case Looked(target, _) => target.Some? ==> target.value < h.accepted
        case Dropping(client) => client < h.accepted
        case Closing(client) => client < h.accepted
        case _ => true)
    && (h.teardown.ExitLooked? && h.teardown.target.Some? ==> h.teardown.target.value < h.accepted)
  }

  /** A client the accept loop still holds has never been served. */
  predicate Newcomer(h: Hub) {
    h.acceptor.Accepted? || h.acceptor.Refusing? ==>
      var c := h.acceptor.client;
      && c in h.sent && c !in h.pumps && h.slot != Some(c) && !Busy(h, c) && h.sent[c] == []
      && h.teardown != ExitLooked(Some(c))
  }

  predicate Phases(h: Hub) {
    && (InBroadcast(h) ==> h.chunks > 0)
    && (h.reader.Looked? ==> h.reader.chunk + 1 == h.chunks)
    && (h.reader.Closing? ==> h.slot != Some(h.reader.client))
    && (!h.teardown.AgentRunning? && !h.teardown.ListenerClosed? ==> h.reader.Drained?)
  }

  ghost predicate Served(h: Hub) {
    && (forall c :: c in h.sent ==> Contiguous(h.sent[c]))
    && (forall c :: c in h.sent && !ExitPossible(h) ==> Exit !in h.sent[c])
    && (forall c :: c in h.sent && !ExitPossible(h) && (h.slot == Some(c) || Busy(h, c)) ==> UpTo(h.sent[c], Due(h, c)))
  }

  ghost predicate Inv(h: Hub) {
    Numbered(h) && Newcomer(h) && Phases(h) && Served(h)
  }

  lemma EmptyContiguous()
    ensures Contiguous([]) && forall next: nat :: UpTo([], next)
  {
    assert [] == Chunks(0, 0);
  }

  lemma SendChunk(frames: seq<Frame>, k: nat)
    requires UpTo(frames, k)
    ensures UpTo(frames + [Chunk(k)], k + 1) && Contiguous(frames + [Chunk(k)])
  {
    if frames == [] {
      assert frames + [Chunk(k)] == Chunks(k, 1);
    } else {
      var from: nat, n: nat :| n > 0 && from + n == k && frames == Chunks(from, n);
      assert frames + [Chunk(k)] == Chunks(from, n + 1);
    }
  }

  lemma SendExit(frames: seq<Frame>)
    requires Contiguous(frames) && Exit !in frames
    ensures Contiguous(frames + [Exit])
  {
    var from: nat, n: nat :| frames == Chunks(from, n) || frames == Chunks(from, n) + [Exit];
    assert frames == Chunks(from, n);
  }

  /** The write of one chunk to the client that was looked up. */
  lemma WriteKeepsInv(h: Hub, t: Hub, c: Client)
    requires Inv(h) && h.reader.Looked? && h.reader.target == Some(c) && c in h.sent
    requires t == Send(h, c, Chunk(h.reader.chunk)).(reader := Reading)
    ensures Inv(t)
  {
    SendChunk(h.sent[c], h.reader.chunk);
    EmptyContiguous();
    assert UpTo(h.sent[c], Due(h, c));
    forall other | other in t.sent && t.slot == Some(other) && other != c
      ensures t.sent[other] == []
    {
      assert UpTo(h.sent[other], Due(h, other)) && Due(h, other) == 0;
    }
    hide UpTo, Contiguous;
  }

  /** A step that sends nothing keeps what was served, if whoever is served next is due the same or had nothing. */
  lemma ServedKept(h: Hub, t: Hub)
    requires Served(h) && t.sent == h.sent && (ExitPossible(h) ==> ExitPossible(t))
    requires forall c :: c in t.sent && !ExitPossible(t) && (t.slot == Some(c) || Busy(t, c)) ==>
                           t.sent[c] == [] || ((h.slot == Some(c) || Busy(h, c)) && Due(t, c) == Due(h, c))
    ensures Served(t)
  {
    hide UpTo, Contiguous;
    EmptyContiguous();
  }

  /** Who holds the slot but arrived after the look-up has been sent nothing. */
  lemma LateArrivalHasNothing(h: Hub, c: Client)
    requires Served(h) && c in h.sent && !ExitPossible(h) && h.slot == Some(c) && InBroadcast(h) && !Busy(h, c)
    ensures h.sent[c] == []
  {
    assert UpTo(h.sent[c], Due(h, c)) && Due(h, c) == 0;
  }

  lemma ReaderKeepsInv(h: Hub, t: Hub)
    requires Inv(h) && ReaderStep(h, t)
    ensures Inv(t)
  {
    if h.reader.Looked? && t.sent != h.sent {
      WriteKeepsInv(h, t, h.reader.target.value);
    } else {
      hide Served;
      forall c | c in t.sent && !ExitPossible(t) && (t.slot == Some(c) || Busy(t, c))
        ensures t.sent[c] == [] || ((h.slot == Some(c) || Busy(h, c)) && Due(t, c) == Due(h, c))
      {
        if h.slot == Some(c) && InBroadcast(h) && !Busy(h, c) {
          LateArrivalHasNothing(h, c);
        }
      }
      ServedKept(h, t);
    }
  }

  lemma AcceptorKeepsInv(h: Hub, t: Hub)
    requires Inv(h) && AcceptorStep(h, t)
    ensures Inv(t)
  {
    AcceptorKeepsShape(h, t);
    AcceptorKeepsServed(h, t);
    hide Served, Numbered, Newcomer, Phases;
  }

  lemma AcceptorKeepsShape(h: Hub, t: Hub)
    requires Numbered(h) && Newcomer(h) && Phases(h) && AcceptorStep(h, t)
    ensures Numbered(t) && Newcomer(t) && Phases(t)
  {}

  lemma AcceptorKeepsServed(h: Hub, t: Hub)
    requires Numbered(h) && Newcomer(h) && Served(h) && AcceptorStep(h, t)
    ensures Served(t)
  {
    hide UpTo, Contiguous;
    EmptyContiguous();
    if t.sent == h.sent {
      ServedKept(h, t);
    }
  }

  lemma PumpKeepsInv(h: Hub, t: Hub, c: Client)
    requires Inv(h) && PumpStep(h, t, c)
    ensures Inv(t)
  {
    PumpKeepsShape(h, t, c);
    PumpKeepsServed(h, t, c);
    hide Served, Numbered, Newcomer, Phases;
  }

  lemma PumpKeepsShape(h: Hub, t: Hub, c: Client)
    requires Numbered(h) && Newcomer(h) && Phases(h) && PumpStep(h, t, c)
    ensures Numbered(t) && Newcomer(t) && Phases(t)
  {}

  lemma PumpKeepsServed(h: Hub, t: Hub, c: Client)
    requires Served(h) && PumpStep(h, t, c)
    ensures Served(t)
  {
    hide Served;
    ServedKept(h, t);
  }

  lemma TeardownKeepsInv(h: Hub, t: Hub)
    requires Inv(h) && TeardownStep(h, t)
    ensures Inv(t)
  {
    if h.teardown.ExitLooked? && h.teardown.target.Some? && t.sent != h.sent {
      SendExit(h.sent[h.teardown.target.value]);
      hide UpTo, Contiguous;
    } else {
      hide Served;
      ServedKept(h, t);
    }
  }

  lemma StepKeepsInv(h: Hub, t: Hub)
    requires Inv(h) && Step(h, t)
    ensures Inv(t)
  {
    hide Inv;
    if ReaderStep(h, t) {
      ReaderKeepsInv(h, t);
    } else if AcceptorStep(h, t) {
      AcceptorKeepsInv(h, t);
    } else if TeardownStep(h, t) {
      TeardownKeepsInv(h, t);
    } else {
      var c: Client :| PumpStep(h, t, c);
      PumpKeepsInv(h, t, c);
    }
  }

  lemma {:induction false} RunKeepsInv(run: seq<Hub>, k: nat)
    requires IsRun(run) && k < |run|
    ensures Inv(run[k])
  {
    if k == 0 {
    } else {
      RunKeepsInv(run, k - 1);
      StepKeepsInv(run[k - 1], run[k]);
    }
  }

  // ---------------------------------------------------------------------------------------------
  // Theorems over every run

  /** Each client receives a contiguous, in-order stretch of the output, and an exit frame only after it, once. */
  lemma EveryClientSeesAStretch(run: seq<Hub>, k: nat, c: Client)
    requires IsRun(run) && k < |run| && c in run[k].sent
    ensures Contiguous(run[k].sent[c])
  {
    hide Contiguous, UpTo;
    RunKeepsInv(run, k);
  }

  /** The step is this client's own dropConn, in the reader or in its pump. */
  predicate OwnDrop(h: Hub, c: Client) {
    h.reader == Dropping(c) || (c in h.pumps && h.pumps[c].PumpDropping?)
  }

  /** A client loses the slot only to its own drop or to the final close: a late drop of an earlier client never
      evicts it. And a slot that is taken is never handed on. */
  lemma OnlyOwnDropEvicts(h: Hub, t: Hub, c: Client)
    requires Step(h, t) && h.slot == Some(c)
    ensures t.slot == Some(c) || t.slot.None?
    ensures t.slot.None? ==> OwnDrop(h, c) || h.teardown.ExitSent?
  {
    if x: Client :| PumpStep(h, t, x) {
    }
  }

  lemma SlotStep(h: Hub, t: Hub, c: Client)
    requires Inv(h) && Step(h, t) && c in h.pumps && h.slot != Some(c)
    ensures c in t.pumps && t.slot != Some(c)
  {
    hide Served, Numbered, Phases;
    if x: Client :| PumpStep(h, t, x) {
    }
  }

  /** A client that left the slot never comes back to it. */
  lemma {:induction false} SlotNeverReturns(run: seq<Hub>, i: nat, j: nat, c: Client)
    requires IsRun(run) && i <= j < |run| && c in run[i].pumps && run[i].slot != Some(c)
    ensures c in run[j].pumps && run[j].slot != Some(c)
  {
    hide Inv, Step;
    if i == j {
    } else {
      SlotNeverReturns(run, i, j - 1, c);
      RunKeepsInv(run, j - 1);
      SlotStep(run[j - 1], run[j], c);
    }
  }

  // ---------------------------------------------------------------------------------------------
  // What an attached client has been sent

  /** The accept loop's critical section between the i-th state and the next gives the slot to client c. */
  predicate Takes(run: seq<Hub>, i: nat, c: Client)
    requires i + 1 < |run|
  {
    && run[i].acceptor == Accepted(c) && run[i].slot.None?
    && AcceptorStep(run[i], run[i + 1]) && run[i + 1].slot == Some(c)
  }

  /** The chunks that are done with for a client: all that were read, but the one now being written to it. */
  function Passed(h: Hub, c: Client): int {
    if Busy(h, c) then h.chunks - 1 else h.chunks
  }

  /** Client c has exactly the chunks from the m-th on that are done with. */
  predicate HasFrom(h: Hub, c: Client, m: nat) {
    c in h.sent && m <= Passed(h, c) && h.sent[c] == Chunks(m, Passed(h, c) - m)
  }

  lemma HasFromStep(h: Hub, t: Hub, c: Client, m: nat)
    requires Inv(h) && Step(h, t) && c in h.pumps && c in t.sent
    requires (h.slot == Some(c) || Busy(h, c)) && HasFrom(h, c, m)
    requires !ExitPossible(t) && (t.slot == Some(c) || Busy(t, c))
    ensures HasFrom(t, c, m)
  {
    hide Served, Newcomer;
    if x: Client :| PumpStep(h, t, x) {
    }
    if Busy(h, c) && h.reader.Looked? && t.reader.Reading? {
      assert Chunks(m, h.chunks - m) == Chunks(m, h.chunks - 1 - m) + [Chunk(h.chunks - 1)];
    }
  }

  /** Every client is in the slot or being written to only since it took the slot. */
  lemma ServedOnlyOnce(h: Hub, t: Hub, c: Client)
    requires Inv(h) && Step(h, t) && c in h.pumps
    requires t.slot == Some(c) || Busy(t, c)
    ensures h.slot == Some(c) || Busy(h, c)
  {
    hide Served, Numbered, Phases;
    if x: Client :| PumpStep(h, t, x) {
    }
  }

  /** While a client is attached it has been sent exactly what was read since it took the slot, from the first
      chunk after that moment on, nothing missing and nothing twice: at any time all but a chunk now being
      written to it, and all of it once the reader has drained the terminal. */
  lemma {:induction false} AttachedClientIsCurrent(run: seq<Hub>, i: nat, k: nat, c: Client)
    requires IsRun(run) && i < k < |run| && Takes(run, i, c)
    requires (run[k].slot == Some(c) || Busy(run[k], c)) && !ExitPossible(run[k])
    ensures c in run[k].pumps && c in run[k].sent
    ensures run[i].chunks <= Passed(run[k], c)
    ensures run[k].sent[c] == Chunks(run[i].chunks, Passed(run[k], c) - run[i].chunks)
    ensures run[k].reader.Drained? ==> Passed(run[k], c) == run[k].chunks
    decreases k
  {
    hide Step, Served;
    RunKeepsInv(run, k - 1);
    if k == i + 1 {
      RunKeepsInv(run, k);
      assert run[i].sent[c] == [];
    } else {
      var h, t := run[k - 1], run[k];
      assert Step(h, t);
      PumpsStay(run, i + 1, k - 1, c);
      ServedOnlyOnce(h, t, c);
      ExitStays(h, t);
      AttachedClientIsCurrent(run, i, k - 1, c);
      RunKeepsInv(run, k);
      PumpsStay(run, k - 1, k, c);
      HasFromStep(h, t, c, run[i].chunks);
    }
  }

  lemma ExitStays(h: Hub, t: Hub)
    requires Step(h, t)
    ensures ExitPossible(h) ==> ExitPossible(t)
  {}

  lemma {:induction false} PumpsStay(run: seq<Hub>, i: nat, j: nat, c: Client)
    requires IsRun(run) && i <= j < |run| && c in run[i].pumps
    ensures c in run[j].pumps
  {
    hide Step;
    if i == j {
    } else {
      PumpsStay(run, i, j - 1, c);
      PumpStays(run[j - 1], run[j], c);
    }
  }

  lemma PumpStays(h: Hub, t: Hub, c: Client)
    requires Step(h, t) && c in h.pumps
    ensures c in t.pumps
  {
  }

  // ---------------------------------------------------------------------------------------------
  // Which clients are left open

  /** Some thread has client c out of the slot and is about to close it. */
  predicate AboutToClose(h: Hub, c: Client) {
    || h.reader == Closing(c) || (c in h.pumps && h.pumps[c].PumpClosing?)
    || h.acceptor == Refusing(c) || h.teardown == SlotTaken(Some(c))
  }

  predicate Gone(h: Hub, c: Client) {
    c in h.closed || AboutToClose(h, c)
  }

  /** Every accepted client is waiting for the accept loop's verdict, in the slot, or gone, and only one of these. */
  ghost predicate Accounted(h: Hub) {
    && (forall c :: c in h.closed ==> c in h.sent)
    && (h.teardown.SlotTaken? && h.teardown.target.Some? ==> h.teardown.target.value in h.sent)
    && (forall c :: c in h.sent ==> (Gone(h, c) <==> h.slot != Some(c) && h.acceptor != Accepted(c)))
  }

  lemma ReaderKeepsAccounted(h: Hub, t: Hub)
    requires Numbered(h) && Phases(h) && Newcomer(h) && Accounted(h) && ReaderStep(h, t)
    ensures Accounted(t)
  {}

  lemma AcceptorKeepsAccounted(h: Hub, t: Hub)
    requires Numbered(h) && Phases(h) && Newcomer(h) && Accounted(h) && AcceptorStep(h, t)
    ensures Accounted(t)
  {}

  lemma TeardownKeepsAccounted(h: Hub, t: Hub)
    requires Numbered(h) && Phases(h) && Newcomer(h) && Accounted(h) && TeardownStep(h, t)
    ensures Accounted(t)
  {}

  lemma PumpKeepsAccounted(h: Hub, t: Hub, c: Client)
    requires Numbered(h) && Phases(h) && Newcomer(h) && Accounted(h) && PumpStep(h, t, c)
    ensures Accounted(t)
  {}

  lemma StepKeepsAccounted(h: Hub, t: Hub)
    requires Inv(h) && Accounted(h) && Step(h, t)
    ensures Accounted(t)
  {
    hide Served, Numbered, Newcomer, Phases, Accounted, ReaderStep, AcceptorStep, TeardownStep, PumpStep;
    if ReaderStep(h, t) {
      ReaderKeepsAccounted(h, t);
    } else if AcceptorStep(h, t) {
      AcceptorKeepsAccounted(h, t);
    } else if TeardownStep(h, t) {
      TeardownKeepsAccounted(h, t);
    } else {
      var x: Client :| PumpStep(h, t, x);
      PumpKeepsAccounted(h, t, x);
    }
  }

  lemma {:induction false} RunKeepsAccounted(run: seq<Hub>, k: nat)
    requires IsRun(run) && k < |run|
    ensures Accounted(run[k])
  {
    hide Step, Inv;
    if k == 0 {
      assert run[0] == INITIAL;
    } else {
      RunKeepsAccounted(run, k - 1);
      RunKeepsInv(run, k - 1);
      StepKeepsAccounted(run[k - 1], run[k]);
    }
  }

  /** The final close has emptied the slot. */
  predicate SlotCleared(h: Hub) { h.teardown.SlotTaken? || h.teardown.Finished? }

  /** Client c took the slot after the final close had emptied it. */
  predicate TakesLate(run: seq<Hub>, i: nat, c: Client)
    requires i + 1 < |run|
  {
    SlotCleared(run[i]) && Takes(run, i, c)
  }

  /** The shutdown is over and no thread is about to close a client. */
  predicate Quiet(h: Hub) {
    h.teardown.Finished? && h.acceptor.Stopped? && forall c :: c in h.pumps ==> !h.pumps[c].PumpClosing?
  }

  /** The client's own input pump has let go of the slot. */
  predicate PumpLetGo(h: Hub, c: Client) {
    c in h.pumps && (h.pumps[c].PumpClosing? || h.pumps[c].PumpDone?)
  }

  /** A client in the slot after the final close was there before the step, or has just been seated. */
  lemma LateHolderStep(h: Hub, t: Hub, c: Client)
    requires Newcomer(h) && Phases(h) && Step(h, t) && SlotCleared(t) && t.slot == Some(c)
    ensures h.slot == Some(c) ==> SlotCleared(h) && t.sent == h.sent && (PumpLetGo(t, c) ==> PumpLetGo(h, c))
    ensures h.slot != Some(c) ==>
              && SlotCleared(h) && h.acceptor == Accepted(c) && h.slot.None? && AcceptorStep(h, t)
              && c in t.sent && t.sent[c] == [] && !PumpLetGo(t, c)
  {
    if x: Client :| PumpStep(h, t, x) {
    }
  }

  lemma {:induction false} LateHolderTookLate(run: seq<Hub>, k: nat, c: Client) returns (i: nat)
    requires IsRun(run) && k < |run| && SlotCleared(run[k]) && run[k].slot == Some(c)
    ensures i < k && TakesLate(run, i, c) && !PumpLetGo(run[k], c)
    ensures c in run[k].sent && run[k].sent[c] == []
    decreases k
  {
    hide Served, Numbered, Newcomer, Phases, Step, AcceptorStep;
    assert Step(run[k - 1], run[k]);
    RunKeepsInv(run, k - 1);
    LateHolderStep(run[k - 1], run[k], c);
    i := k - 1;
    if run[k - 1].slot == Some(c) {
      i := LateHolderTookLate(run, k - 1, c);
    }
  }

  lemma LateStep(h: Hub, t: Hub, c: Client)
    requires Newcomer(h) && Phases(h) && Step(h, t) && SlotCleared(h) && c in h.pumps
    requires h.slot == Some(c) || PumpLetGo(h, c)
    ensures SlotCleared(t) && c in t.pumps && (t.slot == Some(c) || PumpLetGo(t, c))
  {
    if x: Client :| PumpStep(h, t, x) {
    }
  }

  lemma {:induction false} LateTakerHolds(run: seq<Hub>, i: nat, k: nat, c: Client)
    requires IsRun(run) && i < k < |run| && TakesLate(run, i, c)
    ensures SlotCleared(run[k]) && c in run[k].pumps
    ensures run[k].slot == Some(c) || PumpLetGo(run[k], c)
    decreases k
  {
    hide Served, Numbered, Newcomer, Phases, Step;
    if k == i + 1 {
    } else {
      LateTakerHolds(run, i, k - 1, c);
      assert Step(run[k - 1], run[k]);
      RunKeepsInv(run, k - 1);
      LateStep(run[k - 1], run[k], c);
    }
  }

  /** Which clients the shutdown leaves open: the one that holds the slot in the end and no other. It can only be
      one that was accepted but not yet seated when the final close emptied the slot, that took the slot
      afterwards, and whose input pump has not let go of it, and it has been sent nothing, not even the exit. */
  lemma LeftOpenIff(run: seq<Hub>, k: nat, c: Client)
    requires IsRun(run) && k < |run| && c in run[k].sent && Quiet(run[k])
    ensures c !in run[k].closed <==> run[k].slot == Some(c)
    ensures c !in run[k].closed
            <==> !PumpLetGo(run[k], c) && exists i: nat :: i + 1 < |run| && i < k && TakesLate(run, i, c)
    ensures c !in run[k].closed ==> run[k].sent[c] == []
  {
    hide Served, Step, Takes, IsRun, Numbered;
    RunKeepsInv(run, k);
    RunKeepsAccounted(run, k);
    assert Phases(run[k]);
    if run[k].slot == Some(c) {
      var i := LateHolderTookLate(run, k, c);
    }
    if i: nat :| i + 1 < |run| && i < k && TakesLate(run, i, c) {
      LateTakerHolds(run, i, k, c);
    }
  }

  /** It happens: a client accepted just before the listener closes may take the slot after the final close, and
      is then left open without an exit frame. */
  lemma LateClientIsLeftOpen() returns (run: seq<Hub>)
    ensures IsRun(run)
    ensures var h := run[|run| - 1];
            Quiet(h) && h.slot == Some(0) && 0 !in h.closed && 0 in h.sent && h.sent[0] == []
  {
    var h0 := INITIAL;
    var h1 := h0.(acceptor := Accepted(0), accepted := 1, sent := map[0 := []]);
    var h2 := h1.(teardown := ListenerClosed);
    var h3 := h2.(reader := Drained);
    var h4 := h3.(teardown := ExitLooked(None));
    var h5 := h4.(teardown := ExitSent);
    var h6 := h5.(teardown := SlotTaken(None));
    var h7 := h6.(teardown := Finished);
    var h8 := h7.(slot := Some(0), acceptor := Listening, pumps := map[0 := Pumping]);
    assert h0.sent[0 := []] == map[0 := []] && h7.pumps[0 := Pumping] == map[0 := Pumping];
    var h9 := h8.(acceptor := Stopped);
    run := [h0, h1, h2, h3, h4, h5, h6, h7, h8, h9];
    assert AcceptorStep(h0, h1) && TeardownStep(h1, h2) && ReaderStep(h2, h3) && TeardownStep(h3, h4);
    assert TeardownStep(h4, h5) && TeardownStep(h5, h6) && TeardownStep(h6, h7) && AcceptorStep(h7, h8) && AcceptorStep(h8, h9);
  }

  // ---------------------------------------------------------------------------------------------
  // An undisturbed client

  /** The first client is seated and has been sent everything read, n chunks, and nothing else has happened. */
  function Attached(n: nat): Hub {
    INITIAL.(slot := Some(0), accepted := 1, sent := map[0 := Chunks(0, n)], chunks := n, pumps := map[0 := Pumping])
  }

  lemma Attaches() returns (run: seq<Hub>)
    ensures IsRun(run) && run[|run| - 1] == Attached(0)
  {
    var h0 := INITIAL;
    var h1 := h0.(acceptor := Accepted(0), accepted := 1, sent := map[0 := []]);
    var h2 := h1.(slot := Some(0), acceptor := Listening, pumps := map[0 := Pumping]);
    assert h0.sent[0 := []] == map[0 := []] && h1.pumps[0 := Pumping] == map[0 := Pumping] && Chunks(0, 0) == [];
    run := [h0, h1, h2];
    assert AcceptorStep(h0, h1) && AcceptorStep(h1, h2);
  }

  lemma RunMore(run: seq<Hub>, t: Hub)
    requires IsRun(run) && Step(run[|run| - 1], t)
    ensures IsRun(run + [t])
  {
    hide Step;
    var more := run + [t];
    forall i | 0 < i < |more|
      ensures Step(more[i - 1], more[i])
    {
      assert i < |run| ==> Step(run[i - 1], run[i]);
    }
  }

  lemma {:induction false} IsServed(n: nat) returns (run: seq<Hub>)
    ensures IsRun(run) && run[|run| - 1] == Attached(n)
  {
    if n == 0 {
      run := Attaches();
    } else {
      run := IsServed(n - 1);
      var h := Attached(n - 1);
      var looked := h.(reader := Looked(Some(0), n - 1), chunks := n);
      var sent := Attached(n);
      assert Chunks(0, n) == Chunks(0, n - 1) + [Chunk(n - 1)];
      assert h.sent[0 := Chunks(0, n)] == sent.sent;
      assert ReaderStep(h, looked) && ReaderStep(looked, sent);
      RunMore(run, looked);
      RunMore(run + [looked], sent);
      run := run + [looked] + [sent];
    }
  }

  /** For any number of chunks there is a run in which a client that stays gets all of them, then the exit frame, and
      is closed. */
  lemma StayingClientGetsAll(n: nat) returns (run: seq<Hub>)
    ensures IsRun(run)
    ensures var h := run[|run| - 1];
            h.teardown.Finished? && 0 in h.sent && h.sent[0] == Chunks(0, n) + [Exit] && 0 in h.closed && h.slot.None?
  {
    run := IsServed(n);
    var a := Attached(n);
    var b := a.(teardown := ListenerClosed);
    var c := b.(reader := Drained);
    var d := c.(teardown := ExitLooked(Some(0)));
    var e := Send(d, 0, Exit).(teardown := ExitSent);
    var f := e.(slot := None, teardown := SlotTaken(Some(0)));
    var g := Close(f, 0).(teardown := Finished);
    assert TeardownStep(a, b) && ReaderStep(b, c) && TeardownStep(c, d) && TeardownStep(d, e);
    assert TeardownStep(e, f) && TeardownStep(f, g);
    hide ReaderStep, AcceptorStep, TeardownStep, PumpStep;
    RunMore(run, b);
    RunMore(run + [b], c);
    RunMore(run + [b] + [c], d);
    RunMore(run + [b] + [c] + [d], e);
    RunMore(run + [b] + [c] + [d] + [e], f);
    RunMore(run + [b] + [c] + [d] + [e] + [f], g);
    run := run + [b] + [c] + [d] + [e] + [f] + [g];
  }

  /** The accept loop's verdict: a free slot goes to the client, a taken one stays as it is and the client is refused. */
  lemma AcceptorVerdict(h: Hub, t: Hub, c: Client)
    requires AcceptorStep(h, t) && h.acceptor == Accepted(c)
    ensures h.slot.None? ==> t.slot == Some(c) && c in t.pumps && t.pumps[c] == Pumping && t.acceptor == Listening
    ensures h.slot.Some? ==> t.slot == h.slot && t.acceptor == Refusing(c)
    ensures t.closed == h.closed && t.sent == h.sent
  {
  }

  /** A client that hangs up can leave the slot and be closed by its own pump, whatever the other threads wait for. */
  lemma HangingUpFrees(h: Hub, c: Client) returns (a: Hub, b: Hub, t: Hub)
    requires c in h.pumps && h.pumps[c] == Pumping
    ensures Step(h, a) && Step(a, b) && Step(b, t)
    ensures t.slot != Some(c) && c in t.closed && (h.slot != Some(c) ==> t.slot == h.slot)
  {
    a := h.(pumps := h.pumps[c := PumpDropping]);
    b := Release(a, c).(pumps := a.pumps[c := PumpClosing]);
    t := Close(b, c).(pumps := b.pumps[c := PumpDone]);
    assert PumpStep(h, a, c) && PumpStep(a, b, c) && PumpStep(b, t, c);
  }
}
