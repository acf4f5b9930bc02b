/** The credential lease's timing (internal/engine/creds/lease.go): how often the renewal loop may call Renew.

    Times and durations are nanoseconds. Instants are unbounded; durations are the 64-bit integers of Go,
    so a subtraction saturates and a multiplication wraps. */
module Lease {
  import opened Wrappers

  const SECOND := 1_000_000_000
  const MINIMUM_USABLE := 600 * SECOND
  const INITIAL_RETRY := 5 * SECOND
  const MAXIMUM_RETRY := 300 * SECOND
  const AFTER_SUCCESS := 400 * SECOND

  const TWO_62: int := 0x4000_0000_0000_0000
  const TWO_64: int := 0x1_0000_0000_0000_0000

  // ---------------------------------------------------------------------------------------------
  // Duration arithmetic

  /** Two's complement wrap-around of a 64-bit duration. */
  function Wrap(x: int): (r: int)
    ensures -2 * TWO_62 <= r < 2 * TWO_62 && (x - r) % TWO_64 == 0
    ensures -2 * TWO_62 <= x < 2 * TWO_62 ==> r == x
  {
    var m := x % TWO_64;
    if m < 2 * TWO_62 then m else m - TWO_64
  }

  /** time.Time.Sub */
  function Saturate(x: int): int {
    if x >= 2 * TWO_62 then 2 * TWO_62 - 1 else if x < -2 * TWO_62 then -2 * TWO_62 else x
  }

  /** Go's division truncates toward zero. */
  function DivTrunc(x: int, d: int): int
    requires d > 0
  {
    if x >= 0 then x / d else -((-x) / d)
  }

  /** The delay chosen for a remaining lifetime: two thirds of it. */
  function TwoThirds(remaining: int): int {
    var delay := DivTrunc(Wrap(Saturate(remaining) * 2), 3);
    if delay < 0 then 0 else delay
  }

  /** The product overflows exactly when 2^62 nanoseconds (146 years) or more remain; the loop then does not
      wait at all. */
  lemma TwoThirdsExactlyBelowOverflow(remaining: int)
    requires remaining > 1
    ensures TwoThirds(remaining) == 2 * remaining / 3 <==> remaining < TWO_62
    ensures remaining >= TWO_62 ==> TwoThirds(remaining) == 0
  {
    var s := Saturate(remaining) * 2;
    if remaining < TWO_62 {
      assert Wrap(s) == s;
    } else {
      assert TWO_64 / 2 <= s < TWO_64;
      assert s % TWO_64 == s;
      assert Wrap(s) == s - TWO_64 < 0;
    }
  }

  function Pow2(n: nat): (p: nat)
    ensures p > 0
  {
    if n == 0 then 1 else 2 * Pow2(n - 1)
  }

  function Min(a: int, b: int): int { if a < b then a else b }

  /** The n-th retry waits the doubled initial retry, up to the maximum. */
  function RetryDelay(attempt: int): int {
    if attempt <= 1 then INITIAL_RETRY else Min(INITIAL_RETRY * Pow2(attempt - 1), MAXIMUM_RETRY)
  }

  lemma {:induction false} Pow2Grows(m: nat, n: nat)
    requires m <= n
    ensures Pow2(m) <= Pow2(n)
  {
    if m == n {
    } else {
      Pow2Grows(m, n - 1);
    }
  }

  /** leaseRetryDelay */
  method LeaseRetryDelay(attempt: int) returns (delay: int)
    ensures delay == RetryDelay(attempt)
  {
    if attempt <= 1 {
      return INITIAL_RETRY;
    }
    delay := INITIAL_RETRY;
    var i := 1;
    while i < attempt && delay < MAXIMUM_RETRY
      invariant 1 <= i <= attempt
      invariant delay == INITIAL_RETRY * Pow2(i - 1) <= MAXIMUM_RETRY
      decreases attempt - i
    {
      delay := delay * 2;
      if delay > MAXIMUM_RETRY {
        Pow2Grows(i, attempt - 1);
        return MAXIMUM_RETRY;
      }
      i := i + 1;
    }
    if i < attempt {
      Pow2Grows(i - 1, attempt - 1);
    }
  }

  /** boundedLeaseJitter, for any value the jitter function returns. */
  function BoundedJitter(base: int, candidate: int): (delay: int)
    requires INITIAL_RETRY <= base <= MAXIMUM_RETRY
    ensures base <= delay <= MAXIMUM_RETRY && delay <= base + base / 5
    ensures base <= candidate <= Min(base + base / 5, MAXIMUM_RETRY) ==> delay == candidate
  {
    var maximum := Min(base + base / 5, MAXIMUM_RETRY);
    if candidate < base then base else if candidate > maximum then maximum else candidate
  }

  lemma RetryDelayRange(attempt: int)
    ensures INITIAL_RETRY <= RetryDelay(attempt) <= MAXIMUM_RETRY
  {
  }

  // ---------------------------------------------------------------------------------------------
  // The renewal loop

  datatype LeaseState = Healthy | Renewing | Degraded | Expired

  datatype Snapshot = Snapshot(state: LeaseState, expiresAt: int, horizon: Option<int>, nextRetry: int, attempts: int)

  /** One call of Renew: when it started, the expiry then in force, when its outcome was judged, and the new
      expiry if the outcome was usable. */
  datatype Call = Call(start: int, expiry: int, ended: int, renewed: Option<int>)

  /** A renewed lifetime short enough for the two-thirds product. */
  predicate Fits(c: Call) {
    c.renewed.Some? ==> c.renewed.value - c.ended < TWO_62
  }

  /** How soon after one call the next may start. */
  predicate SpacedAfter(c: Call, start: int) {
    && start >= c.ended >= c.start
    && (c.renewed.None? ==> start >= c.ended + INITIAL_RETRY)
    && (c.renewed.Some? && Fits(c) ==> start >= c.ended + AFTER_SUCCESS)
  }

  predicate Spaced(calls: seq<Call>) {
    forall i :: 0 < i < |calls| ==> SpacedAfter(calls[i - 1], calls[i].start)
  }

  /** The expiry in force after these calls. */
  function InForce(first: int, calls: seq<Call>): int {
    if calls == [] then first
    else if calls[|calls| - 1].renewed.Some? then calls[|calls| - 1].renewed.value
    else InForce(first, calls[..|calls| - 1])
  }

  predicate StartsInTime(began: int, first: int, horizon: Option<int>, before: seq<Call>, c: Call) {
    && c.expiry == InForce(first, before) && began <= c.start < c.expiry
    && (horizon.Some? ==> c.start < horizon.value)
  }

  /** Every call starts before the expiry in force and before the horizon. */
  predicate InWindow(began: int, first: int, horizon: Option<int>, calls: seq<Call>) {
    forall i :: 0 <= i < |calls| ==> StartsInTime(began, first, horizon, calls[..i], calls[i])
  }

  lemma CallAppended(began: int, first: int, horizon: Option<int>, calls: seq<Call>, c: Call)
    requires Spaced(calls) && InWindow(began, first, horizon, calls)
    requires calls != [] ==> SpacedAfter(calls[|calls| - 1], c.start)
    requires StartsInTime(began, first, horizon, calls, c)
    ensures Spaced(calls + [c]) && InWindow(began, first, horizon, calls + [c])
    ensures InForce(first, calls + [c]) == if c.renewed.Some? then c.renewed.value else InForce(first, calls)
  {
    var more := calls + [c];
    assert more[..|more| - 1] == calls;
    hide InForce, StartsInTime, SpacedAfter;
    forall i | 0 <= i < |more|
      ensures StartsInTime(began, first, horizon, more[..i], more[i])
    {
      assert more[..i] == calls[..i];
      if i == |calls| {
        assert calls[..i] == calls;
      }
    }
  }

  function Deadline(s: Snapshot): int {
    if s.horizon.Some? && s.horizon.value < s.expiresAt then s.horizon.value else s.expiresAt
  }

  function Delay(s: Snapshot, now: int): int {
    var wanted := if s.state.Degraded? && s.nextRetry > 0 then s.nextRetry else TwoThirds(s.expiresAt - now);
    if now + wanted > Deadline(s) then Deadline(s) - now else wanted
  }

  /** One turn of the loop that ends in a call: the snapshot and the time when its timer was armed, the call, and
      the snapshot the outcome left. */
  datatype Turn = Turn(before: Snapshot, armed: int, call: Call, after: Snapshot)

  /** The timer runs its delay, or later, and fires before the deadline. */
  predicate Due(s: Snapshot, armed: int, start: int) {
    armed < Deadline(s) && armed + Delay(s, armed) <= start < Deadline(s)
  }

  predicate Settles(s: Snapshot, c: Call, after: Snapshot) {
    && c.start <= c.ended && after.horizon == s.horizon
    && match c.renewed
       case Some(expiry) =>
         expiry - c.ended >= MINIMUM_USABLE && after == Snapshot(Healthy, expiry, s.horizon, 0, 0)
       case None =>
         && after.state.Degraded? && after.expiresAt == s.expiresAt && after.attempts == s.attempts + 1
         && RetryDelay(after.attempts) <= after.nextRetry <= MAXIMUM_RETRY
  }

  predicate IsTurn(t: Turn) {
    Due(t.before, t.armed, t.call.start) && t.call.expiry == t.before.expiresAt && Settles(t.before, t.call, t.after)
  }

  predicate Follows(t: Turn, next: Turn) { next.before == t.after && next.armed >= t.call.ended }

  /** Consecutive turns of the loop from a snapshot on. */
  predicate IsLoop(s: Snapshot, turns: seq<Turn>) {
    && (turns != [] ==> turns[0].before == s)
    && (forall i :: 0 <= i < |turns| ==> IsTurn(turns[i]))
    && (forall i :: 0 < i < |turns| ==> Follows(turns[i - 1], turns[i]))
  }

  function Origin(first: int, horizon: Option<int>): Snapshot { Snapshot(Healthy, first, horizon, 0, 0) }

  /** The turns are a stretch of the loop that made these calls and left this snapshot. */
  predicate Traced(s: Snapshot, turns: seq<Turn>, calls: seq<Call>, now: Snapshot) {
    && IsLoop(s, turns) && |turns| == |calls| && (forall i :: 0 <= i < |turns| ==> turns[i].call == calls[i])
    && (now.state.Healthy? || now.state.Degraded? ==> now == if turns == [] then s else turns[|turns| - 1].after)
  }

  lemma TraceEnds(s: Snapshot, turns: seq<Turn>, calls: seq<Call>, now: Snapshot, ended: Snapshot)
    requires Traced(s, turns, calls, now) && ended.state.Expired?
    ensures Traced(s, turns, calls, ended)
  {
  }

  lemma Consecutive(t: Turn, next: Turn)
    requires next.before == t.after && next.armed >= t.call.ended
    ensures Follows(t, next)
  {
  }

  lemma TurnTaken(s: Snapshot, turns: seq<Turn>, calls: seq<Call>, t: Turn)
    requires Traced(s, turns, calls, t.before) && IsTurn(t) && (t.before.state.Healthy? || t.before.state.Degraded?)
    requires calls != [] ==> t.armed >= calls[|calls| - 1].ended
    ensures Traced(s, turns + [t], calls + [t.call], t.after)
  {
    hide IsTurn, Follows;
    var more := turns + [t];
    if turns != [] {
      Consecutive(turns[|turns| - 1], t);
    }
    forall i | 0 <= i < |more|
      ensures IsTurn(more[i]) && (i > 0 ==> Follows(more[i - 1], more[i]))
    {
      assert i < |turns| ==> IsTurn(turns[i]) && (i > 0 ==> Follows(turns[i - 1], turns[i]));
    }
  }

  class Lease {
    const began: int
    const first: int
    const horizon: Option<int>
    var clock: int
    var snapshot: Snapshot
    ghost var calls: seq<Call>
    ghost var turns: seq<Turn>

    /** Between rounds: the calls so far are spaced and in their windows, and the snapshot tells how the last went. */
    ghost predicate Resting()
      reads this
    {
      && Spaced(calls) && InWindow(began, first, horizon, calls)
      && snapshot.horizon == horizon && began <= clock && snapshot.attempts >= 0
      && snapshot.expiresAt == InForce(first, calls)
      && Traced(Origin(first, horizon), turns, calls, snapshot)
      && (snapshot.state.Degraded? ==> snapshot.nextRetry >= INITIAL_RETRY)
      && (calls != [] ==>
            var last := calls[|calls| - 1];
            && last.start <= last.ended <= clock
            && (snapshot.state.Degraded? ==> last.renewed.None?)
            && (snapshot.state.Healthy? ==> last.renewed.Some? && last.renewed.value - last.ended >= MINIMUM_USABLE))
    }

    /** StartLease */
    constructor (now: int, expiresAt: int, limit: Option<int>)
      ensures Resting() && calls == [] && clock == now && horizon == limit && began == now && first == expiresAt
      ensures snapshot == Snapshot(Healthy, expiresAt, limit, 0, 0)
    {
      began, first, horizon, clock := now, expiresAt, limit, now;
      snapshot := Snapshot(Healthy, expiresAt, limit, 0, 0);
      calls, turns := [], [];
    }

    /** The clock is monotonic and otherwise arbitrary. */
    method Now() returns (now: int)
      modifies this`clock
      ensures now == clock >= old(clock)
    {
      var later: int := *;
      if later > 0 {
        clock := clock + later;
      }
      now := clock;
    }

    /** expiredAt */
    method ExpiredAt(now: int) returns (expired: bool)
      modifies this`snapshot
      ensures expired <==> now >= Deadline(old(snapshot))
      ensures snapshot == if expired then old(snapshot).(state := Expired, nextRetry := 0) else old(snapshot)
    {
      if snapshot.horizon.Some? && now >= snapshot.horizon.value {
        snapshot := snapshot.(state := Expired, nextRetry := 0);
        return true;
      }
      if now >= snapshot.expiresAt {
        snapshot := snapshot.(state := Expired, nextRetry := 0);
        return true;
      }
      return false;
    }

    /** nextDelay: terminal at the deadline, else a delay that never runs past it. */
    method NextDelay() returns (delay: int, terminal: bool)
      modifies this`snapshot, this`clock
      ensures clock >= old(clock)
      ensures terminal <==> clock >= Deadline(old(snapshot))
      ensures snapshot == if terminal then old(snapshot).(state := Expired, nextRetry := 0) else old(snapshot)
      ensures !terminal ==> delay == Delay(snapshot, clock) && 0 <= delay <= Deadline(snapshot) - clock
      ensures !terminal && (snapshot.state.Degraded? && snapshot.nextRetry > 0) ==>
                delay == snapshot.nextRetry || (delay < snapshot.nextRetry && delay == Deadline(snapshot) - clock)
      ensures !terminal && snapshot.state.Healthy? && snapshot.expiresAt - clock < TWO_62 ==>
                && 3 * delay <= 2 * (snapshot.expiresAt - clock)
                && (3 * delay > 2 * (snapshot.expiresAt - clock) - 3
                    || (snapshot.horizon.Some? && clock + delay == snapshot.horizon.value))
    {
      var was := snapshot;
      var now := Now();
      terminal := ExpiredAt(now);
      if terminal {
        return 0, true;
      }
      if was.state.Degraded? && was.nextRetry > 0 {
        delay := was.nextRetry;
      } else {
        delay := DivTrunc(Wrap(Saturate(was.expiresAt - now) * 2), 3);
      }
      if delay < 0 {
        delay := 0;
      }
      var deadline := was.expiresAt;
      if was.horizon.Some? && was.horizon.value < deadline {
        deadline := was.horizon.value;
      }
      if now + delay > deadline {
        delay := deadline - now;
      }
      WaitsTwoThirds(snapshot, clock);
    }

    method SetRenewalFailure()
      requires snapshot.attempts >= 0
      modifies this`snapshot
      ensures snapshot.state.Degraded? && snapshot.attempts == old(snapshot.attempts) + 1
      ensures snapshot.expiresAt == old(snapshot.expiresAt) && snapshot.horizon == old(snapshot.horizon)
      ensures var base := RetryDelay(snapshot.attempts);
              base <= snapshot.nextRetry <= MAXIMUM_RETRY && snapshot.nextRetry <= base + base / 5
    {
      var attempts := snapshot.attempts + 1;
      var base := LeaseRetryDelay(attempts);
      RetryDelayRange(attempts);
      var jitter: int := *;
      snapshot := snapshot.(state := Degraded, attempts := attempts, nextRetry := BoundedJitter(base, jitter));
    }

    method SetRenewalSuccess(expiresAt: int)
      modifies this`snapshot
      ensures snapshot == Snapshot(Healthy, expiresAt, old(snapshot.horizon), 0, 0)
    {
      snapshot := snapshot.(state := Healthy, expiresAt := expiresAt, nextRetry := 0, attempts := 0);
    }

    /** Waiting for the timer: due unless cancelled, expired or past the horizon. */
    method AwaitTurn() returns (due: bool, now: int, ghost armed: int, ghost stopped: bool)
      requires Resting() && (snapshot.state.Healthy? || snapshot.state.Degraded?)
      modifies this`clock, this`snapshot
      ensures Resting()
      ensures due ==> snapshot == old(snapshot) && now == clock < Deadline(snapshot)
      ensures due ==> Due(snapshot, armed, now)
      ensures !due && !stopped ==> snapshot.state.Expired? && clock >= Deadline(old(snapshot))
      ensures due && calls != [] ==> SpacedAfter(calls[|calls| - 1], now) && armed >= calls[|calls| - 1].ended
    {
      hide Spaced, InWindow, Delay, SpacedAfter, Traced;
      ghost var before := snapshot;
      var delay, terminal := NextDelay();
      armed := clock;
      if terminal {
        TraceEnds(Origin(first, horizon), turns, calls, before, snapshot);
        return false, clock, armed, false;
      }
      DelayForward(snapshot, armed);
      var cancelled: bool := *;
      if cancelled {
        return false, clock, armed, true;
      }
      clock := clock + delay;
      now := Now();
      var expired := ExpiredAt(now);
      if expired {
        TraceEnds(Origin(first, horizon), turns, calls, before, snapshot);
        return false, now, armed, false;
      }
      if calls != [] {
        NextCallSpaced(snapshot, calls[|calls| - 1], armed, now);
      }
      return true, now, armed, false;
    }

    /** The call of Renew and the judgement of its outcome. */
    method Renew(now: int, ghost armed: int) returns (answer: Option<int>)
      requires Resting() && now == clock < Deadline(snapshot)
      requires (snapshot.state.Healthy? || snapshot.state.Degraded?) && Due(snapshot, armed, now)
      requires calls != [] ==> SpacedAfter(calls[|calls| - 1], now) && armed >= calls[|calls| - 1].ended
      modifies this
      ensures Resting() && (snapshot.state.Healthy? || snapshot.state.Degraded?)
      ensures |calls| == |old(calls)| + 1 && calls[..|old(calls)|] == old(calls)
      ensures calls[|old(calls)|].start == now && calls[|old(calls)|].expiry == old(snapshot.expiresAt)
      ensures snapshot.state.Healthy? <==> calls[|old(calls)|].renewed.Some?
      ensures calls[|old(calls)|].renewed
              == if answer.Some? && answer.value - calls[|old(calls)|].ended >= MINIMUM_USABLE then answer else None
      ensures snapshot.state.Healthy? ==> snapshot.attempts == 0
      ensures snapshot.state.Degraded? ==> snapshot.attempts == old(snapshot.attempts) + 1
    {
      hide Spaced, InWindow, InForce, SpacedAfter, RetryDelay, Traced, Due;
      ghost var before, expiry := snapshot, snapshot.expiresAt;
      snapshot := snapshot.(state := Renewing);
      answer := *;
      var judged := Now();
      var usable := answer.Some? && Saturate(answer.value - judged) >= MINIMUM_USABLE;
      ghost var call := Call(now, expiry, judged, if usable then answer else None);
      CallAppended(began, first, horizon, calls, call);
      if usable {
        SetRenewalSuccess(answer.value);
      } else {
        SetRenewalFailure();
        RetryDelayRange(snapshot.attempts);
      }
      ghost var turn := Turn(before, armed, call, snapshot);
      TurnTaken(Origin(first, horizon), turns, calls, turn);
      calls, turns := calls + [call], turns + [turn];
    }

    /** One turn of the loop. false: the lease is over or cancelled, and no call was made. */
    method Round() returns (running: bool, ghost stopped: bool)
      requires Resting() && (snapshot.state.Healthy? || snapshot.state.Degraded?)
      modifies this
      ensures Resting()
      ensures running ==> snapshot.state.Healthy? || snapshot.state.Degraded?
      ensures running ==> |calls| == |old(calls)| + 1 && calls[..|old(calls)|] == old(calls)
      ensures !running ==> calls == old(calls) && (stopped || snapshot.state.Expired?)
    {
      hide Spaced, InWindow, InForce, SpacedAfter, Traced, Due;
      var now: int;
      ghost var armed: int;
      running, now, armed, stopped := AwaitTurn();
      if running {
        var answer := Renew(now, armed);
      }
    }

    /** The loop, for any number of rounds. */
    method Run(rounds: nat) returns (ghost stopped: bool)
      requires Resting() && snapshot.state.Healthy? && calls == []
      modifies this
      ensures Spaced(calls) && InWindow(began, first, horizon, calls) && |calls| <= rounds
      ensures IsLoop(Origin(first, horizon), turns) && |turns| == |calls|
      ensures forall i :: 0 <= i < |turns| ==> turns[i].call == calls[i]
      ensures |calls| == rounds || stopped || snapshot.state.Expired?
    {
      var running := true;
      stopped := false;
      var i := 0;
      while i < rounds && running
        invariant i <= rounds && |calls| <= i && Resting()
        invariant if running then |calls| == i else stopped || snapshot.state.Expired?
        invariant running ==> snapshot.state.Healthy? || snapshot.state.Degraded?
        decreases rounds - i
      {
        running, stopped := Round();
        i := i + 1;
      }
    }
  }

  lemma DelayForward(s: Snapshot, now: int)
    requires now < Deadline(s)
    ensures Delay(s, now) >= 0
  {
  }

  /** When the timer armed after a call fires in time, the next call is spaced from it. */
  lemma NextCallSpaced(s: Snapshot, last: Call, armed: int, now: int)
    requires last.start <= last.ended <= armed < Deadline(s) && now >= armed + Delay(s, armed) && now < Deadline(s)
    requires s.state.Degraded? ==> last.renewed.None? && s.nextRetry >= INITIAL_RETRY
    requires s.state.Healthy? ==> last.renewed == Some(s.expiresAt) && s.expiresAt - last.ended >= MINIMUM_USABLE
    requires s.state.Degraded? || s.state.Healthy?
    ensures SpacedAfter(last, now)
  {
    var remaining := s.expiresAt - armed;
    if s.state.Healthy? && Fits(last) {
      if remaining > 1 {
        TwoThirdsExactlyBelowOverflow(remaining);
      }
      assert TwoThirds(remaining) == 2 * remaining / 3;
      assert 3 * (2 * remaining / 3) >= 2 * remaining - 2;
    }
  }

  // ---------------------------------------------------------------------------------------------
  // The rate bound

  lemma {:induction false} StartsAdvance(calls: seq<Call>, k: nat)
    requires Spaced(calls) && k < |calls| && forall c :: c in calls ==> Fits(c)
    ensures calls[k].start >= calls[0].start + k * INITIAL_RETRY
  {
    if k == 0 {
    } else {
      StartsAdvance(calls, k - 1);
      assert SpacedAfter(calls[k - 1], calls[k].start) && calls[k - 1] in calls;
    }
  }

  /** Before a horizon at most one call fits in every five seconds. */
  lemma RateBound(began: int, first: int, horizon: int, calls: seq<Call>)
    requires Spaced(calls) && InWindow(began, first, Some(horizon), calls) && calls != []
    requires forall c :: c in calls ==> Fits(c)
    ensures (|calls| - 1) * INITIAL_RETRY < horizon - began
    ensures |calls| <= (horizon - began) / INITIAL_RETRY + 1
  {
    StartsAdvance(calls, |calls| - 1);
    assert began <= calls[0].start && calls[|calls| - 1].start < horizon;
  }

  // ---------------------------------------------------------------------------------------------
  // Lifetimes too long for the product

  /** After a usable renewal the loop waits long enough, or to the deadline, exactly when the remaining lifetime is
      below 2^62 nanoseconds. From there on it does not wait at all. */
  lemma WaitsIffFits(s: Snapshot, now: int)
    requires s.state.Healthy? && now < Deadline(s) && s.expiresAt - now >= MINIMUM_USABLE
    ensures Delay(s, now) >= Min(AFTER_SUCCESS, Deadline(s) - now) <==> s.expiresAt - now < TWO_62
    ensures s.expiresAt - now >= TWO_62 ==> Delay(s, now) == 0
  {
    TwoThirdsExactlyBelowOverflow(s.expiresAt - now);
  }

  /** A healthy lease waits two thirds of its remaining life, to the nanosecond, or to the horizon if that is
      nearer; a degraded one waits its retry delay, or to the deadline. */
  lemma WaitsTwoThirds(s: Snapshot, now: int)
    requires now < Deadline(s)
    ensures 0 <= Delay(s, now) <= Deadline(s) - now
    ensures s.state.Degraded? && s.nextRetry > 0 ==> Delay(s, now) == Min(s.nextRetry, Deadline(s) - now)
    ensures s.state.Healthy? && s.expiresAt - now < TWO_62 ==>
              && 3 * Delay(s, now) <= 2 * (s.expiresAt - now)
              && (3 * Delay(s, now) > 2 * (s.expiresAt - now) - 3
                  || (s.horizon.Some? && now + Delay(s, now) == s.horizon.value))
  {
    var remaining := s.expiresAt - now;
    if remaining > 1 {
      TwoThirdsExactlyBelowOverflow(remaining);
    } else {
      assert Wrap(2) == 2;
    }
  }

  /** A healthy lease with a fitting life calls Renew before it expires: the turn exists exactly when the horizon, if
      any, lies beyond the two-thirds point, and a timer that fires on time makes the call no later than that point. */
  lemma HealthyRenewsInTime(s: Snapshot, now: int, outcome: Option<int>) returns (t: Turn)
    requires s.state.Healthy? && now < Deadline(s) && s.expiresAt - now < TWO_62
    requires outcome.Some? ==> outcome.value - now - Delay(s, now) >= MINIMUM_USABLE
    ensures t.before == s && t.armed == now && t.call.start == now + Delay(s, now) && t.call.renewed == outcome
    ensures IsTurn(t) <==> s.horizon.None? || now + 2 * (s.expiresAt - now) / 3 < s.horizon.value
    ensures IsTurn(t) ==> 3 * (t.call.start - now) <= 2 * (s.expiresAt - now) && t.call.start < s.expiresAt
  {
    WaitsTwoThirds(s, now);
    var start := now + Delay(s, now);
    var after := match outcome
      case Some(expiry) => Snapshot(Healthy, expiry, s.horizon, 0, 0)
      case None => Snapshot(Degraded, s.expiresAt, s.horizon, RetryDelay(s.attempts + 1), s.attempts + 1);
    RetryDelayRange(s.attempts + 1);
    t := Turn(s, now, Call(start, s.expiresAt, start, outcome), after);
  }

  /** And a degraded one retries exactly when its retry delay ends before the deadline. */
  lemma DegradedRetries(s: Snapshot, now: int, start: int)
    requires s.state.Degraded? && s.nextRetry > 0 && now < Deadline(s)
    ensures (exists fires :: Due(s, now, fires)) <==> now + s.nextRetry < Deadline(s)
    ensures Due(s, now, start) ==> start >= now + s.nextRetry
  {
    WaitsTwoThirds(s, now);
    assert now + s.nextRetry < Deadline(s) ==> Due(s, now, now + s.nextRetry);
  }

  /** The rate bound needs Fits: from any healthy snapshot with 2^62 nanoseconds or more to live the loop may, at any
      time before the deadline, make any number of calls in the same nanosecond. */
  lemma OverlongLifetimeBreaksRate(s: Snapshot, now: int, n: nat) returns (turns: seq<Turn>)
    requires s == Origin(s.expiresAt, s.horizon) && now < Deadline(s) && s.expiresAt - now >= TWO_62
    ensures IsLoop(s, turns) && |turns| == n
    ensures forall i :: 0 <= i < n ==> turns[i].call.start == now
  {
    WaitsIffFits(s, now);
    var turn := Turn(s, now, Call(now, s.expiresAt, now, Some(s.expiresAt)), s);
    assert IsTurn(turn);
    turns := seq(n, i => turn);
  }
}
