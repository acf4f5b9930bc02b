/** The lease's loop and Stop as two interleaved threads (internal/engine/creds/lease.go, run and Stop):
    after Stop returns, no callback starts and no timer is armed. */
module LeaseStop {
  import opened Wrappers

  /** Where the renewal loop is. */
  datatype Loop =
    | Top                     // about to compute the delay
    | Arming                  // about to create the timer
    | Publishing(timer: nat)  // created, not yet stored in the lease
    | Selecting(timer: nat)   // waiting for the timer or cancellation
    | Checking                // the timer fired
    | Announcing
    | Renewing
    | Settling
    | Exited

  /** Where Stop is. */
  datatype Stopper =
    | NotCalled
    | Cancelled
    | FirstStop(seen: Option<nat>)
    | Waiting
    | Reading
    | SecondStop(seen: Option<nat>)
    | Returned

  /** callbacks counts the OnChange and Renew calls started so far. */
  datatype State = State(
    loop: Loop, stopper: Stopper, cancelled: bool, published: Option<nat>,
    armed: set<nat>, fired: set<nat>, created: nat, callbacks: nat
  )

  const INITIAL := State(Top, NotCalled, false, None, {}, {}, 0, 0)

  predicate LoopStep(s: State, t: State) {
    match s.loop
    case Top =>
      t == s.(loop := Arming) || t == s.(loop := Exited, callbacks := s.callbacks + 1)
    case Arming =>
      t == s.(loop := Publishing(s.created), armed := s.armed + {s.created}, created := s.created + 1)
    case Publishing(timer) =>
      t == s.(loop := Selecting(timer), published := Some(timer))
    case Selecting(timer) =>
      || (s.cancelled && t == s.(loop := Exited))
      || (timer in s.fired && t == s.(loop := Checking))
    case Checking =>
      t == s.(loop := Announcing) || t == s.(loop := Exited, callbacks := s.callbacks + 1)
    case Announcing => t == s.(loop := Renewing, callbacks := s.callbacks + 1)
    case Renewing => t == s.(loop := Settling, callbacks := s.callbacks + 1)
    case Settling => t == s.(loop := Top, callbacks := s.callbacks + 1)
    case Exited => false
  }

  function Disarm(armed: set<nat>, timer: Option<nat>): set<nat> {
    if timer.Some? then armed - {timer.value} else armed
  }

  predicate StopStep(s: State, t: State) {
    match s.stopper
    case NotCalled => t == s.(stopper := Cancelled, cancelled := true)
    case Cancelled => t == s.(stopper := FirstStop(s.published))
    case FirstStop(seen) => t == s.(stopper := Waiting, armed := Disarm(s.armed, seen))
    case Waiting => s.loop.Exited? && t == s.(stopper := Reading)
    case Reading => t == s.(stopper := SecondStop(s.published))
    case SecondStop(seen) => t == s.(stopper := Returned, armed := Disarm(s.armed, seen))
    case Returned => false
  }

  /** An armed timer reaches its deadline. */
  ghost predicate FireStep(s: State, t: State) {
    exists timer :: timer in s.armed && t == s.(armed := s.armed - {timer}, fired := s.fired + {timer})
  }

  ghost predicate Step(s: State, t: State) {
    LoopStep(s, t) || StopStep(s, t) || FireStep(s, t)
  }

  ghost predicate IsRun(run: seq<State>) {
    |run| > 0 && run[0] == INITIAL && forall i :: 0 < i < |run| ==> Step(run[i - 1], run[i])
  }

  /** The only timer that can be armed is the last one created, and once the loop has left it, the last published. */
  predicate Inv(s: State) {
    && (forall timer :: timer in s.armed ==> timer !in s.fired && timer < s.created)
    && (forall timer :: timer in s.fired ==> timer < s.created)
    && (match s.loop
        case Publishing(timer) => s.armed <= {timer}
        case Selecting(timer) => s.armed <= {timer} && s.published == Some(timer)
        case Exited => s.armed <= if s.published.Some? then {s.published.value} else {}
        case _ => s.armed == {})
    && (s.stopper.NotCalled? || s.cancelled)
    && (s.stopper.Reading? || s.stopper.SecondStop? || s.stopper.Returned? ==> s.loop.Exited?)
    && (s.stopper.SecondStop? ==> s.stopper.seen == s.published)
    && (s.stopper.Returned? ==> s.armed == {})
  }

  lemma StepKeepsInv(s: State, t: State)
    requires Inv(s) && Step(s, t)
    ensures Inv(t)
  {
    if FireStep(s, t) {
      var timer :| timer in s.armed && t == s.(armed := s.armed - {timer}, fired := s.fired + {timer});
    } else if StopStep(s, t) {
      assert t.armed <= s.armed;
    } else {
      assert LoopStep(s, t);
    }
  }

  lemma {:induction false} RunKeepsInv(run: seq<State>, k: nat)
    requires IsRun(run) && k < |run|
    ensures Inv(run[k])
  {
    if k == 0 {
    } else {
      RunKeepsInv(run, k - 1);
      StepKeepsInv(run[k - 1], run[k]);
    }
  }

  /** Quiescence: from the moment Stop has returned, no callback starts and no timer is armed, whatever happens. */
  lemma {:induction false} StopQuiesces(run: seq<State>, i: nat, j: nat)
    requires IsRun(run) && i <= j < |run| && run[i].stopper.Returned?
    ensures run[j].stopper.Returned? && run[j].loop.Exited? && run[j].armed == {}
    ensures run[j].callbacks == run[i].callbacks
  {
    RunKeepsInv(run, j);
    if i < j {
      StopQuiesces(run, i, j - 1);
      assert Step(run[j - 1], run[j]);
    } else {
      RunKeepsInv(run, i);
    }
  }

  /** Cancellation always lets the loop finish: while Stop waits, the loop has exited or can take a step. */
  lemma WaitEnds(run: seq<State>, k: nat) returns (next: State)
    requires IsRun(run) && k < |run| && run[k].stopper.Waiting? && !run[k].loop.Exited?
    ensures LoopStep(run[k], next)
  {
    RunKeepsInv(run, k);
    var s := run[k];
    next := match s.loop
      case Top => s.(loop := Arming)
      case Arming => s.(loop := Publishing(s.created), armed := s.armed + {s.created}, created := s.created + 1)
      case Publishing(timer) => s.(loop := Selecting(timer), published := Some(timer))
      case Selecting(_) => s.(loop := Exited)
      case Checking => s.(loop := Announcing)
      case Announcing => s.(loop := Renewing, callbacks := s.callbacks + 1)
      case Renewing => s.(loop := Settling, callbacks := s.callbacks + 1)
      case Settling => s.(loop := Top, callbacks := s.callbacks + 1)
      case Exited => s;
  }

  /** The second timer stop is needed: a run in which the first stop finds no timer, the loop then arms and
      publishes one, and that timer is still armed when Stop has seen the loop exit. */
  lemma FirstStopIsNotEnough() returns (run: seq<State>)
    ensures IsRun(run) && run[|run| - 1].stopper.Reading? && run[|run| - 1].armed != {}
  {
    var s0 := INITIAL;
    var s1 := s0.(loop := Arming);
    var s2 := s1.(stopper := Cancelled, cancelled := true);
    var s3 := s2.(stopper := FirstStop(None));
    var s4 := s3.(stopper := Waiting);
    var s5 := s4.(loop := Publishing(0), armed := {0}, created := 1);
    var s6 := s5.(loop := Selecting(0), published := Some(0));
    var s7 := s6.(loop := Exited);
    var s8 := s7.(stopper := Reading);
    assert s4.armed + {0} == {0};
    run := [s0, s1, s2, s3, s4, s5, s6, s7, s8];
    assert Step(s0, s1) && Step(s1, s2) && Step(s2, s3) && Step(s3, s4);
    assert Step(s4, s5) && Step(s5, s6) && Step(s6, s7) && Step(s7, s8);
  }

  function Below(n: nat): set<nat> {
    if n == 0 then {} else Below(n - 1) + {n - 1}
  }

  /** The loop at its top after n rounds that nothing disturbed. */
  function AfterRounds(n: nat): State {
    State(Top, NotCalled, false, if n == 0 then None else Some(n - 1), {}, Below(n), n, 3 * n)
  }

  lemma RunMore(run: seq<State>, t: State)
    requires IsRun(run) && Step(run[|run| - 1], t)
    ensures IsRun(run + [t])
  {
    hide Step;
    var more := run + [t];
    forall i | 0 < i < |more|
      ensures Step(more[i - 1], more[i])
    {
      assert i < |run| ==> Step(run[i - 1], run[i]);
    }
  }

  /** Undisturbed the loop renews again and again: for any n there is a run of n rounds, each arming one timer, firing
      it, and making one announcement, one Renew and one more announcement. */
  lemma {:induction false} RoundsGoOn(n: nat) returns (run: seq<State>)
    ensures IsRun(run) && run[|run| - 1] == AfterRounds(n)
  {
    if n == 0 {
      run := [INITIAL];
    } else {
      run := RoundsGoOn(n - 1);
      var k := n - 1;
      var a := AfterRounds(k);
      var b := a.(loop := Arming);
      var c := b.(loop := Publishing(k), armed := {k}, created := n);
      var d := c.(loop := Selecting(k), published := Some(k));
      var e := d.(armed := {}, fired := Below(n));
      var f := e.(loop := Checking);
      var g := f.(loop := Announcing);
      var h := g.(loop := Renewing, callbacks := 3 * k + 1);
      var i := h.(loop := Settling, callbacks := 3 * k + 2);
      var j := i.(loop := Top, callbacks := 3 * n);
      assert b.armed + {k} == {k} && LoopStep(a, b) && LoopStep(b, c) && LoopStep(c, d);
      assert FireStep(d, e) by {
        assert k in d.armed && d.armed - {k} == {} && d.fired + {k} == e.fired;
        assert e == d.(armed := d.armed - {k}, fired := d.fired + {k});
      }
      assert LoopStep(e, f) && LoopStep(f, g) && LoopStep(g, h) && LoopStep(h, i) && LoopStep(i, j);
      hide LoopStep, FireStep;
      RunMore(run, b);
      RunMore(run + [b], c);
      RunMore(run + [b] + [c], d);
      RunMore(run + [b] + [c] + [d], e);
      RunMore(run + [b] + [c] + [d] + [e], f);
      RunMore(run + [b] + [c] + [d] + [e] + [f], g);
      RunMore(run + [b] + [c] + [d] + [e] + [f] + [g], h);
      RunMore(run + [b] + [c] + [d] + [e] + [f] + [g] + [h], i);
      RunMore(run + [b] + [c] + [d] + [e] + [f] + [g] + [h] + [i], j);
      run := run + [b] + [c] + [d] + [e] + [f] + [g] + [h] + [i] + [j];
    }
  }
}
