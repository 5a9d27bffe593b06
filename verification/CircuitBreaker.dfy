/** The circuit breaker (src/distributed_cluster/__init__.py, CircuitBreaker.call). A call takes
    the lock twice, once to enter and once when it completes; in between any number of other
    calls may enter and complete. Each lock section is one event. */
module CircuitBreaker {
  import opened Common

  datatype State = Closed | Open | HalfOpen

  datatype Breaker = Breaker(state: State, failures: int, lastFailure: real)

  /** A cancelled call leaves without touching the breaker, so it is no event. */
  datatype Event = Enter(now: real) | Succeed | Fail(now: real)

  const INITIAL := Breaker(Closed, 0, 0.0)

  /** The first lock section: the new state, and whether the call may go ahead. */
  function Entered(b: Breaker, timeout: real, now: real): (Breaker, bool) {
    if b.state.Open? then
      if now - b.lastFailure >= timeout then (b.(state := HalfOpen), true) else (b, false)
    else (b, true)
  }

  function Failed(b: Breaker, threshold: int, now: real): Breaker {
    Breaker(if b.failures + 1 >= threshold then Open else b.state, b.failures + 1, now)
  }

  function Next(b: Breaker, threshold: int, timeout: real, e: Event): Breaker {
    match e
    case Enter(now) => Entered(b, timeout, now).0
    case Succeed => b.(failures := 0, state := Closed)
    case Fail(now) => Failed(b, threshold, now)
  }

  function After(threshold: int, timeout: real, log: seq<Event>): Breaker {
    if log == [] then INITIAL
    else Next(After(threshold, timeout, log[..|log| - 1]), threshold, timeout, log[|log| - 1])
  }

  // ----- the stateless specification, over the log of completions -----

  /** Failures completed since the last completed success. */
  function FailuresSinceSuccess(log: seq<Event>): nat {
    if log == [] then 0
    else
      var before := FailuresSinceSuccess(log[..|log| - 1]);
      match log[|log| - 1]
      case Enter(_) => before
      case Succeed => 0
      case Fail(_) => before + 1
  }

  /** The clock of the last failure, 0 when there was none. */
  function LastFailure(log: seq<Event>): real {
    if log == [] then 0.0
    else
      match log[|log| - 1]
      case Fail(now) => now
      case _ => LastFailure(log[..|log| - 1])
  }

  predicate Admits(threshold: int, timeout: real, log: seq<Event>, now: real) {
    FailuresSinceSuccess(log) < threshold || now - LastFailure(log) >= timeout
  }

  /** Clock readings never go back. `upTo` bounds the readings made so far. */
  ghost predicate ClockedBy(log: seq<Event>, upTo: real) {
    log == []
    || match log[|log| - 1]
       case Succeed => ClockedBy(log[..|log| - 1], upTo)
       case Enter(t) => t <= upTo && ClockedBy(log[..|log| - 1], t)
       case Fail(t) => t <= upTo && ClockedBy(log[..|log| - 1], t)
  }

  /** What every interleaving keeps. A threshold below 1 acts like 1. */
  lemma {:induction false} Invariants(threshold: int, timeout: real, log: seq<Event>, now: real)
    requires ClockedBy(log, now)
    ensures var b := After(threshold, timeout, log);
            && b.failures == FailuresSinceSuccess(log)
            && b.lastFailure == LastFailure(log)
            && (b.state == Closed <==> b.failures < Max(threshold, 1))
            && (b.state == HalfOpen ==> now - b.lastFailure >= timeout)
  {
    if log == [] {
    } else {
      var before := log[..|log| - 1];
      match log[|log| - 1] {
        case Succeed => Invariants(threshold, timeout, before, now);
        case Enter(t) => Invariants(threshold, timeout, before, t);
        case Fail(t) => Invariants(threshold, timeout, before, t);
      }
    }
  }

  /** Main result: after any interleaving of entries and completions, a call entering now is
      admitted exactly when fewer failures than the threshold have completed since the last
      completed success, or the timeout has passed since the last failure. */
  lemma AdmitsExactly(threshold: int, timeout: real, log: seq<Event>, now: real)
    requires ClockedBy(log, now)
    ensures Entered(After(threshold, timeout, log), timeout, now).1 <==> Admits(Max(threshold, 1), timeout, log, now)
  {
    Invariants(threshold, timeout, log, now);
  }

  /** Some call has entered since the last completion, at least the timeout after the last
      failure, when the failures had reached the threshold: it probes the half-open breaker. */
  predicate Probed(threshold: int, timeout: real, log: seq<Event>) {
    log != []
    && var before, last := log[..|log| - 1], log[|log| - 1];
       last.Enter?
       && (Probed(threshold, timeout, before)
           || (FailuresSinceSuccess(before) >= threshold && last.now - LastFailure(before) >= timeout))
  }

  /** What every interleaving keeps whatever the clock does. */
  lemma {:induction false} InvariantsAnyClock(threshold: int, timeout: real, log: seq<Event>)
    ensures var b := After(threshold, timeout, log);
            && b.failures == FailuresSinceSuccess(log)
            && b.lastFailure == LastFailure(log)
            && (b.state == Closed <==> b.failures < Max(threshold, 1))
            && (b.state == HalfOpen <==> Probed(Max(threshold, 1), timeout, log))
  {
    if log == [] {
    } else {
      InvariantsAnyClock(threshold, timeout, log[..|log| - 1]);
    }
  }

  /** The specification without a clock assumption: a call is admitted by the specification or
      because another one is probing. */
  lemma AdmitsOrProbed(threshold: int, timeout: real, log: seq<Event>, now: real)
    ensures Entered(After(threshold, timeout, log), timeout, now).1
       <==> Admits(Max(threshold, 1), timeout, log, now) || Probed(Max(threshold, 1), timeout, log)
  {
    InvariantsAnyClock(threshold, timeout, log);
  }

  lemma {:induction false} ProbedAtThreshold(threshold: int, timeout: real, log: seq<Event>)
    requires Probed(threshold, timeout, log)
    ensures FailuresSinceSuccess(log) >= threshold
  {
    if !Probed(threshold, timeout, log[..|log| - 1]) {
    } else {
      ProbedAtThreshold(threshold, timeout, log[..|log| - 1]);
    }
  }

  /** So the breaker departs from the specification exactly when a probe is under way and the
      clock has since gone back to before the timeout. */
  lemma DepartsExactly(threshold: int, timeout: real, log: seq<Event>, now: real)
    ensures (Entered(After(threshold, timeout, log), timeout, now).1 <==> Admits(Max(threshold, 1), timeout, log, now))
       <==> !(Probed(Max(threshold, 1), timeout, log) && now - LastFailure(log) < timeout)
  {
    AdmitsOrProbed(threshold, timeout, log, now);
    if Probed(Max(threshold, 1), timeout, log) {
      ProbedAtThreshold(Max(threshold, 1), timeout, log);
    }
  }

  /** Such a clock: the second call enters although it comes less than the timeout after the
      failure. */
  lemma ClockGoingBackBreaksIt()
    ensures var log := [Fail(10.0), Enter(50.0)];
            && !ClockedBy(log, 20.0)
            && Entered(After(1, 30.0, log), 30.0, 20.0).1
            && !Admits(1, 30.0, log, 20.0)
  {
    var log := [Fail(10.0), Enter(50.0)];
    assert log[..1] == [Fail(10.0)] && log[..1][..0] == [];
    assert After(1, 30.0, [Fail(10.0)]) == Breaker(Open, 1, 10.0);
    assert After(1, 30.0, log) == Breaker(HalfOpen, 1, 10.0);
    assert FailuresSinceSuccess(log) == FailuresSinceSuccess([Fail(10.0)]) == 1;
    assert LastFailure(log) == LastFailure([Fail(10.0)]) == 10.0;
  }

  lemma {:induction false} FailuresPile(log: seq<Event>, t: real, more: seq<Event>, now: real)
    requires ClockedBy(log + [Fail(t)] + more, now) && Succeed !in more
    ensures FailuresSinceSuccess(log + [Fail(t)] + more) >= FailuresSinceSuccess(log) + 1
    ensures t <= LastFailure(log + [Fail(t)] + more) && t <= now
    decreases |more|
  {
    var all := log + [Fail(t)] + more;
    if more == [] {
      assert all[..|all| - 1] == log;
    } else {
      var last := more[|more| - 1];
      assert last in more;
      assert all[..|all| - 1] == log + [Fail(t)] + more[..|more| - 1];
      FailuresPile(log, t, more[..|more| - 1], last.now);
    }
  }

  /** A tripped breaker stays shut: while no call succeeds, every call entering less than
      `timeout` after some failure that reached the threshold is refused. */
  lemma StaysShut(threshold: int, timeout: real, log: seq<Event>, more: seq<Event>, t: real, now: real)
    requires ClockedBy(log + [Fail(t)] + more, now) && now < t + timeout
    requires FailuresSinceSuccess(log) + 1 >= Max(threshold, 1)
    requires Succeed !in more
    ensures !Entered(After(threshold, timeout, log + [Fail(t)] + more), timeout, now).1
  {
    FailuresPile(log, t, more, now);
    AdmitsExactly(threshold, timeout, log + [Fail(t)] + more, now);
  }

  datatype Admission = Admitted | Refused(remaining: real)

  class Circuit {
    const threshold: int
    const timeout: real
    var state: State
    var failures: int
    var lastFailure: real

    ghost function View(): Breaker
      reads this
    {
      Breaker(state, failures, lastFailure)
    }

    constructor (threshold: int := 5, timeout: real := 30.0)
      ensures View() == INITIAL
      ensures this.threshold == threshold && this.timeout == timeout
    {
      this.threshold, this.timeout := threshold, timeout;
      state, failures, lastFailure := Closed, 0, 0.0;
    }

    /** A refusal carries the remaining time, for which the clock is read a second time. */
    method Enter(now: real, again: real) returns (r: Admission)
      modifies this`state
      ensures (View(), r.Admitted?) == Entered(old(View()), timeout, now)
      ensures r.Refused? ==> r.remaining == lastFailure + timeout - again && (again <= now ==> r.remaining > 0.0)
      ensures forall log :: old(View()) == After(threshold, timeout, log) ==>
                (r.Admitted?
                 <==> Admits(Max(threshold, 1), timeout, log, now) || Probed(Max(threshold, 1), timeout, log))
      ensures forall log :: old(View()) == After(threshold, timeout, log) && ClockedBy(log, now) ==>
                (r.Admitted? <==> Admits(Max(threshold, 1), timeout, log, now))
    {
      forall log | View() == After(threshold, timeout, log)
        ensures Entered(View(), timeout, now).1
           <==> Admits(Max(threshold, 1), timeout, log, now) || Probed(Max(threshold, 1), timeout, log)
      {
        AdmitsOrProbed(threshold, timeout, log, now);
      }
      forall log | View() == After(threshold, timeout, log) && ClockedBy(log, now)
        ensures Entered(View(), timeout, now).1 <==> Admits(Max(threshold, 1), timeout, log, now)
      {
        AdmitsExactly(threshold, timeout, log, now);
      }
      if state == Open {
        if now - lastFailure >= timeout {
          state := HalfOpen;
        } else {
          return Refused(timeout - (again - lastFailure));
        }
      }
      r := Admitted;
    }

    method OnSuccess()
      modifies this`state, this`failures
      ensures View() == Next(old(View()), threshold, timeout, Succeed)
    {
      failures := 0;
      state := Closed;
    }

    method OnFailure(now: real)
      modifies this`state, this`failures, this`lastFailure
      ensures View() == Next(old(View()), threshold, timeout, Fail(now))
    {
      failures := failures + 1;
      lastFailure := now;
      if failures >= threshold {
        state := Open;
      }
    }
  }
}
