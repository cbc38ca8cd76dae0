/**
 * CircuitBreaker: the object, updated in place by calls that may overlap, and the run of events it has seen.
 * An event is one atomic step: a call asking to start, or a call in flight coming back.
 */
module CircuitBreaker {
  import opened Option

  datatype CircuitState = Closed | Open | HalfOpen

  /** How a call ended; an exception outside the expected type is not recorded. */
  datatype Outcome = Succeeded | Failed | OtherException

  datatype Event = Request(now: real) | Return(outcome: Outcome, now: real)

  datatype Config = Config(threshold: int, timeout: real)

  datatype Breaker = Breaker(state: CircuitState, failures: nat, successes: nat, lastFailure: Option<real>)

  // ---------- one step ----------

  predicate ResetDue(c: Config, b: Breaker, now: real) {
    b.lastFailure.None? || now - b.lastFailure.value >= c.timeout
  }

  predicate Admits(c: Config, b: Breaker, now: real) {
    b.state.Open? ==> ResetDue(c, b, now)
  }

  function Ask(c: Config, b: Breaker, now: real): Breaker {
    if b.state.Open? && ResetDue(c, b, now) then b.(state := HalfOpen) else b
  }

  function Success(b: Breaker): Breaker {
    if !b.state.HalfOpen? then b.(failures := 0)
    else if b.successes + 1 >= 3 then b.(failures := 0, state := Closed, successes := 0)
    else b.(failures := 0, successes := b.successes + 1)
  }

  function Failure(c: Config, b: Breaker, now: real): Breaker {
    var failed := b.(failures := b.failures + 1, lastFailure := Some(now));
    if b.state.HalfOpen? then failed.(state := Open, successes := 0)
    else if failed.failures >= c.threshold then failed.(state := Open)
    else failed
  }

  function Step(c: Config, b: Breaker, e: Event): Breaker {
    match e
    case Request(now) => Ask(c, b, now)
    case Return(Succeeded, _) => Success(b)
    case Return(Failed, now) => Failure(c, b, now)
    case Return(OtherException, _) => b
  }

  const FRESH := Breaker(Closed, 0, 0, None)

  /** The breaker after a run. */
  function After(c: Config, run: seq<Event>): Breaker {
    if run == [] then FRESH else Step(c, After(c, run[..|run| - 1]), run[|run| - 1])
  }

  // ---------- what the run alone says ----------

  predicate IsFailure(e: Event) { e.Return? && e.outcome.Failed? }

  predicate IsSuccess(e: Event) { e.Return? && e.outcome.Succeeded? }

  /** Failures since the last recorded success. */
  function FailureStreak(run: seq<Event>): nat {
    if run == [] || IsSuccess(run[|run| - 1]) then 0
    else FailureStreak(run[..|run| - 1]) + if IsFailure(run[|run| - 1]) then 1 else 0
  }

  function LatestFailure(run: seq<Event>): Option<real> {
    if run == [] then None
    else if IsFailure(run[|run| - 1]) then Some(run[|run| - 1].now)
    else LatestFailure(run[..|run| - 1])
  }

  function Successes(run: seq<Event>): nat {
    if run == [] then 0
    else Successes(run[..|run| - 1]) + if IsSuccess(run[|run| - 1]) then 1 else 0
  }

  ghost predicate NoFailure(run: seq<Event>) {
    forall k | 0 <= k < |run| :: !IsFailure(run[k])
  }

  ghost predicate NonDecreasing(run: seq<Event>) {
    forall i, j | 0 <= i <= j < |run| :: run[i].now <= run[j].now
  }

  // ---------- the object ----------

  class CircuitBreaker {
    const config: Config
    var state: CircuitState
    var failureCount: nat
    var successCount: nat
    var lastFailureTime: Option<real>
    ghost var log: seq<Event>

    ghost function Abstract(): Breaker
      reads this
    {
      Breaker(state, failureCount, successCount, lastFailureTime)
    }

    ghost predicate Valid()
      reads this
    {
      Abstract() == After(config, log)
    }

    constructor (threshold: int, timeout: real)
      ensures Valid() && log == [] && config == Config(threshold, timeout)
    {
      config := Config(threshold, timeout);
      state, failureCount, successCount, lastFailureTime := Closed, 0, 0, None;
      log := [];
    }

    predicate ShouldAttemptReset(now: real)
      reads this
      ensures ShouldAttemptReset(now) <==> ResetDue(config, Abstract(), now)
    {
      if lastFailureTime.None? then true else now - lastFailureTime.value >= config.timeout
    }

    function TimeUntilReset(now: real): (t: real)
      reads this
      ensures t >= 0.0 && (config.timeout > 0.0 ==> (t == 0.0 <==> ShouldAttemptReset(now)))
      ensures ShouldAttemptReset(now + t)
      ensures forall later | now <= later < now + t :: !ShouldAttemptReset(later)
    {
      if lastFailureTime.None? then 0.0
      else
        var elapsed := now - lastFailureTime.value;
        if config.timeout - elapsed > 0.0 then config.timeout - elapsed else 0.0
    }

    /** `__aenter__`: raises, here `admitted == false`, while open. */
    method Enter(now: real) returns (admitted: bool)
      requires Valid()
      modifies this
      ensures Valid() && log == old(log) + [Request(now)]
      ensures admitted == Admits(config, After(config, old(log)), now)
    {
      admitted := true;
      if state == Open {
        if ShouldAttemptReset(now) {
          state := HalfOpen;
        } else {
          admitted := false;
        }
      }
      Record(Request(now), log);
      log := log + [Request(now)];
    }

    /** `allow_request`: the same answer and the same new state as entering. */
    method AllowRequest(now: real) returns (admitted: bool)
      requires Valid()
      modifies this
      ensures Valid() && log == old(log) + [Request(now)]
      ensures admitted == Admits(config, After(config, old(log)), now)
    {
      ghost var e := Request(now);
      Record(e, log);
      log := log + [e];
      if state == Open {
        if ShouldAttemptReset(now) {
          state := HalfOpen;
          return true;
        }
        return false;
      }
      return true;
    }

    method OnSuccess(ghost now: real)
      requires Valid()
      modifies this
      ensures Valid() && log == old(log) + [Return(Succeeded, now)]
    {
      hide After;
      failureCount := 0;
      if state == HalfOpen {
        successCount := successCount + 1;
        if successCount >= 3 {
          state := Closed;
          successCount := 0;
        }
      }
      Record(Return(Succeeded, now), log);
      log := log + [Return(Succeeded, now)];
    }

    method OnFailure(now: real)
      requires Valid()
      modifies this
      ensures Valid() && log == old(log) + [Return(Failed, now)]
    {
      hide After;
      failureCount := failureCount + 1;
      lastFailureTime := Some(now);
      if state == HalfOpen {
        state := Open;
        successCount := 0;
      } else if failureCount >= config.threshold {
        state := Open;
      }
      Record(Return(Failed, now), log);
      log := log + [Return(Failed, now)];
    }

    /** `__aexit__`. */
    method Exit(outcome: Outcome, now: real)
      requires Valid()
      modifies this
      ensures Valid() && log == old(log) + [Return(outcome, now)]
    {
      match outcome {
        case Succeeded => OnSuccess(now);
        case Failed => OnFailure(now);
        case OtherException =>
          Record(Return(outcome, now), log);
          log := log + [Return(outcome, now)];
      }
    }

    lemma Record(e: Event, run: seq<Event>)
      ensures After(config, run + [e]) == Step(config, After(config, run), e)
    {
      assert (run + [e])[..|run|] == run;
    }
  }

  // ---------- what every run keeps ----------

  ghost predicate Invariant(c: Config, b: Breaker) {
    && (b.state.Closed? ==> b.failures == 0 || b.failures < c.threshold)
    && (b.state.Open? ==> b.lastFailure.Some?)
    && (b.state.HalfOpen? ==> b.successes < 3)
    && (!b.state.HalfOpen? ==> b.successes == 0)
  }

  /** The counters are functions of the run: overlapping calls in any state included. */
  lemma {:induction false} CountersExact(c: Config, run: seq<Event>)
    ensures After(c, run).failures == FailureStreak(run)
    ensures After(c, run).lastFailure == LatestFailure(run)
    ensures Invariant(c, After(c, run))
  {
    if run == [] {
    } else {
      CountersExact(c, run[..|run| - 1]);
    }
  }

  /** A closed breaker is below its threshold in every run exactly when the threshold is at least 1. */
  lemma ClosedBelowThreshold(c: Config)
    ensures c.threshold >= 1 <==>
            forall run: seq<Event> :: After(c, run).state.Closed? ==> FailureStreak(run) < c.threshold
  {
    if c.threshold >= 1 {
      forall run: seq<Event> | After(c, run).state.Closed?
        ensures FailureStreak(run) < c.threshold
      {
        CountersExact(c, run);
      }
    } else {
      var idle: seq<Event> := [];
      assert After(c, idle).state.Closed? && FailureStreak(idle) == 0;
    }
  }

  /** A closed breaker opens on exactly the failure that completes the streak; nothing else leaves the closed state. */
  lemma TripsExactly(c: Config, run: seq<Event>, e: Event)
    requires c.threshold >= 1 && After(c, run).state.Closed?
    ensures After(c, run + [e]).state.Closed? || After(c, run + [e]).state.Open?
    ensures After(c, run + [e]).state.Open? <==> IsFailure(e) && FailureStreak(run + [e]) == c.threshold
  {
    assert (run + [e])[..|run|] == run;
    CountersExact(c, run);
    CountersExact(c, run + [e]);
  }

  /** Who is let in, given the state: everyone unless open, and then exactly once the timeout has run off. */
  lemma AdmittedWhenDue(c: Config, run: seq<Event>, now: real)
    ensures var b := After(c, run);
            Admits(c, b, now) <==>
              (b.state.Open? ==> LatestFailure(run).Some? && now >= LatestFailure(run).value + c.timeout)
  {
    CountersExact(c, run);
  }

  /**
   * Lockout: from an opening on, nobody is let in until the timeout after the latest failure, whatever the calls in
   * flight return.
   */
  lemma {:induction false} Lockout(c: Config, run: seq<Event>, i: nat, j: nat)
    requires i <= j < |run| && NonDecreasing(run)
    requires After(c, run[..i]).state.Open? && LatestFailure(run[..i]).Some?
    requires run[j].now < LatestFailure(run[..i]).value + c.timeout
    ensures After(c, run[..j]).state.Open?
    ensures LatestFailure(run[..j]).Some? && LatestFailure(run[..j]).value >= LatestFailure(run[..i]).value
    ensures !Admits(c, After(c, run[..j]), run[j].now)
  {
    if i < j {
      Lockout(c, run, i, j - 1);
      assert run[..j][..j - 1] == run[..j - 1];
      assert run[j - 1].now <= run[j].now;
      LatestIsPast(run, j - 1, j - 1);
    }
    CountersExact(c, run[..j]);
  }

  lemma {:induction false} LatestIsPast(run: seq<Event>, j: nat, k: nat)
    requires j <= k < |run| && NonDecreasing(run)
    ensures LatestFailure(run[..j]).Some? ==> LatestFailure(run[..j]).value <= run[k].now
  {
    if j == 0 {
    } else {
      assert run[..j][..j - 1] == run[..j - 1];
      LatestIsPast(run, j - 1, k);
    }
  }

  /** While recovering: where the recovery began, and that it has seen no failure. */
  lemma {:induction false} RecoveryBegan(c: Config, run: seq<Event>) returns (i: nat)
    requires After(c, run).state.HalfOpen?
    ensures i < |run| && After(c, run[..i]).state.Open? && run[i].Request?
    ensures Admits(c, After(c, run[..i]), run[i].now)
    ensures forall k | i < k <= |run| :: After(c, run[..k]).state.HalfOpen?
    ensures NoFailure(run[i..]) && Successes(run[i..]) == After(c, run).successes
  {
    var n := |run| - 1;
    var before := After(c, run[..n]);
    CountersExact(c, run[..n]);
    assert run[..|run|] == run;
    if before.state.Open? {
      i := n;
      assert run[n..] == [run[n]] && [run[n]][..0] == [];
    } else {
      i := RecoveryBegan(c, run[..n]);
      SplitLast(run, i);
      forall k | i < k <= |run| ensures After(c, run[..k]).state.HalfOpen? {
        if k <= n {
          assert run[..n][..k] == run[..k];
        }
      }
      assert run[..n][..i] == run[..i];
    }
  }

  lemma SplitLast(run: seq<Event>, i: nat)
    requires i < |run|
    ensures run[i..][..|run| - 1 - i] == run[..|run| - 1][i..]
    ensures run[i..] == run[..|run| - 1][i..] + [run[|run| - 1]]
  {
  }

  /** Every return to closed was earned: a reset was due, then exactly three successes and no failure. */
  lemma ClosesAfterThree(c: Config, run: seq<Event>) returns (i: nat)
    requires run != [] && After(c, run).state.Closed? && !After(c, run[..|run| - 1]).state.Closed?
    ensures i < |run| && After(c, run[..i]).state.Open? && run[i].Request?
    ensures LatestFailure(run[..i]).Some? && run[i].now >= LatestFailure(run[..i]).value + c.timeout
    ensures forall k | i < k < |run| :: After(c, run[..k]).state.HalfOpen?
    ensures NoFailure(run[i..]) && Successes(run[i..]) == 3 && IsSuccess(run[|run| - 1])
  {
    var n := |run| - 1;
    CountersExact(c, run[..n]);
    i := RecoveryBegan(c, run[..n]);
    SplitLast(run, i);
    assert forall k | i <= k <= n :: run[..n][..k] == run[..k];
    AdmittedWhenDue(c, run[..i], run[i].now);
  }

  /** Recovery: once a due request is let in, and while nothing fails, the third success closes the breaker. */
  lemma {:induction false} Recovers(c: Config, run: seq<Event>, now: real, more: seq<Event>)
    requires After(c, run).state.Open? && Admits(c, After(c, run), now) && NoFailure(more)
    ensures var b := After(c, run + [Request(now)] + more);
            && b.failures == (if Successes(more) > 0 then 0 else FailureStreak(run))
            && b.state == (if Successes(more) >= 3 then Closed else HalfOpen)
            && (b.state.HalfOpen? ==> b.successes == Successes(more))
  {
    CountersExact(c, run);
    var start := run + [Request(now)];
    if more == [] {
      assert start + more == start && start[..|run|] == run;
    } else {
      var n := |more| - 1;
      Recovers(c, run, now, more[..n]);
      CountersExact(c, start + more[..n]);
      assert (start + more)[..|start| + n] == start + more[..n];
    }
  }

  // ---------- open and recovering, from the run alone ----------

  /** The request at `j` comes when the timeout after the latest failure before it has run off. */
  ghost predicate DueAt(c: Config, run: seq<Event>, j: nat)
    requires j < |run|
  {
    && run[j].Request? && LatestFailure(run[..j]).Some?
    && run[j].now >= LatestFailure(run[..j]).value + c.timeout
  }

  ghost predicate NoneDueAfter(c: Config, run: seq<Event>, i: nat) {
    forall j | i < j < |run| :: !DueAt(c, run, j)
  }

  /** The failure at `i` completes a streak, or comes while the service is on trial. */
  ghost predicate TripsAt(c: Config, run: seq<Event>, i: nat)
    requires i < |run|
    decreases |run|, 0
  {
    IsFailure(run[i]) && (FailureStreak(run[..i + 1]) >= c.threshold || OnTrial(c, run[..i]))
  }

  /** Some failure tripped the breaker, and no due request has come since. */
  ghost predicate LockedOut(c: Config, run: seq<Event>)
    decreases |run|, 1
  {
    exists i: nat :: i < |run| && TripsAt(c, run, i) && NoneDueAfter(c, run, i)
  }

  /** A due request ended a lockout, and since then nothing failed and fewer than three calls succeeded. */
  ghost predicate OnTrial(c: Config, run: seq<Event>)
    decreases |run|, 1
  {
    exists j: nat ::
      j < |run| && DueAt(c, run, j) && LockedOut(c, run[..j]) && NoFailure(run[j..]) && Successes(run[j..]) < 3
  }

  lemma {:induction false} StaysOpen(c: Config, run: seq<Event>, i: nat)
    requires i <= |run| && After(c, run[..i]).state.Open?
    requires forall j | i <= j < |run| :: !DueAt(c, run, j)
    ensures After(c, run).state.Open?
  {
    if i == |run| {
      assert run[..i] == run;
    } else {
      var before := run[..|run| - 1];
      assert before[..i] == run[..i];
      forall j | i <= j < |before| ensures !DueAt(c, before, j) {
        assert before[..j] == run[..j];
        assert !DueAt(c, run, j);
      }
      StaysOpen(c, before, i);
      CountersExact(c, before);
      assert !DueAt(c, run, |before|);
    }
  }

  /** Where an open breaker was tripped. */
  lemma {:induction false} TrippedAt(c: Config, run: seq<Event>) returns (i: nat)
    requires After(c, run).state.Open?
    ensures i < |run| && IsFailure(run[i])
    ensures After(c, run[..i]).state.HalfOpen? || FailureStreak(run[..i + 1]) >= c.threshold
    ensures NoneDueAfter(c, run, i)
  {
    var n := |run| - 1;
    var before := run[..n];
    CountersExact(c, before);
    CountersExact(c, run);
    if After(c, before).state.Open? {
      i := TrippedAt(c, before);
      assert before[..i] == run[..i] && before[..i + 1] == run[..i + 1];
      forall j | i < j < |run| ensures !DueAt(c, run, j) {
        if j < n {
          assert before[..j] == run[..j];
          assert !DueAt(c, before, j);
        }
      }
    } else {
      i := n;
      assert run[..n + 1] == run;
    }
  }

  lemma {:induction false} SuccessesCons(e: Event, more: seq<Event>)
    ensures Successes([e] + more) == Successes([e]) + Successes(more)
  {
    if more == [] {
      assert [e] + more == [e];
    } else {
      var n := |more| - 1;
      assert ([e] + more)[..n + 1] == [e] + more[..n];
      SuccessesCons(e, more[..n]);
    }
  }

  lemma TrialIsHalfOpen(c: Config, run: seq<Event>, j: nat)
    requires j < |run| && DueAt(c, run, j) && After(c, run[..j]).state.Open?
    requires NoFailure(run[j..]) && Successes(run[j..]) < 3
    ensures After(c, run).state.HalfOpen?
  {
    var more := run[j + 1..];
    CountersExact(c, run[..j]);
    assert run[j..] == [run[j]] + more;
    SuccessesCons(run[j], more);
    assert Successes([run[j]]) == Successes([run[j]][..0]) == 0;
    assert NoFailure(more) by {
      forall k | 0 <= k < |more| ensures !IsFailure(more[k]) {
        assert more[k] == run[j..][k + 1];
      }
    }
    Recovers(c, run[..j], run[j].now, more);
    assert run[..j] + [Request(run[j].now)] + more == run;
  }

  /** The state is a function of the run, told without counters or states. */
  lemma {:induction false} StateExact(c: Config, run: seq<Event>)
    ensures After(c, run).state.Open? <==> LockedOut(c, run)
    ensures After(c, run).state.HalfOpen? <==> OnTrial(c, run)
    decreases |run|
  {
    hide After;
    forall i: nat | i < |run|
      ensures After(c, run[..i]).state.Open? <==> LockedOut(c, run[..i])
      ensures After(c, run[..i]).state.HalfOpen? <==> OnTrial(c, run[..i])
    {
      StateExact(c, run[..i]);
    }
    if After(c, run).state.Open? {
      var i := TrippedAt(c, run);
      assert TripsAt(c, run, i);
    }
    if LockedOut(c, run) {
      var i: nat :| i < |run| && TripsAt(c, run, i) && NoneDueAfter(c, run, i);
      TripOpens(c, run, i);
      StaysOpen(c, run, i + 1);
    }
    if After(c, run).state.HalfOpen? {
      var j := RecoveryBegan(c, run);
      AdmittedWhenDue(c, run[..j], run[j].now);
      CountersExact(c, run);
      assert DueAt(c, run, j);
    }
    if OnTrial(c, run) {
      var j: nat :|
        j < |run| && DueAt(c, run, j) && LockedOut(c, run[..j]) && NoFailure(run[j..]) && Successes(run[j..]) < 3;
      TrialIsHalfOpen(c, run, j);
    }
  }

  lemma TripOpens(c: Config, run: seq<Event>, i: nat)
    requires i < |run| && IsFailure(run[i])
    requires After(c, run[..i]).state.HalfOpen? || FailureStreak(run[..i + 1]) >= c.threshold
    ensures After(c, run[..i + 1]).state.Open?
  {
    assert run[..i + 1][..i] == run[..i];
    CountersExact(c, run[..i]);
    CountersExact(c, run[..i + 1]);
  }

  /** Who is let in, from the run alone: everyone but in a lockout whose timeout has not run off. */
  lemma AdmissionExact(c: Config, run: seq<Event>, now: real)
    ensures Admits(c, After(c, run), now)
            <==> (LockedOut(c, run) ==>
                    LatestFailure(run).Some? && now >= LatestFailure(run).value + c.timeout)
  {
    StateExact(c, run);
    AdmittedWhenDue(c, run, now);
  }
}
