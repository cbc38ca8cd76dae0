/** Whole runs of the limiter: each decision against the log of attempts, and the guarantee for any window. */
module RateLimiterRuns {
  import opened Option
  import opened RateLimiter
  import opened Sets

  datatype Call = Attempt(key: string, perMinute: int, perDay: int, now: real) | Reset(key: string)

  function Step(store: Store, call: Call): Store {
    match call
    case Attempt(key, _, _, now) => Slide(Slide(store, key, Minute, now), key, Day, now)
    case Reset(key) => store - {RedisKey(key, Minute), RedisKey(key, Day)}
  }

  function Run(log: seq<Call>): Store {
    if log == [] then map[] else Step(Run(log[..|log| - 1]), log[|log| - 1])
  }

  /** The decision on one more attempt after the log. */
  predicate Allowed(log: seq<Call>, key: string, perMinute: int, perDay: int, now: real) {
    |Kept(Run(log), key, Minute, now)| < perMinute && |Kept(Run(log), key, Day, now)| < perDay
  }

  /** Clock readings are not negative, never decrease, and have not passed `now`. */
  ghost predicate Clock(log: seq<Call>, now: real) {
    if log == [] then 0.0 <= now
    else
      match log[|log| - 1]
      case Attempt(_, _, _, t) => t <= now && Clock(log[..|log| - 1], t)
      case Reset(_) => Clock(log[..|log| - 1], now)
  }

  /** The times at which the key was attempted since its last reset, allowed or not. */
  function Attempts(log: seq<Call>, key: string): set<real> {
    if log == [] then {}
    else
      match log[|log| - 1]
      case Attempt(k, _, _, t) => Attempts(log[..|log| - 1], key) + if k == key then {t} else {}
      case Reset(k) => if k == key then {} else Attempts(log[..|log| - 1], key)
  }

  function Recent(times: set<real>, w: Window, now: real): set<real> {
    set t | t in times && now - t < Length(w)
  }

  // ---------- each decision counts the attempts still in the window ----------

  lemma {:induction false} AttemptsInRange(log: seq<Call>, key: string, now: real)
    requires Clock(log, now)
    ensures forall t | t in Attempts(log, key) :: 0.0 <= t <= now
  {
    if log == [] {
    } else {
      match log[|log| - 1]
      case Attempt(_, _, _, t) =>
        AttemptsInRange(log[..|log| - 1], key, t);
        ClockNonNegative(log[..|log| - 1], t);
      case Reset(_) => AttemptsInRange(log[..|log| - 1], key, now);
    }
  }

  lemma {:induction false} ClockNonNegative(log: seq<Call>, now: real)
    requires Clock(log, now)
    ensures 0.0 <= now
  {
    if log == [] {
    } else {
      match log[|log| - 1]
      case Attempt(_, _, _, t) => ClockNonNegative(log[..|log| - 1], t);
      case Reset(_) => ClockNonNegative(log[..|log| - 1], now);
    }
  }

  lemma SlideKept(store: Store, key: string, w: Window, t: real, times: set<real>, now: real)
    requires 0.0 <= t <= now && (forall x | x in times :: 0.0 <= x <= t)
    requires Kept(store, key, w, t) == Recent(times, w, t)
    ensures Kept(Slide(store, key, w, t), key, w, now) == Recent(times + {t}, w, now)
  {
  }

  lemma OtherWindow(store: Store, key: string, w: Window, t: real, key': string, w': Window, now: real)
    requires key != key' || w != w'
    ensures Kept(Slide(store, key', w', t), key, w, now) == Kept(store, key, w, now)
  {
    KeysDiffer(key, w, key', w');
  }

  /** Pruning and key expiry change no count: what Redis keeps is what the log says is recent. */
  lemma {:induction false} KeptIsRecent(log: seq<Call>, key: string, w: Window, now: real)
    requires Clock(log, now)
    ensures Kept(Run(log), key, w, now) == Recent(Attempts(log, key), w, now)
  {
    if log == [] {
    } else {
      var before := log[..|log| - 1];
      match log[|log| - 1]
      case Attempt(k, _, _, t) =>
        var once := Slide(Run(before), k, Minute, t);
        if k == key {
          KeptIsRecent(before, key, w, t);
          AttemptsInRange(before, key, t);
          ClockNonNegative(before, t);
          if w == Minute {
            SlideKept(Run(before), key, w, t, Attempts(before, key), now);
            OtherWindow(once, key, w, t, key, Day, now);
          } else {
            OtherWindow(Run(before), key, w, t, key, Minute, t);
            SlideKept(once, key, w, t, Attempts(before, key), now);
          }
        } else {
          ClockLater(before, t, now);
          KeptIsRecent(before, key, w, now);
          OtherWindow(Run(before), key, w, t, k, Minute, now);
          OtherWindow(once, key, w, t, k, Day, now);
        }
      case Reset(k) =>
        KeptIsRecent(before, key, w, now);
        KeysDiffer(key, w, k, Minute);
        KeysDiffer(key, w, k, Day);
    }
  }

  lemma ClockLater(log: seq<Call>, now: real, later: real)
    requires Clock(log, now) && now <= later
    ensures Clock(log, later)
  {
  }

  lemma DecisionCounts(log: seq<Call>, key: string, perMinute: int, perDay: int, now: real)
    requires Clock(log, now)
    ensures Allowed(log, key, perMinute, perDay, now)
            <==> |Recent(Attempts(log, key), Minute, now)| < perMinute
                 && |Recent(Attempts(log, key), Day, now)| < perDay
  {
    KeptIsRecent(log, key, Minute, now);
    KeptIsRecent(log, key, Day, now);
  }

  /** Each decision is the count of all distinct attempt times since the reset in the last minute and the last day. */
  lemma DecisionExact(log: seq<Call>, key: string, perMinute: int, perDay: int, now: real)
    requires Clock(log, now)
    ensures Allowed(log, key, perMinute, perDay, now)
            <==> |set t | t in Attempts(log, key) && now - t < 60.0| < perMinute
                 && |set t | t in Attempts(log, key) && now - t < 86400.0| < perDay
  {
    DecisionCounts(log, key, perMinute, perDay, now);
    var times := Attempts(log, key);
    assert Recent(times, Minute, now) == set t | t in times && now - t < 60.0;
    assert Recent(times, Day, now) == set t | t in times && now - t < 86400.0;
  }

  // ---------- any window of any run ----------

  ghost predicate IsAllowed(log: seq<Call>, i: nat, key: string)
    requires i < |log|
  {
    log[i].Attempt? && log[i].key == key && Allowed(log[..i], key, log[i].perMinute, log[i].perDay, log[i].now)
  }

  /** From `lo` on the key is not reset and its limit on window `w` is fixed. */
  ghost predicate FixedLimit(log: seq<Call>, lo: nat, key: string, w: Window, limit: int) {
    forall i | lo <= i < |log| && log[i].key == key ::
      log[i].Attempt? && (if w == Minute then log[i].perMinute else log[i].perDay) == limit
  }

  /** The allowed attempts from `lo` on whose time lies in the window of so many seconds starting at `from`. */
  ghost function AllowedIn(log: seq<Call>, lo: nat, key: string, from: real, seconds: real): set<nat> {
    set i: nat | lo <= i < |log| && IsAllowed(log, i, key) && from <= log[i].now < from + seconds
  }

  /** The distinct clock readings of those attempts. */
  ghost function AllowedTimes(log: seq<Call>, lo: nat, key: string, from: real, seconds: real): set<real> {
    set i | i in AllowedIn(log, lo, key, from, seconds) :: log[i].now
  }

  lemma {:induction false} ClockPrefix(log: seq<Call>, now: real, i: nat)
    requires Clock(log, now) && i < |log| && log[i].Attempt?
    ensures Clock(log[..i], log[i].now)
  {
    var before := log[..|log| - 1];
    if i < |log| - 1 {
      assert before[..i] == log[..i];
      match log[|log| - 1]
      case Attempt(_, _, _, t) => ClockPrefix(before, t, i);
      case Reset(_) => ClockPrefix(before, now, i);
    }
  }

  lemma {:induction false} AttemptLogged(log: seq<Call>, lo: nat, j: nat, key: string)
    requires lo <= j < |log| && log[j].Attempt? && log[j].key == key
    requires forall i | lo <= i < |log| && log[i].key == key :: log[i].Attempt?
    ensures log[j].now in Attempts(log, key)
  {
    if j < |log| - 1 {
      AttemptLogged(log[..|log| - 1], lo, j, key);
    }
  }

  lemma {:induction false} LatestOf(log: seq<Call>, s: set<nat>) returns (m: nat)
    requires s != {} && forall i | i in s :: i < |log| && log[i].Attempt?
    ensures m in s && forall i | i in s :: log[i].now <= log[m].now
  {
    var one :| one in s;
    var rest := s - {one};
    m := one;
    if rest == {} {
    } else {
      var other := LatestOf(log, rest);
      m := if log[other].now > log[one].now then other else one;
    }
    forall i | i in s ensures log[i].now <= log[m].now {
      assert i == one || i in rest;
    }
  }

  lemma ClockOrder(log: seq<Call>, now: real, i: nat, j: nat)
    requires Clock(log, now) && i <= j < |log| && log[i].Attempt? && log[j].Attempt?
    ensures log[i].now <= log[j].now
  {
    if i < j {
      ClockPrefix(log, now, j);
      ClockBefore(log[..j], log[j].now, i);
      assert log[..j][i] == log[i];
    }
  }

  lemma {:induction false} ClockBefore(log: seq<Call>, now: real, i: nat)
    requires Clock(log, now) && i < |log| && log[i].Attempt?
    ensures log[i].now <= now
  {
    var before := log[..|log| - 1];
    if i == |log| - 1 {
    } else {
      assert before[i] == log[i];
      match log[|log| - 1]
      case Attempt(_, _, _, t) => ClockBefore(before, t, i);
      case Reset(_) => ClockBefore(before, now, i);
    }
  }

  lemma BelowLimit(log: seq<Call>, now: real, lo: nat, key: string, w: Window, limit: int, m: nat)
    requires Clock(log, now) && FixedLimit(log, lo, key, w, limit) && lo <= m < |log| && IsAllowed(log, m, key)
    ensures |Recent(Attempts(log[..m], key), w, log[m].now)| < limit
  {
    ClockPrefix(log, now, m);
    DecisionCounts(log[..m], key, log[m].perMinute, log[m].perDay, log[m].now);
  }

  lemma EarlierIsRecent(log: seq<Call>, now: real, lo: nat, key: string, w: Window, limit: int, from: real,
                        seconds: real, i: nat, m: nat)
    requires seconds == Length(w) && Clock(log, now) && FixedLimit(log, lo, key, w, limit)
    requires i in AllowedIn(log, lo, key, from, seconds) && m in AllowedIn(log, lo, key, from, seconds)
    requires log[i].now < log[m].now
    ensures log[i].now in Recent(Attempts(log[..m], key), w, log[m].now)
  {
    hide Attempts, Allowed, Kept;
    if i >= m {
      ClockOrder(log, now, m, i);
    }
    assert log[..m][i] == log[i];
    AttemptLogged(log[..m], lo, i, key);
  }

  /**
   * Between resets, any window of 60 or 86400 seconds holds at most `limit` clock readings at which a request was
   * allowed, however the requests are timed.
   */
  lemma WindowTimes(log: seq<Call>, now: real, lo: nat, key: string, w: Window, limit: int, from: real, seconds: real)
    requires seconds == if w == Minute then 60.0 else 86400.0
    requires Clock(log, now) && FixedLimit(log, lo, key, w, limit)
    ensures |AllowedTimes(log, lo, key, from, seconds)| <= Max0(limit)
  {
    var s, times := AllowedIn(log, lo, key, from, seconds), AllowedTimes(log, lo, key, from, seconds);
    if s == {} {
      assert times == {};
    } else {
      var m := LatestOf(log, s);
      var latest := log[m].now;
      BelowLimit(log, now, lo, key, w, limit, m);
      var recent := Recent(Attempts(log[..m], key), w, latest);
      forall t | t in times - {latest} ensures t in recent {
        var i :| i in s && log[i].now == t;
        EarlierIsRecent(log, now, lo, key, w, limit, from, seconds, i, m);
      }
      SubsetSize(times - {latest}, recent);
      assert |times| == |times - {latest}| + 1;
    }
  }

  /** No two of the attempts were made at the same clock reading. */
  ghost predicate DistinctTimes(log: seq<Call>, s: set<nat>) {
    forall i, j | i in s && j in s && i < |log| && j < |log| && log[i].Attempt? && log[j].Attempt? && i != j ::
      log[i].now != log[j].now
  }

  lemma {:induction false} OneTimeEach(log: seq<Call>, s: set<nat>, times: set<real>)
    requires forall i | i in s :: i < |log| && log[i].Attempt? && log[i].now in times
    requires DistinctTimes(log, s)
    ensures |s| <= |times|
  {
    if s == {} {
    } else {
      var i :| i in s;
      OneTimeEach(log, s - {i}, times - {log[i].now});
    }
  }

  /** So a window holds more than `limit` allowed requests only by a repeated clock reading among them. */
  lemma WindowSafety(log: seq<Call>, now: real, lo: nat, key: string, w: Window, limit: int, from: real, seconds: real)
    requires seconds == if w == Minute then 60.0 else 86400.0
    requires Clock(log, now) && FixedLimit(log, lo, key, w, limit)
    ensures var s := AllowedIn(log, lo, key, from, seconds);
            |s| <= Max0(limit) || exists i, j :: i in s && j in s && i < j && log[i].now == log[j].now
  {
    var s := AllowedIn(log, lo, key, from, seconds);
    WindowTimes(log, now, lo, key, w, limit, from, seconds);
    if DistinctTimes(log, s) {
      OneTimeEach(log, s, AllowedTimes(log, lo, key, from, seconds));
    }
  }

  // ---------- why the request times must differ, and why the window is half open ----------

  /** `n` attempts at one clock reading. */
  function Burst(key: string, limit: int, n: nat, now: real): seq<Call> {
    seq(n, _ => Attempt(key, limit, limit, now))
  }

  lemma {:induction false} BurstFacts(key: string, limit: int, n: nat, now: real)
    requires now >= 0.0
    ensures Clock(Burst(key, limit, n, now), now)
    ensures Attempts(Burst(key, limit, n, now), key) == if n == 0 then {} else {now}
  {
    if n == 0 {
    } else {
      BurstFacts(key, limit, n - 1, now);
      assert Burst(key, limit, n, now)[..n - 1] == Burst(key, limit, n - 1, now);
    }
  }

  /** Simultaneous attempts share one sorted-set member: with a limit of two or more, any number of them
      is allowed; with a limit of one, only the first. */
  lemma SimultaneousAttempts(key: string, limit: int, n: nat, now: real)
    requires now >= 0.0
    ensures Allowed(Burst(key, limit, n, now), key, limit, limit, now) <==> limit > if n == 0 then 0 else 1
  {
    var log := Burst(key, limit, n, now);
    BurstFacts(key, limit, n, now);
    DecisionCounts(log, key, limit, limit, now);
    assert Recent(Attempts(log, key), Minute, now) == Attempts(log, key);
    assert Recent(Attempts(log, key), Day, now) == Attempts(log, key);
  }

  /** Two attempts exactly one window apart are both allowed under a limit of one. */
  lemma WindowIsHalfOpen(key: string, perDay: int, now: real)
    requires now >= 0.0 && perDay >= 2
    ensures Allowed([], key, 1, perDay, now)
    ensures Allowed([Attempt(key, 1, perDay, now)], key, 1, perDay, now + 60.0)
  {
    var log := [Attempt(key, 1, perDay, now)];
    assert log[..0] == [];
    DecisionCounts([], key, 1, perDay, now);
    DecisionCounts(log, key, 1, perDay, now + 60.0);
    assert Attempts(log, key) == {now};
    assert Recent({now}, Minute, now + 60.0) == {};
    assert Recent({now}, Day, now + 60.0) == {now};
  }
}
