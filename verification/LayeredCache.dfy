/** LayeredCacheManager: several processes, each with an in-memory L1, over one shared Redis.

    Every `await` is a point where other calls run, so each call is a sequence of atomic steps and a
    run is any interleaving of them, with the clock advancing in between. */
module LayeredCache {
  import opened Option

  type Process = nat
  type Value = string

  datatype Slot = Slot(process: Process, key: string)

  /** An L1 entry and the moment it was stored. */
  datatype L1Entry = L1Entry(value: Value, at: real)

  /** A Redis entry and the moment its time to live ends. */
  datatype L2Entry = L2Entry(value: Value, expires: real)

  /** A call that has sent its Redis command and not finished. */
  datatype Call =
    | Reading(process: Process, key: string)
    | Answered(process: Process, key: string, reply: Option<Value>)
    | Writing(key: string, value: Value, ttl: real)
    | Deleting(keys: set<string>)
    | Scanning(found: set<string>)

  datatype State = State(now: real, l1: map<Slot, L1Entry>, l2: map<string, L2Entry>,
                         calls: map<nat, Call>, nextCall: nat)

  datatype Event =
    | L1Hit(process: Process, key: string, value: Value)
    | StartGet(call: nat, process: Process, key: string)
    | L2Get(call: nat)
    | FinishGet(call: nat, process: Process, key: string, result: Option<Value>)
    | StartSet(call: nat, process: Process, key: string, value: Value, ttl: real)
    | L2Set(call: nat)
    | StartDelete(call: nat, process: Process, key: string)
    | L2Delete(call: nat)
    | StartDeletePattern(call: nat, process: Process)
    | Scan(call: nat, found: set<string>)
    | ScanDone(call: nat)
    | Fail(call: nat)
    | DropL1(slot: Slot)
    | DropL2(key: string)
    | Tick(now: real)

  /** cachetools keeps an entry while the clock is before its expiry. */
  ghost predicate InL1(ttl: real, s: State, p: Process, key: string) {
    Slot(p, key) in s.l1 && s.now < s.l1[Slot(p, key)].at + ttl
  }

  /** What Redis would answer now. */
  function Current(s: State, key: string): Option<Value> {
    if key in s.l2 && s.now < s.l2[key].expires then Some(s.l2[key].value) else None
  }

  function Begin(s: State, call: Call): State {
    s.(calls := s.calls[s.nextCall := call], nextCall := s.nextCall + 1)
  }

  function End(s: State, call: nat): State {
    s.(calls := s.calls - {call})
  }

  function StoreL1(s: State, p: Process, key: string, value: Value): State {
    s.(l1 := s.l1[Slot(p, key) := L1Entry(value, s.now)])
  }

  ghost predicate Next(ttl: real, s: State, e: Event, s': State) {
    match e
    // get: the value is in L1
    case L1Hit(p, key, value) => InL1(ttl, s, p, key) && value == s.l1[Slot(p, key)].value && s' == s
    // get: it is not, and the Redis read is sent
    case StartGet(c, p, key) => !InL1(ttl, s, p, key) && c == s.nextCall && s' == Begin(s, Reading(p, key))
    case L2Get(c) =>
      && c in s.calls && s.calls[c].Reading?
      && s' == s.(calls := s.calls[c := Answered(s.calls[c].process, s.calls[c].key, Current(s, s.calls[c].key))])
    // get: the reply arrives, fills L1 and is returned
    case FinishGet(c, p, key, result) =>
      && c in s.calls && s.calls[c] == Answered(p, key, result)
      && s' == if result.Some? then StoreL1(End(s, c), p, key, result.value) else End(s, c)
    // set: L1 at once, Redis later
    case StartSet(c, p, key, value, l2Ttl) =>
      c == s.nextCall && s' == StoreL1(Begin(s, Writing(key, value, l2Ttl)), p, key, value)
    case L2Set(c) =>
      && c in s.calls && s.calls[c].Writing?
      && var w := s.calls[c];
         s' == End(s, c).(l2 := s.l2[w.key := L2Entry(w.value, s.now + w.ttl)])
    // delete: L1 at once, Redis later
    case StartDelete(c, p, key) =>
      c == s.nextCall && s' == Begin(s, Deleting({key})).(l1 := s.l1 - {Slot(p, key)})
    case L2Delete(c) =>
      c in s.calls && s.calls[c].Deleting? && s' == End(s, c).(l2 := s.l2 - s.calls[c].keys)
    // delete_pattern: the whole L1 at once, then a scan in several rounds, then one deletion
    case StartDeletePattern(c, p) =>
      c == s.nextCall && s' == Begin(s, Scanning({})).(l1 := map slot | slot in s.l1 && slot.process != p :: s.l1[slot])
    case Scan(c, found) =>
      && c in s.calls && s.calls[c].Scanning?
      && s' == s.(calls := s.calls[c := Scanning(s.calls[c].found + found)])
    case ScanDone(c) =>
      c in s.calls && s.calls[c].Scanning? && s' == s.(calls := s.calls[c := Deleting(s.calls[c].found)])
    // an exception, or no Redis connection: the call gives up
    case Fail(c) => c in s.calls && s' == End(s, c)
    // expiry clean-up and eviction, on either tier, at any time
    case DropL1(slot) => s' == s.(l1 := s.l1 - {slot})
    case DropL2(key) => s' == s.(l2 := s.l2 - {key})
    case Tick(now) => s.now <= now && s' == s.(now := now)
  }

  ghost predicate Steps(ttl: real, tr: seq<State>, ev: seq<Event>) {
    && |tr| == |ev| + 1
    && forall i | 0 <= i < |ev| :: Next(ttl, tr[i], ev[i], tr[i + 1])
  }

  ghost predicate Run(ttl: real, tr: seq<State>, ev: seq<Event>) {
    Steps(ttl, tr, ev) && tr[0].l1 == map[] && tr[0].calls == map[]
  }

  lemma {:induction false} ClockMonotone(ttl: real, tr: seq<State>, ev: seq<Event>, i: nat, j: nat)
    requires Run(ttl, tr, ev) && i <= j < |tr|
    ensures tr[i].now <= tr[j].now
    decreases j
  {
    if i < j {
      ClockMonotone(ttl, tr, ev, i, j - 1);
      assert Next(ttl, tr[j - 1], ev[j - 1], tr[j]);
    }
  }

  // ---------- where values come from ----------

  /** Call `c` of `p` was sent at step `r`, and Redis answered it with `v` at step `m`. */
  ghost predicate ReadOf(tr: seq<State>, ev: seq<Event>, c: nat, p: Process, key: string, v: Value, r: nat, m: nat) {
    && r < m < |ev| < |tr|
    && ev[r] == StartGet(c, p, key) && ev[m] == L2Get(c) && Current(tr[m], key) == Some(v)
  }

  /** By step `n`, process `p` had itself set the key to `v` in the state `at` says. */
  ghost predicate SetAt(tr: seq<State>, ev: seq<Event>, n: nat, p: Process, key: string, v: Value, j: nat) {
    && j < n <= |ev| < |tr|
    && ev[j].StartSet? && ev[j].process == p && ev[j].key == key && ev[j].value == v
  }

  /** By step `n`, a read of `v` had filled L1 of `p` at step `f`. */
  ghost predicate FilledAt(tr: seq<State>, ev: seq<Event>, n: nat, c: nat, p: Process, key: string, v: Value,
                           r: nat, m: nat, f: nat) {
    m < f <= n && f < |ev| && ReadOf(tr, ev, c, p, key, v, r, m) && ev[f] == FinishGet(c, p, key, Some(v))
  }

  lemma {:induction false} ReadingSent(ttl: real, tr: seq<State>, ev: seq<Event>, n: nat, c: nat) returns (r: nat)
    requires Run(ttl, tr, ev) && n < |tr| && c in tr[n].calls && tr[n].calls[c].Reading?
    ensures r < n && ev[r] == StartGet(c, tr[n].calls[c].process, tr[n].calls[c].key)
  {
    assert Next(ttl, tr[n - 1], ev[n - 1], tr[n]);
    if c in tr[n - 1].calls && tr[n - 1].calls[c] == tr[n].calls[c] {
      r := ReadingSent(ttl, tr, ev, n - 1, c);
    } else {
      r := n - 1;
    }
  }

  lemma {:induction false} AnsweredRead(ttl: real, tr: seq<State>, ev: seq<Event>, n: nat, c: nat)
      returns (r: nat, m: nat)
    requires Run(ttl, tr, ev) && n < |tr| && c in tr[n].calls && tr[n].calls[c].Answered? && tr[n].calls[c].reply.Some?
    ensures m < n
    ensures var a := tr[n].calls[c]; ReadOf(tr, ev, c, a.process, a.key, a.reply.value, r, m)
  {
    assert Next(ttl, tr[n - 1], ev[n - 1], tr[n]);
    if c in tr[n - 1].calls && tr[n - 1].calls[c] == tr[n].calls[c] {
      r, m := AnsweredRead(ttl, tr, ev, n - 1, c);
    } else {
      m := n - 1;
      r := ReadingSent(ttl, tr, ev, n - 1, c);
    }
  }

  datatype Origin = Local(j: nat) | Filled(call: nat, r: nat, m: nat, f: nat)

  ghost predicate Explains(tr: seq<State>, ev: seq<Event>, n: nat, p: Process, key: string, entry: L1Entry, o: Origin) {
    match o
    case Local(j) => SetAt(tr, ev, n, p, key, entry.value, j) && tr[j].now == entry.at
    case Filled(c, r, m, f) => FilledAt(tr, ev, n, c, p, key, entry.value, r, m, f) && tr[f].now == entry.at
  }

  /** Every L1 entry was stored by a local set or by the reply to a local read. */
  lemma {:induction false} L1Origin(ttl: real, tr: seq<State>, ev: seq<Event>, n: nat, p: Process, key: string)
      returns (o: Origin)
    requires Run(ttl, tr, ev) && n < |tr| && Slot(p, key) in tr[n].l1
    ensures Explains(tr, ev, n, p, key, tr[n].l1[Slot(p, key)], o)
  {
    var slot := Slot(p, key);
    assert Next(ttl, tr[n - 1], ev[n - 1], tr[n]);
    if slot in tr[n - 1].l1 && tr[n - 1].l1[slot] == tr[n].l1[slot] {
      o := L1Origin(ttl, tr, ev, n - 1, p, key);
    } else if ev[n - 1].StartSet? {
      o := Local(n - 1);
    } else {
      var c := ev[n - 1].call;
      var r, m := AnsweredRead(ttl, tr, ev, n - 1, c);
      o := Filled(c, r, m, n - 1);
    }
  }

  // ---------- bounded staleness ----------

  /** Step `i` is a `get` by `p` that returns `v`. */
  ghost predicate Returns(e: Event, p: Process, key: string, v: Value) {
    e == L1Hit(p, key, v) || (e.FinishGet? && e == FinishGet(e.call, p, key, Some(v)))
  }

  /** The value was put in L1 by `p` itself less than the L1 time to live ago. */
  ghost predicate RecentLocalSet(ttl: real, tr: seq<State>, ev: seq<Event>, i: nat, p: Process, key: string, v: Value) {
    i < |ev| && exists j: nat :: SetAt(tr, ev, i, p, key, v, j) && tr[i].now - tr[j].now < ttl
  }

  /** The value was Redis's current one at step `m`, when a read by `p` was answered; that read was sent at
      step `r` and finished at step `f`, which was at most the L1 time to live ago. */
  ghost predicate RecentRedisValue(ttl: real, tr: seq<State>, ev: seq<Event>, i: nat, p: Process, key: string,
                                   v: Value)
  {
    i < |ev| && exists c: nat, r: nat, m: nat, f: nat ::
      && FilledAt(tr, ev, i, c, p, key, v, r, m, f)
      && tr[r].now <= tr[m].now <= tr[f].now <= tr[i].now
      && tr[i].now - tr[f].now <= ttl
  }

  lemma Ordered(ttl: real, tr: seq<State>, ev: seq<Event>, i: nat, c: nat, p: Process, key: string, v: Value,
                r: nat, m: nat, f: nat)
    requires Run(ttl, tr, ev) && i < |ev| && FilledAt(tr, ev, i, c, p, key, v, r, m, f)
    ensures tr[r].now <= tr[m].now <= tr[f].now <= tr[i].now
  {
    ClockMonotone(ttl, tr, ev, r, m);
    ClockMonotone(ttl, tr, ev, m, f);
    ClockMonotone(ttl, tr, ev, f, i);
  }

  /** In every interleaving, whatever a `get` returns is a recent local set or a recent Redis value. */
  lemma BoundedStaleness(ttl: real, tr: seq<State>, ev: seq<Event>, i: nat, p: Process, key: string, v: Value)
    requires ttl >= 0.0 && Run(ttl, tr, ev) && i < |ev| && Returns(ev[i], p, key, v)
    ensures RecentLocalSet(ttl, tr, ev, i, p, key, v) || RecentRedisValue(ttl, tr, ev, i, p, key, v)
  {
    assert Next(ttl, tr[i], ev[i], tr[i + 1]);
    if ev[i].L1Hit? {
      var o := L1Origin(ttl, tr, ev, i, p, key);
      match o
      case Local(j) =>
        assert SetAt(tr, ev, i, p, key, v, j);
      case Filled(c, r, m, f) =>
        assert FilledAt(tr, ev, i, c, p, key, v, r, m, f);
        Ordered(ttl, tr, ev, i, c, p, key, v, r, m, f);
    } else {
      var c := ev[i].call;
      assert tr[i].calls[c] == Answered(p, key, Some(v));
      var r, m := AnsweredRead(ttl, tr, ev, i, c);
      assert FilledAt(tr, ev, i, c, p, key, v, r, m, i);
      Ordered(ttl, tr, ev, i, c, p, key, v, r, m, i);
    }
  }

  // ---------- deleted keys ----------

  /** From step `d` up to step `i` Redis never holds the key and no process sets it. */
  ghost predicate Gone(tr: seq<State>, ev: seq<Event>, d: nat, i: nat, key: string)
    requires d <= i < |ev| < |tr|
  {
    && (forall n | d <= n <= i :: Current(tr[n], key) == None)
    && (forall n | d <= n < i :: ev[n].StartSet? ==> ev[n].key != key)
  }

  /** No `get` of the run takes longer than `flight` from sending its Redis read to finishing. */
  ghost predicate FlightsWithin(tr: seq<State>, ev: seq<Event>, flight: real)
    requires |ev| < |tr|
  {
    forall r, f | 0 <= r < f < |ev| ::
      ev[r].StartGet? && ev[f].FinishGet? && ev[r].call == ev[f].call ==> tr[f].now - tr[r].now <= flight
  }

  /** Even when deletes race with fills, a deleted key is forgotten by every process within the L1 time to
      live plus one flight time. */
  lemma DeletedIsForgotten(ttl: real, flight: real, tr: seq<State>, ev: seq<Event>, d: nat, i: nat,
                           p: Process, key: string, v: Value)
    requires ttl >= 0.0 && flight >= 0.0 && Run(ttl, tr, ev) && d <= i < |ev|
    requires FlightsWithin(tr, ev, flight) && Gone(tr, ev, d, i, key)
    requires tr[i].now - tr[d].now > ttl + flight
    ensures !Returns(ev[i], p, key, v)
  {
    if Returns(ev[i], p, key, v) {
      BoundedStaleness(ttl, tr, ev, i, p, key, v);
      if RecentLocalSet(ttl, tr, ev, i, p, key, v) {
        var j: nat :| SetAt(tr, ev, i, p, key, v, j) && tr[i].now - tr[j].now < ttl;
        ClockMonotone(ttl, tr, ev, j, d);
      } else {
        var c: nat, r: nat, m: nat, f: nat :|
          && FilledAt(tr, ev, i, c, p, key, v, r, m, f)
          && tr[r].now <= tr[m].now <= tr[f].now <= tr[i].now && tr[i].now - tr[f].now <= ttl;
        ClockMonotone(ttl, tr, ev, m, d);
      }
    }
  }

  // ---------- when exactly a deleted key can still be served ----------

  /** A read by `p` has been answered with a value of the key and has not finished. */
  ghost predicate ReplyInFlight(s: State, p: Process, key: string) {
    exists c :: c in s.calls && s.calls[c].Answered? && s.calls[c].process == p && s.calls[c].key == key
                && s.calls[c].reply.Some?
  }

  /** Process `p` has no trace of the key left: neither in L1 nor in a reply on its way. */
  ghost predicate Clean(ttl: real, s: State, p: Process, key: string) {
    !InL1(ttl, s, p, key) && !ReplyInFlight(s, p, key)
  }

  /** A continuation of `s` in which Redis never holds the key, nobody sets it, and `p` is served `v` in the end. */
  ghost predicate Serves(ttl: real, s: State, p: Process, key: string, v: Value, tr: seq<State>, ev: seq<Event>) {
    && Steps(ttl, tr, ev) && tr[0] == s && ev != []
    && Gone(tr, ev, 0, |ev| - 1, key)
    && Returns(ev[|ev| - 1], p, key, v)
  }

  lemma CleanStep(ttl: real, s: State, e: Event, t: State, p: Process, key: string)
    requires Next(ttl, s, e, t) && Clean(ttl, s, p, key) && Current(s, key) == None
    requires e.StartSet? ==> e.key != key
    ensures Clean(ttl, t, p, key)
    ensures forall v :: !Returns(e, p, key, v)
  {
  }

  /** Once clean, a process stays clean and is never served the key while Redis lacks it and nobody sets it. */
  lemma {:induction false} CleanForever(ttl: real, tr: seq<State>, ev: seq<Event>, d: nat, i: nat, p: Process,
                                        key: string)
    requires Steps(ttl, tr, ev) && d <= i < |ev| && Gone(tr, ev, d, i, key) && Clean(ttl, tr[d], p, key)
    ensures Clean(ttl, tr[i], p, key)
    ensures forall v :: !Returns(ev[i], p, key, v)
    decreases i
  {
    assert Next(ttl, tr[i], ev[i], tr[i + 1]);
    if d < i {
      CleanForever(ttl, tr, ev, d, i - 1, p, key);
      assert Next(ttl, tr[i - 1], ev[i - 1], tr[i]);
      CleanStep(ttl, tr[i - 1], ev[i - 1], tr[i], p, key);
    }
  }

  /** A process that is not clean can be served the key by its very next step. */
  lemma ServedNext(ttl: real, s: State, p: Process, key: string)
      returns (value: Value, tr: seq<State>, ev: seq<Event>)
    requires Current(s, key) == None && !Clean(ttl, s, p, key)
    ensures Serves(ttl, s, p, key, value, tr, ev) && |ev| == 1
  {
    if InL1(ttl, s, p, key) {
      value := s.l1[Slot(p, key)].value;
      tr, ev := [s, s], [L1Hit(p, key, value)];
      assert Returns(ev[0], p, key, value);
    } else {
      var c :| c in s.calls && s.calls[c].Answered? && s.calls[c].process == p && s.calls[c].key == key
               && s.calls[c].reply.Some?;
      value := s.calls[c].reply.value;
      tr, ev := [s, StoreL1(End(s, c), p, key, value)], [FinishGet(c, p, key, Some(value))];
      assert Next(ttl, tr[0], ev[0], tr[1]);
      assert Returns(ev[0], p, key, value);
    }
  }

  /**
   * From a moment at which Redis lacks the key, without further sets and while Redis keeps lacking it, a process can
   * still be served the key exactly when its L1 holds it or a reply with a value is on its way.
   */
  lemma ServedExactly(ttl: real, s: State, p: Process, key: string)
    requires Current(s, key) == None
    ensures (exists v, tr: seq<State>, ev: seq<Event> :: Serves(ttl, s, p, key, v, tr, ev))
            <==> InL1(ttl, s, p, key) || ReplyInFlight(s, p, key)
  {
    if !Clean(ttl, s, p, key) {
      var v, tr, ev := ServedNext(ttl, s, p, key);
    }
    forall v, tr: seq<State>, ev: seq<Event> | Serves(ttl, s, p, key, v, tr, ev) ensures !Clean(ttl, s, p, key) {
      if Clean(ttl, s, p, key) {
        CleanForever(ttl, tr, ev, 0, |ev| - 1, p, key);
      }
    }
  }

  /** The bound cannot be improved to "at once": a process that has finished deleting a key can still be
      served the old value, by an earlier read of its own whose reply arrives after the delete. */
  lemma StaleAfterOwnDelete() returns (tr: seq<State>, ev: seq<Event>)
    ensures Run(5.0, tr, ev) && |ev| == 6
    ensures ev[2] == StartDelete(1, 0, "k") && ev[3] == L2Delete(1) && ev[5] == L1Hit(0, "k", "old")
    ensures forall n | 4 <= n <= 6 :: "k" !in tr[n].l2
  {
    var slot := Slot(0, "k");
    var s0 := State(0.0, map[], map["k" := L2Entry("old", 60.0)], map[], 0);
    var s1 := Begin(s0, Reading(0, "k"));
    var s2 := s1.(calls := s1.calls[0 := Answered(0, "k", Some("old"))]);
    var s3 := Begin(s2, Deleting({"k"})).(l1 := s2.l1 - {slot});
    var s4 := End(s3, 1).(l2 := s3.l2 - {"k"});
    var s5 := StoreL1(End(s4, 0), 0, "k", "old");
    tr := [s0, s1, s2, s3, s4, s5, s5];
    ev := [StartGet(0, 0, "k"), L2Get(0), StartDelete(1, 0, "k"), L2Delete(1),
           FinishGet(0, 0, "k", Some("old")), L1Hit(0, "k", "old")];
    assert Next(5.0, s0, ev[0], s1);
    assert Next(5.0, s1, ev[1], s2);
    assert Next(5.0, s2, ev[2], s3);
    assert Next(5.0, s3, ev[3], s4);
    assert Next(5.0, s4, ev[4], s5);
    assert Next(5.0, s5, ev[5], s5);
  }
}
