/**
 * QueryCache: one cache, many coroutines. A step is what a coroutine does between two awaits; the steps of different
 * coroutines interleave freely. Every step first drops what has expired by its clock reading.
 */
module QueryCache {
  import opened Option

  type Id = nat

  datatype Entry<V> = Entry(value: V, expires: real)

  datatype Config = Config(maxsize: nat, ttl: real)

  /** The fetch in flight, whose coroutine holds the lock. */
  datatype Job<K> = Job(id: Id, key: K)

  datatype Stats = Stats(hits: nat, misses: nat, requests: nat)

  datatype State<K, V> = State(
    cache: map<K, Entry<V>>, lock: Option<Job<K>>, waiting: map<Id, K>, stats: Stats, abandoned: nat, now: real)

  datatype Event<!K, V> =
    | Request(now: real, id: Id, key: K)
    | Acquire(now: real, id: Id)
    | Fetched(now: real, value: V, victim: Option<K>)
    | FetchFailed(now: real)
    | Abandoned(now: real, id: Id)
    | Set(now: real, key: K, value: V, victim: Option<K>)
    | Delete(now: real, key: K)
    | Clear(now: real)
    | Invalidate(now: real, matches: K -> bool)

  // ---------- the cache on its own ----------

  function Alive<K, V>(m: map<K, Entry<V>>, now: real): map<K, Entry<V>> {
    map k | k in m && now < m[k].expires :: m[k]
  }

  function Unmatched<K, V>(m: map<K, Entry<V>>, matches: K -> bool): map<K, Entry<V>> {
    map k | k in m && !matches(k) :: m[k]
  }

  /** Storing a new key in a full cache evicts one other key; which one is the cache library's choice. */
  predicate EvictionOk<K, V>(maxsize: nat, m: map<K, Entry<V>>, key: K, victim: Option<K>) {
    if key !in m && |m| >= maxsize then victim.Some? && victim.value in m else victim.None?
  }

  function Put<K, V>(m: map<K, Entry<V>>, key: K, e: Entry<V>, victim: Option<K>): map<K, Entry<V>> {
    (if victim.Some? then m - {victim.value} else m)[key := e]
  }

  // ---------- one step ----------

  predicate Idle<K(==), V>(s: State<K, V>, id: Id) {
    id !in s.waiting && (s.lock.Some? ==> s.lock.value.id != id)
  }

  /** What the lock and the clock let happen. */
  predicate Enabled<K, V>(c: Config, s: State<K, V>, e: Event<K, V>) {
    && s.now <= e.now
    && match e
       case Request(_, id, _) => Idle(s, id)
       case Acquire(_, id) => s.lock.None? && id in s.waiting
       case Fetched(now, _, victim) =>
         s.lock.Some? && EvictionOk(c.maxsize, Alive(s.cache, now), s.lock.value.key, victim)
       case FetchFailed(_) => s.lock.Some?
       case Abandoned(_, id) => id in s.waiting
       case Set(now, key, _, victim) => s.lock.None? && EvictionOk(c.maxsize, Alive(s.cache, now), key, victim)
       case Delete(_, _) => s.lock.None?
       case Clear(_) => s.lock.None?
       case Invalidate(_, _) => s.lock.None?
  }

  function Step<K, V>(c: Config, s: State<K, V>, e: Event<K, V>): State<K, V>
    requires Enabled(c, s, e)
  {
    var alive := Alive(s.cache, e.now);
    var t := s.(cache := alive, now := e.now);
    match e
    case Request(_, id, key) =>
      if key in alive then t.(stats := Stats(s.stats.hits + 1, s.stats.misses, s.stats.requests + 1))
      else t.(stats := s.stats.(requests := s.stats.requests + 1), waiting := s.waiting[id := key])
    case Acquire(_, id) =>
      var key, rest := s.waiting[id], s.waiting - {id};
      if key in alive then t.(stats := s.stats.(hits := s.stats.hits + 1), waiting := rest)
      else t.(stats := s.stats.(misses := s.stats.misses + 1), waiting := rest, lock := Some(Job(id, key)))
    case Fetched(now, value, victim) =>
      t.(cache := Put(alive, s.lock.value.key, Entry(value, now + c.ttl), victim), lock := None)
    case FetchFailed(_) => t.(lock := None)
    case Abandoned(_, id) => t.(waiting := s.waiting - {id}, abandoned := s.abandoned + 1)
    case Set(now, key, value, victim) => t.(cache := Put(alive, key, Entry(value, now + c.ttl), victim))
    case Delete(_, key) => t.(cache := alive - {key})
    case Clear(_) => t.(cache := map[])
    case Invalidate(_, matches) => t.(cache := Unmatched(alive, matches))
  }

  /** What a coroutine is answered by this step without fetching. */
  function Hit<K, V>(s: State<K, V>, e: Event<K, V>): Option<V> {
    var alive := Alive(s.cache, e.now);
    if e.Request? && e.key in alive then Some(alive[e.key].value)
    else if e.Acquire? && e.id in s.waiting && s.waiting[e.id] in alive then Some(alive[s.waiting[e.id]].value)
    else None
  }

  // ---------- runs ----------

  const NO_STATS := Stats(0, 0, 0)

  ghost predicate Legal<K, V>(c: Config, start: real, run: seq<Event<K, V>>)
    decreases |run|, 0
  {
    run != [] ==>
      && Legal(c, start, run[..|run| - 1])
      && Enabled(c, After(c, start, run[..|run| - 1]), run[|run| - 1])
  }

  ghost function After<K, V>(c: Config, start: real, run: seq<Event<K, V>>): State<K, V>
    requires Legal(c, start, run)
    decreases |run|, 1
  {
    if run == [] then State(map[], None, map[], NO_STATS, 0, start)
    else Step(c, After(c, start, run[..|run| - 1]), run[|run| - 1])
  }

  predicate Starts<K, V>(s: State<K, V>, e: Event<K, V>, k: K) {
    e.Acquire? && e.id in s.waiting && s.waiting[e.id] == k && k !in Alive(s.cache, e.now)
  }

  predicate SetsNew<K, V>(s: State<K, V>, e: Event<K, V>, k: K) {
    e.Set? && e.key == k && k !in Alive(s.cache, e.now)
  }

  predicate Fails<K(==), V>(s: State<K, V>, e: Event<K, V>, k: K) {
    e.FetchFailed? && s.lock.Some? && s.lock.value.key == k
  }

  /** This step takes `k` out of the cache, though it may put a new entry in. */
  predicate Removes<K, V>(s: State<K, V>, e: Event<K, V>, k: K) {
    k in s.cache &&
    match e
    case Fetched(now, _, victim) => victim == Some(k) || s.cache[k].expires <= now
    case Set(now, _, _, victim) => victim == Some(k) || s.cache[k].expires <= now
    case Delete(now, key) => key == k || s.cache[k].expires <= now
    case Clear(_) => true
    case Invalidate(now, matches) => matches(k) || s.cache[k].expires <= now
    case _ => s.cache[k].expires <= e.now
  }

  /** Removal is disappearance, seen from before and after the step. */
  lemma RemovesExactly<K, V>(c: Config, s: State<K, V>, e: Event<K, V>, k: K)
    requires Enabled(c, s, e) && !(Holds(s, k) && k in s.cache)
    ensures Removes(s, e, k) <==> k in s.cache && (k !in Step(c, s, e).cache || SetsNew(s, e, k))
  {
  }

  datatype Tally = Tally(fetches: nat, setsNew: nat, removals: nat, failures: nat)

  function One(b: bool): nat { if b then 1 else 0 }

  /** How often each kind of step has concerned `k`. */
  ghost function Count<K, V>(c: Config, start: real, run: seq<Event<K, V>>, k: K): Tally
    requires Legal(c, start, run)
  {
    if run == [] then Tally(0, 0, 0, 0)
    else
      var t, s, e := Count(c, start, run[..|run| - 1], k), After(c, start, run[..|run| - 1]), run[|run| - 1];
      Tally(t.fetches + One(Starts(s, e, k)), t.setsNew + One(SetsNew(s, e, k)),
            t.removals + One(Removes(s, e, k)), t.failures + One(Fails(s, e, k)))
  }

  ghost predicate Holds<K, V>(s: State<K, V>, k: K) { s.lock.Some? && s.lock.value.key == k }

  /** The balance of one step for one key. */
  ghost predicate Conserves<K, V>(c: Config, s: State<K, V>, e: Event<K, V>, k: K)
    requires Enabled(c, s, e)
  {
    var t := Step(c, s, e);
    && !(Holds(t, k) && k in t.cache)
    && One(k in s.cache) + One(Holds(s, k)) + One(Starts(s, e, k)) + One(SetsNew(s, e, k))
       == One(k in t.cache) + One(Holds(t, k)) + One(Removes(s, e, k)) + One(Fails(s, e, k))
  }

  lemma StoreConserves<K, V>(c: Config, s: State<K, V>, e: Event<K, V>, k: K)
    requires Enabled(c, s, e) && !(Holds(s, k) && k in s.cache) && e.Fetched?
    ensures Conserves(c, s, e, k)
  {
  }

  lemma SetConserves<K, V>(c: Config, s: State<K, V>, e: Event<K, V>, k: K)
    requires Enabled(c, s, e) && !(Holds(s, k) && k in s.cache) && e.Set?
    ensures Conserves(c, s, e, k)
  {
  }

  lemma RemovalConserves<K, V>(c: Config, s: State<K, V>, e: Event<K, V>, k: K)
    requires Enabled(c, s, e) && !(Holds(s, k) && k in s.cache) && (e.Delete? || e.Clear? || e.Invalidate?)
    ensures Conserves(c, s, e, k)
  {
  }

  lemma WaitConserves<K, V>(c: Config, s: State<K, V>, e: Event<K, V>, k: K)
    requires Enabled(c, s, e) && !(Holds(s, k) && k in s.cache)
    requires e.Request? || e.Acquire? || e.Abandoned? || e.FetchFailed?
    ensures Conserves(c, s, e, k)
  {
  }

  lemma StepConserves<K, V>(c: Config, s: State<K, V>, e: Event<K, V>, k: K)
    requires Enabled(c, s, e) && !(Holds(s, k) && k in s.cache)
    ensures Conserves(c, s, e, k)
  {
    hide *;
    if e.Fetched? {
      StoreConserves(c, s, e, k);
    } else if e.Set? {
      SetConserves(c, s, e, k);
    } else if e.Delete? || e.Clear? || e.Invalidate? {
      RemovalConserves(c, s, e, k);
    } else {
      WaitConserves(c, s, e, k);
    }
  }

  /**
   * Conservation, key by key, in every interleaving: everything that ever began to come in - a fetch, or a set of an
   * absent key - is cached, in flight, failed, or was removed.
   */
  lemma {:induction false} Conservation<K, V>(c: Config, start: real, run: seq<Event<K, V>>, k: K)
    requires Legal(c, start, run)
    ensures var s, n := After(c, start, run), Count(c, start, run, k);
            && n.fetches + n.setsNew == n.removals + n.failures + One(k in s.cache) + One(Holds(s, k))
            && !(Holds(s, k) && k in s.cache)
  {
    if run == [] {
    } else {
      Conservation(c, start, run[..|run| - 1], k);
      StepConserves(c, After(c, start, run[..|run| - 1]), run[|run| - 1], k);
    }
  }

  lemma {:induction false} LegalPrefix<K, V>(c: Config, start: real, run: seq<Event<K, V>>, i: nat)
    requires Legal(c, start, run) && i <= |run|
    ensures Legal(c, start, run[..i])
  {
    if i == |run| {
      assert run[..i] == run;
    } else {
      LegalPrefix(c, start, run[..|run| - 1], i);
      assert run[..|run| - 1][..i] == run[..i];
    }
  }

  /** Between prefixes the counts only grow, and a removal or failure counted since lies at some step. */
  lemma {:induction false} CountGrows<K, V>(c: Config, start: real, run: seq<Event<K, V>>, i: nat, k: K)
      returns (m: nat)
    requires Legal(c, start, run) && i <= |run|
    ensures Legal(c, start, run[..i])
    ensures var n, o := Count(c, start, run, k), Count(c, start, run[..i], k);
            && n.fetches >= o.fetches && n.setsNew >= o.setsNew
            && (n.removals + n.failures > o.removals + o.failures ==>
                  && i <= m < |run| && Legal(c, start, run[..m])
                  && (Removes(After(c, start, run[..m]), run[m], k) || Fails(After(c, start, run[..m]), run[m], k)))
  {
    m := i;
    if i == |run| {
      assert run[..i] == run;
    } else {
      var n := |run| - 1;
      m := CountGrows(c, start, run[..n], i, k);
      assert run[..n][..i] == run[..i];
      var s := After(c, start, run[..n]);
      if Removes(s, run[n], k) || Fails(s, run[n], k) {
        m := n;
      } else if i <= m < n {
        assert run[..n][..m] == run[..m];
      }
    }
  }

  /** Single flight: between two fetches of a key lies a step that removed it, or a failed fetch of it. */
  lemma FetchesSeparated<K, V>(c: Config, start: real, run: seq<Event<K, V>>, i: nat, k: K) returns (m: nat)
    requires Legal(c, start, run) && i < |run| - 1
    requires Legal(c, start, run[..i]) && Starts(After(c, start, run[..i]), run[i], k)
    requires Starts(After(c, start, run[..|run| - 1]), run[|run| - 1], k)
    ensures i < m < |run| && Legal(c, start, run[..m])
    ensures Removes(After(c, start, run[..m]), run[m], k) || Fails(After(c, start, run[..m]), run[m], k)
  {
    hide *;
    var last := run[..|run| - 1];
    LastStep(c, start, run);
    LegalPrefix(c, start, run, i + 1);
    assert run[..i + 1][..i] == run[..i] && run[..i + 1][i] == run[i];
    assert last[..i + 1] == run[..i + 1];
    StartCounts(c, start, run[..i + 1], k);
    StartCounts(c, start, run, k);
    NotBoth(c, start, run, k);
    NotBoth(c, start, run[..i + 1], k);
    m := CountGrows(c, start, run, i + 1, k);
    var _ := CountGrows(c, start, last, i + 1, k);
  }

  /** Conservation with a fetch of the key in flight. */
  lemma NotBoth<K, V>(c: Config, start: real, run: seq<Event<K, V>>, k: K)
    requires Legal(c, start, run) && Holds(After(c, start, run), k)
    ensures var n := Count(c, start, run, k); n.fetches + n.setsNew == n.removals + n.failures + 1
  {
    Conservation(c, start, run, k);
    hide Count, After, Legal;
  }

  lemma StartCounts<K, V>(c: Config, start: real, run: seq<Event<K, V>>, k: K)
    requires Legal(c, start, run) && run != [] && Starts(After(c, start, run[..|run| - 1]), run[|run| - 1], k)
    ensures var n, o := Count(c, start, run, k), Count(c, start, run[..|run| - 1], k);
            n.fetches == o.fetches + 1 && n.setsNew == o.setsNew
    ensures Holds(After(c, start, run), k)
  {
  }

  /** Only the holder's own steps end a fetch. */
  predicate Ends<K, V>(e: Event<K, V>) { e.Fetched? || e.FetchFailed? }

  lemma AliveTwice<K, V>(m: map<K, Entry<V>>, t: real, u: real)
    requires t <= u
    ensures Alive(Alive(m, t), u) == Alive(m, u)
  {
  }

  /**
   * While a fetch is in flight no second one starts, no set, delete, clear or invalidation takes effect, and the cache
   * changes by expiry alone.
   */
  lemma {:induction false} FetchIsAtomic<K, V>(c: Config, start: real, run: seq<Event<K, V>>, i: nat, k: K)
    requires Legal(c, start, run) && i < |run|
    requires Legal(c, start, run[..i]) && Starts(After(c, start, run[..i]), run[i], k)
    requires forall j | i < j < |run| :: !Ends(run[j])
    ensures var s := After(c, start, run);
            && s.lock == Some(Job(run[i].id, k))
            && s.cache == Alive(After(c, start, run[..i]).cache, s.now)
    ensures forall j | i < j < |run| :: run[j].Request? || run[j].Abandoned?
  {
    hide *;
    var n := |run| - 1;
    LastStep(c, start, run);
    var before := After(c, start, run[..n]);
    if i == n {
      FetchBegins(c, before, run[n], k);
    } else {
      assert run[..n][..i] == run[..i];
      assert forall j | i < j < n :: run[..n][j] == run[j];
      FetchIsAtomic(c, start, run[..n], i, k);
      assert !Ends(run[n]);
      FlightStep(c, before, run[n]);
      AliveTwice(After(c, start, run[..i]).cache, before.now, run[n].now);
    }
  }

  /** A run, unfolded at its last step. */
  lemma LastStep<K, V>(c: Config, start: real, run: seq<Event<K, V>>)
    requires Legal(c, start, run) && run != []
    ensures Legal(c, start, run[..|run| - 1])
    ensures Enabled(c, After(c, start, run[..|run| - 1]), run[|run| - 1])
    ensures After(c, start, run) == Step(c, After(c, start, run[..|run| - 1]), run[|run| - 1])
  {
  }

  lemma FetchBegins<K, V>(c: Config, s: State<K, V>, e: Event<K, V>, k: K)
    requires Enabled(c, s, e) && Starts(s, e, k)
    ensures e.Acquire?
    ensures var t := Step(c, s, e); t.lock == Some(Job(e.id, k)) && t.cache == Alive(s.cache, e.now) && t.now == e.now
  {
  }

  lemma FlightStep<K, V>(c: Config, s: State<K, V>, e: Event<K, V>)
    requires Enabled(c, s, e) && s.lock.Some? && !Ends(e)
    ensures var t := Step(c, s, e); t.lock == s.lock && t.cache == Alive(s.cache, e.now) && t.now == e.now >= s.now
    ensures e.Request? || e.Abandoned?
  {
  }

  /** Every request is a hit, a miss, a coroutine still waiting for the lock, or one that gave up waiting. */
  lemma {:induction false} RequestsAccounted<K, V>(c: Config, start: real, run: seq<Event<K, V>>)
    requires Legal(c, start, run)
    ensures var s := After(c, start, run);
            && s.stats.hits + s.stats.misses + |s.waiting| + s.abandoned == s.stats.requests
            && (s.lock.Some? ==> s.lock.value.id !in s.waiting)
  {
    if run == [] {
    } else {
      RequestsAccounted(c, start, run[..|run| - 1]);
      StepAccounts(c, After(c, start, run[..|run| - 1]), run[|run| - 1]);
    }
  }

  lemma StepAccounts<K, V>(c: Config, s: State<K, V>, e: Event<K, V>)
    requires Enabled(c, s, e) && (s.lock.Some? ==> s.lock.value.id !in s.waiting)
    ensures var t := Step(c, s, e);
            && t.stats.hits + t.stats.misses + |t.waiting| + t.abandoned - t.stats.requests
               == s.stats.hits + s.stats.misses + |s.waiting| + s.abandoned - s.stats.requests
            && (t.lock.Some? ==> t.lock.value.id !in t.waiting)
  {
    if e.Acquire? || e.Abandoned? {
      assert s.waiting == (s.waiting - {e.id})[e.id := s.waiting[e.id]];
    }
  }

  /** The three counters, from the run: steps answered from the cache, fetches begun, and requests. */
  ghost function Counted<K, V>(c: Config, start: real, run: seq<Event<K, V>>): Stats
    requires Legal(c, start, run)
  {
    if run == [] then NO_STATS
    else
      var before, s, e := Counted(c, start, run[..|run| - 1]), After(c, start, run[..|run| - 1]), run[|run| - 1];
      var hit := Hit(s, e).Some?;
      Stats(before.hits + One(hit), before.misses + One(e.Acquire? && !hit), before.requests + One(e.Request?))
  }

  lemma StepCounts<K, V>(c: Config, s: State<K, V>, e: Event<K, V>)
    requires Enabled(c, s, e)
    ensures var hit, t := Hit(s, e).Some?, Step(c, s, e).stats;
            && t.hits == s.stats.hits + One(hit) && t.misses == s.stats.misses + One(e.Acquire? && !hit)
            && t.requests == s.stats.requests + One(e.Request?)
  {
  }

  lemma {:induction false} StatsExact<K, V>(c: Config, start: real, run: seq<Event<K, V>>)
    requires Legal(c, start, run)
    ensures After(c, start, run).stats == Counted(c, start, run)
  {
    if run == [] {
    } else {
      StatsExact(c, start, run[..|run| - 1]);
      StepCounts(c, After(c, start, run[..|run| - 1]), run[|run| - 1]);
      hide Step, Hit, Enabled;
    }
  }

  // ---------- what is answered ----------

  /** What one step does to the latest value put in under `k`: a write replaces it, a removal by a caller ends it. */
  ghost function Written<K, V>(c: Config, s: State<K, V>, e: Event<K, V>, k: K, latest: Option<Entry<V>>)
      : Option<Entry<V>>
  {
    match e
    case Fetched(now, value, _) => if Holds(s, k) then Some(Entry(value, now + c.ttl)) else latest
    case Set(now, key, value, _) => if key == k then Some(Entry(value, now + c.ttl)) else latest
    case Delete(_, key) => if key == k then None else latest
    case Clear(_) => None
    case Invalidate(_, matches) => if matches(k) then None else latest
    case _ => latest
  }

  /** The latest value put in under `k` since it was last deleted, cleared or invalidated, expired or evicted or not. */
  ghost function LatestWrite<K, V>(c: Config, start: real, run: seq<Event<K, V>>, k: K): Option<Entry<V>>
    requires Legal(c, start, run)
  {
    if run == [] then None
    else
      var before, e := run[..|run| - 1], run[|run| - 1];
      Written(c, After(c, start, before), e, k, LatestWrite(c, start, before, k))
  }

  lemma StepWrites<K, V>(c: Config, s: State<K, V>, e: Event<K, V>, k: K, latest: Option<Entry<V>>)
    requires Enabled(c, s, e) && (k in s.cache ==> latest == Some(s.cache[k]))
    ensures var t := Step(c, s, e); k in t.cache ==> Written(c, s, e, k, latest) == Some(t.cache[k])
  {
  }

  lemma {:induction false} CachedIsLatest<K, V>(c: Config, start: real, run: seq<Event<K, V>>, k: K)
    requires Legal(c, start, run)
    ensures var s := After(c, start, run); k in s.cache ==> LatestWrite(c, start, run, k) == Some(s.cache[k])
  {
    if run == [] {
    } else {
      var before, e := run[..|run| - 1], run[|run| - 1];
      CachedIsLatest(c, start, before, k);
      StepWrites(c, After(c, start, before), e, k, LatestWrite(c, start, before, k));
    }
  }

  /** Whether a request is answered at once or after waiting, a hit is the latest value written and not removed since,
      less than ttl ago. */
  lemma HitIsLatest<K, V>(c: Config, start: real, run: seq<Event<K, V>>, e: Event<K, V>)
    requires Legal(c, start, run) && Enabled(c, After(c, start, run), e)
    ensures var s := After(c, start, run);
            Hit(s, e).Some? ==>
              var w := LatestWrite(c, start, run, if e.Request? then e.key else s.waiting[e.id]);
              w.Some? && Hit(s, e).value == w.value.value && e.now < w.value.expires
  {
    var s := After(c, start, run);
    if e.Request? {
      CachedIsLatest(c, start, run, e.key);
    } else if e.Acquire? {
      CachedIsLatest(c, start, run, s.waiting[e.id]);
    }
  }

  predicate Writes<K(==), V>(s: State<K, V>, e: Event<K, V>, k: K) {
    (e.Fetched? && s.lock.Some? && s.lock.value.key == k) || (e.Set? && e.key == k)
  }

  /** The step evicts, deletes, clears or invalidates `k`. */
  predicate TakesOut<K(==), V>(e: Event<K, V>, k: K) {
    match e
    case Fetched(_, _, victim) => victim == Some(k)
    case Set(_, _, _, victim) => victim == Some(k)
    case Delete(_, key) => key == k
    case Clear(_) => true
    case Invalidate(_, matches) => matches(k)
    case _ => false
  }

  lemma StepKeeps<K, V>(c: Config, s: State<K, V>, e: Event<K, V>, k: K)
    requires Enabled(c, s, e) && k in s.cache && e.now < s.cache[k].expires && !Writes(s, e, k) && !TakesOut(e, k)
    ensures var t := Step(c, s, e); k in t.cache && t.cache[k] == s.cache[k]
  {
  }

  lemma StepStores<K, V>(c: Config, s: State<K, V>, e: Event<K, V>, k: K)
    requires Enabled(c, s, e) && Writes(s, e, k)
    ensures var t := Step(c, s, e); k in t.cache && t.cache[k] == Entry(e.value, e.now + c.ttl)
  {
  }

  lemma ClockOf<K, V>(c: Config, s: State<K, V>, e: Event<K, V>)
    requires Enabled(c, s, e)
    ensures s.now <= e.now == Step(c, s, e).now
  {
  }

  /** At `i` the key was written, and no step since has written it or taken it out. */
  ghost predicate LastWrittenAt<K, V>(c: Config, start: real, run: seq<Event<K, V>>, i: nat, k: K)
    requires Legal(c, start, run)
  {
    && i < |run| && Legal(c, start, run[..i]) && Writes(After(c, start, run[..i]), run[i], k)
    && forall j | i < j < |run| ::
         Legal(c, start, run[..j]) && !Writes(After(c, start, run[..j]), run[j], k) && !TakesOut(run[j], k)
  }

  lemma {:induction false} StillCached<K, V>(c: Config, start: real, run: seq<Event<K, V>>, i: nat, k: K)
    requires i < |run| && Legal(c, start, run) && LastWrittenAt(c, start, run, i, k)
    requires After(c, start, run).now < run[i].now + c.ttl
    ensures k in After(c, start, run).cache
    ensures After(c, start, run).cache[k] == Entry(run[i].value, run[i].now + c.ttl)
  {
    hide *;
    var n := |run| - 1;
    LastStep(c, start, run);
    LastWrittenStep(c, start, run, i, k);
    var before := After(c, start, run[..n]);
    ClockOf(c, before, run[n]);
    if i == n {
      StepStores(c, before, run[n], k);
    } else {
      StillCached(c, start, run[..n], i, k);
      StepKeeps(c, before, run[n], k);
    }
  }

  lemma LastWrittenStep<K, V>(c: Config, start: real, run: seq<Event<K, V>>, i: nat, k: K)
    requires Legal(c, start, run) && LastWrittenAt(c, start, run, i, k)
    ensures var n := |run| - 1;
            && i <= n && Legal(c, start, run[..n])
            && (i == n ==> Writes(After(c, start, run[..n]), run[n], k))
            && (i < n ==>
                  && LastWrittenAt(c, start, run[..n], i, k) && run[..n][i] == run[i]
                  && !Writes(After(c, start, run[..n]), run[n], k) && !TakesOut(run[n], k))
  {
    var n := |run| - 1;
    LastStep(c, start, run);
    hide After, Step, Enabled, Legal, Writes, TakesOut;
    if i < n {
      assert run[..n][..i] == run[..i];
      assert Legal(c, start, run[..n][..i]) && Writes(After(c, start, run[..n][..i]), run[..n][i], k);
      forall j | i < j < n
        ensures Legal(c, start, run[..n][..j]) && !Writes(After(c, start, run[..n][..j]), run[..n][j], k)
        ensures !TakesOut(run[..n][j], k)
      {
        assert run[..n][..j] == run[..j];
      }
    }
  }

  /**
   * The other side: what was last written, and not taken out since, must be the answer for ttl, to a request at once
   * and to a coroutine that has waited for the lock.
   */
  lemma MustHit<K, V>(c: Config, start: real, run: seq<Event<K, V>>, i: nat, k: K, e: Event<K, V>)
    requires Legal(c, start, run) && LastWrittenAt(c, start, run, i, k) && Enabled(c, After(c, start, run), e)
    requires var s := After(c, start, run);
             (e.Request? && e.key == k) || (e.Acquire? && e.id in s.waiting && s.waiting[e.id] == k)
    requires e.now < run[i].now + c.ttl
    ensures Hit(After(c, start, run), e) == Some(run[i].value)
  {
    ClockOf(c, After(c, start, run), e);
    StillCached(c, start, run, i, k);
  }

  /** The cache never outgrows its size. */
  lemma {:induction false} Bounded<K, V>(c: Config, start: real, run: seq<Event<K, V>>)
    requires Legal(c, start, run)
    ensures |After(c, start, run).cache| <= c.maxsize
  {
    if run == [] {
    } else {
      Bounded(c, start, run[..|run| - 1]);
      StepBounded(c, After(c, start, run[..|run| - 1]), run[|run| - 1]);
    }
  }

  lemma StepBounded<K, V>(c: Config, s: State<K, V>, e: Event<K, V>)
    requires Enabled(c, s, e) && |s.cache| <= c.maxsize
    ensures |Step(c, s, e).cache| <= c.maxsize
  {
    var alive := Alive(s.cache, e.now);
    AliveSmaller(s.cache, e.now);
    if e.Invalidate? {
      Smaller(Unmatched(alive, e.matches), alive);
    }
    hide Put, Alive, Unmatched, EvictionOk;
    match e {
      case Fetched(now, value, victim) => PutSize(c, alive, s.lock.value.key, Entry(value, now + c.ttl), victim);
      case Set(now, key, value, victim) => PutSize(c, alive, key, Entry(value, now + c.ttl), victim);
      case Delete(_, key) => Smaller(alive - {key}, alive);
      case _ =>
    }
  }

  lemma AliveSmaller<K, V>(m: map<K, Entry<V>>, now: real)
    ensures |Alive(m, now)| <= |m|
  {
    Smaller(Alive(m, now), m);
  }

  /** Nothing is evicted without need: an eviction leaves the cache full. */
  lemma EvictsIntoFull<K, V>(c: Config, s: State<K, V>, e: Event<K, V>)
    requires Enabled(c, s, e) && |s.cache| <= c.maxsize && (e.Fetched? || e.Set?) && e.victim.Some?
    ensures |Step(c, s, e).cache| == c.maxsize
  {
    var alive := Alive(s.cache, e.now);
    AliveSmaller(s.cache, e.now);
    hide Put, Alive, EvictionOk;
    if e.Fetched? {
      PutSize(c, alive, s.lock.value.key, Entry(e.value, e.now + c.ttl), e.victim);
    } else {
      PutSize(c, alive, e.key, Entry(e.value, e.now + c.ttl), e.victim);
    }
  }

  lemma {:induction false} Smaller<K, V>(m: map<K, V>, n: map<K, V>)
    requires m.Keys <= n.Keys
    ensures |m| <= |n|
  {
    if k :| k in m {
      Smaller(m - {k}, n - {k});
      assert (m - {k})[k := m[k]] == m && (n - {k})[k := n[k]] == n;
    }
  }

  lemma PutSize<K, V>(c: Config, m: map<K, Entry<V>>, key: K, e: Entry<V>, victim: Option<K>)
    requires |m| <= c.maxsize && EvictionOk(c.maxsize, m, key, victim)
    ensures |Put(m, key, e, victim)| <= c.maxsize
    ensures victim.Some? ==> |Put(m, key, e, victim)| == c.maxsize
  {
    if victim.Some? {
      assert (m - {victim.value})[victim.value := m[victim.value]] == m;
    } else if key in m {
      assert Put(m, key, e, victim).Keys == m.Keys;
      Smaller(Put(m, key, e, victim), m);
    }
  }

  // ---------- the object ----------

  /** The shared object; each method is one step of a coroutine, between acquiring or yielding control. */
  class QueryCache<K(==, !new), V(!new)> {
    const config: Config
    var cache: map<K, Entry<V>>
    var lock: Option<Job<K>>
    var waiting: map<Id, K>
    var stats: Stats
    ghost var abandoned: nat
    ghost var clock: real
    ghost const start: real
    ghost var log: seq<Event<K, V>>

    ghost function Abstract(): State<K, V>
      reads this
    {
      State(cache, lock, waiting, stats, abandoned, clock)
    }

    ghost predicate Valid()
      reads this
    {
      Legal(config, start, log) && Abstract() == After(config, start, log)
    }

    ghost predicate Ready(e: Event<K, V>)
      reads this
    {
      Valid() && Enabled(config, Abstract(), e)
    }

    twostate predicate Did(e: Event<K, V>)
      reads this
    {
      Valid() && log == old(log) + [e]
    }

    constructor (maxsize: nat, ttl: real, ghost now: real)
      ensures Valid() && log == [] && config == Config(maxsize, ttl) && start == now
    {
      config := Config(maxsize, ttl);
      cache, lock, waiting, stats := map[], None, map[], NO_STATS;
      abandoned, clock, start, log := 0, now, now, [];
    }

    ghost method Record(e: Event<K, V>)
      requires Legal(config, start, log) && Enabled(config, After(config, start, log), e)
      requires var t := Step(config, After(config, start, log), e);
               cache == t.cache && lock == t.lock && waiting == t.waiting && stats == t.stats
      modifies this`abandoned, this`clock, this`log
      ensures Valid() && log == old(log) + [e]
    {
      var t := Step(config, After(config, start, log), e);
      abandoned, clock := t.abandoned, t.now;
      assert (log + [e])[..|log|] == log;
      log := log + [e];
    }

    /** The first half of get_or_fetch: an answer at once, or a place among those waiting for the lock. */
    method Begin(id: Id, key: K, now: real) returns (r: Option<V>)
      requires Ready(Request(now, id, key))
      modifies this
      ensures Did(Request(now, id, key)) && r == Hit(old(Abstract()), Request(now, id, key))
      ensures waiting == if r.Some? then old(waiting) else old(waiting)[id := key]
    {
      cache := Alive(cache, now);
      stats := stats.(requests := stats.requests + 1);
      if key in cache {
        stats := stats.(hits := stats.hits + 1);
        r := Some(cache[key].value);
      } else {
        waiting := waiting[id := key];
        r := None;
      }
      Record(Request(now, id, key));
    }

    /** With the lock: the second look, and otherwise the start of the fetch. */
    method Locked(id: Id, now: real) returns (r: Option<V>)
      requires Ready(Acquire(now, id))
      modifies this
      ensures Did(Acquire(now, id)) && r == Hit(old(Abstract()), Acquire(now, id))
      ensures r.None? <==> lock == Some(Job(id, old(waiting)[id]))
    {
      cache := Alive(cache, now);
      var key := waiting[id];
      waiting := waiting - {id};
      if key in cache {
        stats := stats.(hits := stats.hits + 1);
        r := Some(cache[key].value);
      } else {
        stats := stats.(misses := stats.misses + 1);
        lock := Some(Job(id, key));
        r := None;
      }
      Record(Acquire(now, id));
    }

    method Store(value: V, victim: Option<K>, now: real)
      requires Ready(Fetched(now, value, victim))
      modifies this
      ensures Did(Fetched(now, value, victim))
    {
      hide Put, Alive, EvictionOk, Legal, After;
      cache := Put(Alive(cache, now), lock.value.key, Entry(value, now + config.ttl), victim);
      lock := None;
      Record(Fetched(now, value, victim));
    }

    method Fail(now: real)
      requires Ready(FetchFailed(now))
      modifies this
      ensures Did(FetchFailed(now))
    {
      cache := Alive(cache, now);
      lock := None;
      Record(FetchFailed(now));
    }

    method SetValue(key: K, value: V, victim: Option<K>, now: real)
      requires Ready(Set(now, key, value, victim))
      modifies this
      ensures Did(Set(now, key, value, victim))
    {
      hide Put, Alive, EvictionOk, Legal, After;
      cache := Put(Alive(cache, now), key, Entry(value, now + config.ttl), victim);
      Record(Set(now, key, value, victim));
    }

    method DeleteKey(key: K, now: real) returns (present: bool)
      requires Ready(Delete(now, key))
      modifies this
      ensures Did(Delete(now, key))
      ensures present <==> key in old(cache) && now < old(cache)[key].expires
    {
      cache := Alive(cache, now);
      present := key in cache;
      if present {
        cache := cache - {key};
      }
      Record(Delete(now, key));
    }

    method ClearAll(now: real)
      requires Ready(Clear(now))
      modifies this
      ensures Did(Clear(now))
    {
      cache := map[];
      Record(Clear(now));
    }

    method RemoveEach(doomed: set<K>)
      modifies this`cache
      ensures cache == old(cache) - doomed
    {
      var rest := doomed;
      while rest != {}
        invariant rest <= doomed && cache == old(cache) - (doomed - rest)
        decreases rest
      {
        var k :| k in rest;
        cache := cache - {k};
        rest := rest - {k};
      }
    }

    method InvalidatePattern(matches: K -> bool, now: real) returns (n: nat)
      requires Ready(Invalidate(now, matches))
      modifies this
      ensures Did(Invalidate(now, matches))
      ensures n == |set k | k in old(cache) && now < old(cache)[k].expires && matches(k)|
    {
      cache := Alive(cache, now);
      ghost var alive := cache;
      var doomed := set k | k in cache && matches(k);
      n := |doomed|;
      assert doomed == set k | k in old(cache) && now < old(cache)[k].expires && matches(k);
      assert Unmatched(alive, matches) == alive - doomed;
      hide Alive, Unmatched;
      RemoveEach(doomed);
      Record(Invalidate(now, matches));
    }
  }
}
