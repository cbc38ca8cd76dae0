/** What the tiers of the layered cache hold, and so what a `get` must return, read off the run. */
module LayeredCacheReads {
  import opened Option
  import opened LayeredCache

  // ---------- calls in flight ----------

  /** The steps that finish a call, or change what it is doing. */
  predicate Advances(e: Event, c: nat) {
    match e
    case L2Get(d) => d == c
    case FinishGet(d, _, _, _) => d == c
    case L2Set(d) => d == c
    case L2Delete(d) => d == c
    case Scan(d, _) => d == c
    case ScanDone(d) => d == c
    case Fail(d) => d == c
    case _ => false
  }

  lemma {:induction false} CallsNumbered(ttl: real, tr: seq<State>, ev: seq<Event>, n: nat)
    requires Run(ttl, tr, ev) && n < |tr|
    ensures forall c | c in tr[n].calls :: c < tr[n].nextCall
  {
    if n == 0 {
    } else {
      CallsNumbered(ttl, tr, ev, n - 1);
      assert Next(ttl, tr[n - 1], ev[n - 1], tr[n]);
    }
  }

  /** A call is what it was until one of its own steps. */
  lemma {:induction false} CallKept(ttl: real, tr: seq<State>, ev: seq<Event>, m: nat, n: nat, c: nat)
    requires Run(ttl, tr, ev) && m <= n < |tr| && c in tr[m].calls
    requires forall i | m <= i < n :: !Advances(ev[i], c)
    ensures c in tr[n].calls && tr[n].calls[c] == tr[m].calls[c]
    decreases n
  {
    if m == n {
    } else {
      CallKept(ttl, tr, ev, m, n - 1, c);
      CallsNumbered(ttl, tr, ev, n - 1);
      assert Next(ttl, tr[n - 1], ev[n - 1], tr[n]);
      assert !Advances(ev[n - 1], c);
    }
  }

  // ---------- Redis ----------

  /** The step changes what Redis holds under the key. */
  ghost predicate RedisTouched(tr: seq<State>, ev: seq<Event>, i: nat, key: string)
    requires i < |ev| < |tr|
  {
    match ev[i]
    case L2Set(c) => c in tr[i].calls && tr[i].calls[c].Writing? && tr[i].calls[c].key == key
    case L2Delete(c) => c in tr[i].calls && tr[i].calls[c].Deleting? && key in tr[i].calls[c].keys
    case DropL2(k) => k == key
    case _ => false
  }

  lemma {:induction false} RedisKept(ttl: real, tr: seq<State>, ev: seq<Event>, m: nat, n: nat, key: string)
    requires Run(ttl, tr, ev) && m <= n < |tr|
    requires forall i | m <= i < n :: !RedisTouched(tr, ev, i, key)
    ensures key in tr[n].l2 <==> key in tr[m].l2
    ensures key in tr[m].l2 ==> tr[n].l2[key] == tr[m].l2[key]
    decreases n
  {
    if m == n {
    } else {
      RedisKept(ttl, tr, ev, m, n - 1, key);
      assert Next(ttl, tr[n - 1], ev[n - 1], tr[n]);
      assert !RedisTouched(tr, ev, n - 1, key);
    }
  }

  /** What a write has stored Redis answers until its time is over, unless the key is written, deleted or dropped. */
  lemma WriteIsStored(ttl: real, tr: seq<State>, ev: seq<Event>, m: nat, n: nat, c: nat, key: string, v: Value,
                      life: real)
    requires Run(ttl, tr, ev) && m < n < |tr| && ev[m] == L2Set(c)
    requires c in tr[m].calls && tr[m].calls[c] == Writing(key, v, life)
    requires forall i | m < i < n :: !RedisTouched(tr, ev, i, key)
    ensures Current(tr[n], key) == if tr[n].now < tr[m].now + life then Some(v) else None
  {
    assert Next(ttl, tr[m], ev[m], tr[m + 1]);
    RedisKept(ttl, tr, ev, m + 1, n, key);
  }

  /** What a deletion has removed Redis does not answer until the key is written again. */
  lemma DeleteIsDone(ttl: real, tr: seq<State>, ev: seq<Event>, m: nat, n: nat, c: nat, key: string)
    requires Run(ttl, tr, ev) && m < n < |tr| && ev[m] == L2Delete(c)
    requires c in tr[m].calls && tr[m].calls[c].Deleting? && key in tr[m].calls[c].keys
    requires forall i | m < i < n :: !RedisTouched(tr, ev, i, key)
    ensures Current(tr[n], key) == None
  {
    assert Next(ttl, tr[m], ev[m], tr[m + 1]);
    RedisKept(ttl, tr, ev, m + 1, n, key);
  }

  /** From a process's `set` to what Redis answers: the write that reaches Redis is the one that was begun. */
  lemma SetIsStored(ttl: real, tr: seq<State>, ev: seq<Event>, j: nat, m: nat, n: nat,
                    c: nat, p: Process, key: string, v: Value, life: real)
    requires Run(ttl, tr, ev) && j < m < n < |tr|
    requires ev[j] == StartSet(c, p, key, v, life) && ev[m] == L2Set(c)
    requires forall i | j < i < m :: !Advances(ev[i], c)
    requires forall i | m < i < n :: !RedisTouched(tr, ev, i, key)
    ensures Current(tr[n], key) == if tr[n].now < tr[m].now + life then Some(v) else None
  {
    assert Next(ttl, tr[j], ev[j], tr[j + 1]);
    CallKept(ttl, tr, ev, j + 1, m, c);
    WriteIsStored(ttl, tr, ev, m, n, c, key, v, life);
  }

  /** The same for a process's `delete`. */
  lemma OwnDeleteIsDone(ttl: real, tr: seq<State>, ev: seq<Event>, j: nat, m: nat, n: nat, c: nat, p: Process,
                        key: string)
    requires Run(ttl, tr, ev) && j < m < n < |tr|
    requires ev[j] == StartDelete(c, p, key) && ev[m] == L2Delete(c)
    requires forall i | j < i < m :: !Advances(ev[i], c)
    requires forall i | m < i < n :: !RedisTouched(tr, ev, i, key)
    ensures Current(tr[n], key) == None
  {
    assert Next(ttl, tr[j], ev[j], tr[j + 1]);
    CallKept(ttl, tr, ev, j + 1, m, c);
    DeleteIsDone(ttl, tr, ev, m, n, c, key);
  }

  /** A key that a round of the scan has found stays among those to be deleted. */
  lemma {:induction false} ScannedKept(ttl: real, tr: seq<State>, ev: seq<Event>, s: nat, n: nat, c: nat, key: string)
    requires Run(ttl, tr, ev) && s < n < |tr| && ev[s].Scan? && ev[s].call == c && key in ev[s].found
    requires c in tr[n].calls
    ensures var call := tr[n].calls[c];
            (call.Scanning? && key in call.found) || (call.Deleting? && key in call.keys)
    decreases n
  {
    assert Next(ttl, tr[n - 1], ev[n - 1], tr[n]);
    if n - 1 > s {
      assert Next(ttl, tr[s], ev[s], tr[s + 1]);
      CallsNumbered(ttl, tr, ev, n - 1);
      StillThere(ttl, tr, ev, s, n - 1, c);
      ScannedKept(ttl, tr, ev, s, n - 1, c, key);
    }
  }

  /** A call that is in flight now, and was begun before, has been in flight all along. */
  lemma {:induction false} StillThere(ttl: real, tr: seq<State>, ev: seq<Event>, s: nat, n: nat, c: nat)
    requires Run(ttl, tr, ev) && s <= n && n + 1 < |tr| && c in tr[s].calls && c in tr[n + 1].calls
    ensures c in tr[n].calls
    decreases n - s
  {
    NumbersGrow(ttl, tr, ev, s, n);
    CallsNumbered(ttl, tr, ev, s);
    assert Next(ttl, tr[n], ev[n], tr[n + 1]);
  }

  lemma {:induction false} NumbersGrow(ttl: real, tr: seq<State>, ev: seq<Event>, m: nat, n: nat)
    requires Run(ttl, tr, ev) && m <= n < |tr|
    ensures tr[m].nextCall <= tr[n].nextCall
    decreases n
  {
    if m == n {
    } else {
      NumbersGrow(ttl, tr, ev, m, n - 1);
      assert Next(ttl, tr[n - 1], ev[n - 1], tr[n]);
    }
  }

  /** A pattern deletion removes what any round of its scan has found. */
  lemma PatternDeletesFound(ttl: real, tr: seq<State>, ev: seq<Event>, s: nat, m: nat, n: nat, c: nat, key: string)
    requires Run(ttl, tr, ev) && s < m < n < |tr| && ev[s].Scan? && ev[s].call == c && key in ev[s].found
    requires ev[m] == L2Delete(c) && forall i | m < i < n :: !RedisTouched(tr, ev, i, key)
    ensures Current(tr[n], key) == None
  {
    assert Next(ttl, tr[m], ev[m], tr[m + 1]);
    ScannedKept(ttl, tr, ev, s, m, c, key);
    DeleteIsDone(ttl, tr, ev, m, n, c, key);
  }

  /** A `get` returns what Redis answered to its read, a value or nothing. */
  lemma GetReturnsReply(ttl: real, tr: seq<State>, ev: seq<Event>, m: nat, f: nat,
                        c: nat, p: Process, key: string, result: Option<Value>)
    requires Run(ttl, tr, ev) && m < f < |ev| && ev[m] == L2Get(c) && ev[f] == FinishGet(c, p, key, result)
    requires forall i | m < i < f :: !Advances(ev[i], c)
    ensures result == Current(tr[m], key)
  {
    assert Next(ttl, tr[m], ev[m], tr[m + 1]);
    CallKept(ttl, tr, ev, m + 1, f, c);
    assert Next(ttl, tr[f], ev[f], tr[f + 1]);
  }

  /** What one process has set another one gets: while the value lives and is not replaced, a `get` whose read reaches
      Redis after the write returns it. */
  lemma OthersSetIsRead(ttl: real, tr: seq<State>, ev: seq<Event>, j: nat, w: nat, m: nat, f: nat, c: nat, d: nat,
                        p: Process, q: Process, key: string, v: Value, life: real, result: Option<Value>)
    requires Run(ttl, tr, ev) && j < w < m < f < |ev|
    requires ev[j] == StartSet(c, p, key, v, life) && ev[w] == L2Set(c)
    requires ev[m] == L2Get(d) && ev[f] == FinishGet(d, q, key, result) && tr[m].now < tr[w].now + life
    requires (forall i | j < i < w :: !Advances(ev[i], c)) && (forall i | m < i < f :: !Advances(ev[i], d))
    requires forall i | w < i < m :: !RedisTouched(tr, ev, i, key)
    ensures result == Some(v)
  {
    SetIsStored(ttl, tr, ev, j, w, m, c, p, key, v, life);
    GetReturnsReply(ttl, tr, ev, m, f, d, q, key, result);
  }

  // ---------- L1 ----------

  /** The step changes what L1 of the process holds under the key. */
  predicate L1Touched(e: Event, p: Process, key: string) {
    match e
    case FinishGet(_, q, k, result) => q == p && k == key && result.Some?
    case StartSet(_, q, k, _, _) => q == p && k == key
    case StartDelete(_, q, k) => q == p && k == key
    case StartDeletePattern(_, q) => q == p
    case DropL1(slot) => slot == Slot(p, key)
    case _ => false
  }

  /** What a step of that kind leaves in L1. */
  function LeftInL1(e: Event, now: real): Option<L1Entry> {
    match e
    case FinishGet(_, _, _, result) => if result.Some? then Some(L1Entry(result.value, now)) else None
    case StartSet(_, _, _, v, _) => Some(L1Entry(v, now))
    case _ => None
  }

  lemma {:induction false} L1Kept(ttl: real, tr: seq<State>, ev: seq<Event>, m: nat, n: nat, p: Process, key: string)
    requires Run(ttl, tr, ev) && m <= n < |tr|
    requires forall i | m <= i < n :: !L1Touched(ev[i], p, key)
    ensures Slot(p, key) in tr[n].l1 <==> Slot(p, key) in tr[m].l1
    ensures Slot(p, key) in tr[m].l1 ==> tr[n].l1[Slot(p, key)] == tr[m].l1[Slot(p, key)]
    decreases n
  {
    if m == n {
    } else {
      L1Kept(ttl, tr, ev, m, n - 1, p, key);
      assert Next(ttl, tr[n - 1], ev[n - 1], tr[n]);
      assert !L1Touched(ev[n - 1], p, key);
    }
  }

  function InSlot(s: State, p: Process, key: string): Option<L1Entry> {
    if Slot(p, key) in s.l1 then Some(s.l1[Slot(p, key)]) else None
  }

  /** L1 of a process holds exactly its latest local set or fill of the key not since deleted, cleared or dropped. */
  lemma L1IsLatest(ttl: real, tr: seq<State>, ev: seq<Event>, m: nat, n: nat, p: Process, key: string)
    requires Run(ttl, tr, ev) && m < n < |tr| && L1Touched(ev[m], p, key)
    requires forall i | m < i < n :: !L1Touched(ev[i], p, key)
    ensures InSlot(tr[n], p, key) == LeftInL1(ev[m], tr[m].now)
  {
    assert Next(ttl, tr[m], ev[m], tr[m + 1]);
    L1Kept(ttl, tr, ev, m + 1, n, p, key);
  }

  /** An L1 never touched holds nothing. */
  lemma L1IsEmpty(ttl: real, tr: seq<State>, ev: seq<Event>, n: nat, p: Process, key: string)
    requires Run(ttl, tr, ev) && n < |tr|
    requires forall i | 0 <= i < n :: !L1Touched(ev[i], p, key)
    ensures InSlot(tr[n], p, key) == None
  {
    L1Kept(ttl, tr, ev, 0, n, p, key);
  }

  /** Read your own writes: for the L1 lifetime after a set or fill, a `get` of the process is answered by L1 with that
      value; once the lifetime is over, or after a delete, it goes to Redis. */
  lemma GetUsesL1(ttl: real, tr: seq<State>, ev: seq<Event>, m: nat, i: nat, p: Process, key: string, v: Value)
    requires Run(ttl, tr, ev) && m < i < |ev| && L1Touched(ev[m], p, key)
    requires forall k | m < k < i :: !L1Touched(ev[k], p, key)
    ensures var left := LeftInL1(ev[m], tr[m].now);
            var alive := left.Some? && tr[i].now < tr[m].now + ttl;
            && (ev[i] == L1Hit(p, key, v) ==> alive && left.value.value == v)
            && (ev[i].StartGet? && ev[i].process == p && ev[i].key == key ==> !alive)
  {
    L1IsLatest(ttl, tr, ev, m, i, p, key);
    assert Next(ttl, tr[i], ev[i], tr[i + 1]);
  }
}
