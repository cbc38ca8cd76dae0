/**
 * Several processes' managers over one Redis: whatever steps they take, in any order, is a run of the machine in
 * LayeredCache, so what that machine guarantees holds of the objects.
 */
module LayeredCacheDeployment {
  import opened Option
  import opened LayeredCache
  import opened LayeredCacheManager

  /** The event works on the L1 of process `p`. */
  predicate ActsOn(e: Event, p: Process) {
    match e
    case FinishGet(_, q, _, _) => q == p
    case StartSet(_, q, _, _, _) => q == p
    case StartDelete(_, q, _) => q == p
    case StartDeletePattern(_, q) => q == p
    case DropL1(slot) => slot.process == p
    case _ => false
  }

  /** A step on one process's L1, or on none, leaves every other manager as the machine says. */
  lemma StepKeepsOthers(m: Manager, ttl: real, s: State, e: Event, t: State)
    requires m.Agrees(s) && Next(ttl, s, e, t) && !ActsOn(e, m.process)
    ensures m.Agrees(t)
  {
  }

  lemma RunExtends(ttl: real, tr: seq<State>, ev: seq<Event>, e: Event, t: State)
    requires Run(ttl, tr, ev) && Next(ttl, tr[|ev|], e, t)
    ensures Run(ttl, tr + [t], ev + [e])
  {
    var tr', ev' := tr + [t], ev + [e];
    hide Next;
    forall i | 0 <= i < |ev'| ensures Next(ttl, tr'[i], ev'[i], tr'[i + 1]) {
      if i < |ev| {
        assert tr'[i] == tr[i] && tr'[i + 1] == tr[i + 1] && ev'[i] == ev[i];
      }
    }
  }

  /** Neither process nor Redis holds anything that this event changes. */
  predicate Silent(e: Event) {
    e.Tick? || e.Scan? || e.ScanDone? || e.Fail?
  }

  class Deployment {
    const l1Ttl: real
    const managers: seq<Manager>
    const redis: Redis
    ghost var tr: seq<State>
    ghost var ev: seq<Event>

    ghost function Last(): State
      requires tr != []
      reads this
    {
      tr[|tr| - 1]
    }

    ghost predicate Fleet(s: State)
      reads managers
    {
      forall i | 0 <= i < |managers| ::
        managers[i].process == i && managers[i].l1Ttl == l1Ttl && managers[i].Agrees(s)
    }

    ghost predicate Valid()
      reads this, redis, managers
    {
      Run(l1Ttl, tr, ev) && redis.data == Last().l2 && Fleet(Last())
    }

    /** What one step has done to the history. */
    twostate predicate Took(e: Event)
      reads this, redis, managers
    {
      Valid() && ev == old(ev) + [e] && |tr| == |old(tr)| + 1 && tr[..|tr| - 1] == old(tr)
    }

    /** What a `get` of process `i` has just returned is recent. */
    ghost predicate Recent(i: nat, key: string, v: Value)
      reads this
    {
      |ev| > 0 &&
      var n := |ev| - 1;
      RecentLocalSet(l1Ttl, tr, ev, n, i, key, v) || RecentRedisValue(l1Ttl, tr, ev, n, i, key, v)
    }

    constructor (n: nat, l1Ttl: real, redis: Redis, ghost now: real)
      ensures Valid() && |managers| == n && this.l1Ttl == l1Ttl && this.redis == redis && |tr| == 1 && Last().now == now
      ensures fresh(managers)
    {
      var ms: seq<Manager> := [];
      for i := 0 to n
        invariant |ms| == i && fresh(ms)
        invariant forall j | 0 <= j < i :: ms[j].process == j && ms[j].l1Ttl == l1Ttl && ms[j].l1 == map[]
      {
        var m := new Manager(i, l1Ttl);
        ms := ms + [m];
      }
      this.l1Ttl, managers, this.redis := l1Ttl, ms, redis;
      tr, ev := [State(now, map[], redis.data, map[], 0)], [];
    }

    /** Writes one step into the history. */
    ghost method Record(e: Event, t: State)
      requires Run(l1Ttl, tr, ev) && Next(l1Ttl, Last(), e, t) && redis.data == t.l2 && Fleet(t)
      modifies this`tr, this`ev
      ensures Took(e) && Last() == t
    {
      RunExtends(l1Ttl, tr, ev, e, t);
      tr, ev := tr + [t], ev + [e];
    }

    /** The other managers, once manager `i` agrees with the new state. */
    lemma FleetAfter(i: nat, s: State, e: Event, t: State)
      requires i < |managers| && Next(l1Ttl, s, e, t) && (forall p | p != i :: !ActsOn(e, p))
      requires forall j | 0 <= j < |managers| ::
                 && managers[j].process == j && managers[j].l1Ttl == l1Ttl
                 && if j == i then managers[j].Agrees(t) else managers[j].Agrees(s)
      ensures Fleet(t)
    {
      forall j | 0 <= j < |managers| && j != i ensures managers[j].Agrees(t) {
        StepKeepsOthers(managers[j], l1Ttl, s, e, t);
      }
    }

    lemma FleetUntouched(s: State, e: Event, t: State)
      requires Fleet(s) && Next(l1Ttl, s, e, t) && forall p :: !ActsOn(e, p)
      ensures Fleet(t)
    {
      forall j | 0 <= j < |managers| ensures managers[j].Agrees(t) {
        StepKeepsOthers(managers[j], l1Ttl, s, e, t);
      }
    }

    /** The first half of `get`: a hit is recent. */
    method Lookup(i: nat, key: string, now: real) returns (hit: Option<Value>)
      requires Valid() && i < |managers| && now == Last().now && l1Ttl >= 0.0
      modifies this`tr, this`ev, managers[i]
      ensures Took(if hit.Some? then L1Hit(i, key, hit.value) else StartGet(old(Last()).nextCall, i, key))
      ensures hit.Some? ==> Recent(i, key, hit.value)
    {
      hide Next;
      ghost var s, t := Last(), Last();
      hit, t := managers[i].Lookup(key, now, s);
      ghost var e := if hit.Some? then L1Hit(i, key, hit.value) else StartGet(s.nextCall, i, key);
      FleetAfter(i, s, e, t);
      SameL2(l1Ttl, s, e, t);
      Record(e, t);
      if hit.Some? {
        BoundedStaleness(l1Ttl, tr, ev, |ev| - 1, i, key, hit.value);
      }
    }

    /** The second half of `get`: a value is recent. */
    method Fill(i: nat, key: string, reply: Option<Value>, now: real, ghost call: nat) returns (r: Option<Value>)
      requires Valid() && i < |managers| && now == Last().now && l1Ttl >= 0.0
      requires call in Last().calls && Last().calls[call] == Answered(i, key, reply)
      modifies this`tr, this`ev, managers[i]
      ensures r == reply && Took(FinishGet(call, i, key, r))
      ensures r.Some? ==> Recent(i, key, r.value)
    {
      hide Next;
      ghost var s, t := Last(), Last();
      r, t := managers[i].Fill(key, reply, now, s, call);
      ghost var e := FinishGet(call, i, key, r);
      FleetAfter(i, s, e, t);
      SameL2(l1Ttl, s, e, t);
      Record(e, t);
      if r.Some? {
        BoundedStaleness(l1Ttl, tr, ev, |ev| - 1, i, key, r.value);
      }
    }

    method SetLocal(i: nat, key: string, value: Value, l2Ttl: real, now: real)
      requires Valid() && i < |managers| && now == Last().now
      modifies this`tr, this`ev, managers[i]
      ensures Took(StartSet(old(Last()).nextCall, i, key, value, l2Ttl))
    {
      hide Next;
      ghost var s := Last();
      ghost var t := managers[i].SetLocal(key, value, l2Ttl, now, s);
      ghost var e := StartSet(s.nextCall, i, key, value, l2Ttl);
      FleetAfter(i, s, e, t);
      SameL2(l1Ttl, s, e, t);
      Record(e, t);
    }

    method DeleteLocal(i: nat, key: string)
      requires Valid() && i < |managers|
      modifies this`tr, this`ev, managers[i]
      ensures Took(StartDelete(old(Last()).nextCall, i, key))
    {
      hide Next;
      ghost var s := Last();
      ghost var t := managers[i].DeleteLocal(key, s);
      ghost var e := StartDelete(s.nextCall, i, key);
      FleetAfter(i, s, e, t);
      SameL2(l1Ttl, s, e, t);
      Record(e, t);
    }

    method ClearLocal(i: nat)
      requires Valid() && i < |managers|
      modifies this`tr, this`ev, managers[i]
      ensures Took(StartDeletePattern(old(Last()).nextCall, i))
    {
      hide Next;
      ghost var s := Last();
      ghost var t := managers[i].ClearLocal(s);
      ghost var e := StartDeletePattern(s.nextCall, i);
      FleetAfter(i, s, e, t);
      SameL2(l1Ttl, s, e, t);
      Record(e, t);
    }

    method Evict(i: nat, key: string)
      requires Valid() && i < |managers|
      modifies this`tr, this`ev, managers[i]
      ensures Took(DropL1(Slot(i, key)))
    {
      hide Next;
      ghost var s := Last();
      ghost var t := managers[i].Evict(key, s);
      ghost var e := DropL1(Slot(i, key));
      FleetAfter(i, s, e, t);
      SameL2(l1Ttl, s, e, t);
      Record(e, t);
    }

    method RedisGet(key: string, now: real, ghost call: nat) returns (reply: Option<Value>)
      requires Valid() && now == Last().now
      requires call in Last().calls && Last().calls[call].Reading? && Last().calls[call].key == key
      modifies this`tr, this`ev
      ensures Took(L2Get(call)) && reply == Current(old(Last()), key)
      ensures call in Last().calls && Last().calls[call].Answered? && Last().calls[call].reply == reply
    {
      ghost var s, t := Last(), Last();
      reply, t := redis.Get(key, now, s, l1Ttl, call);
      FleetUntouched(s, L2Get(call), t);
      Record(L2Get(call), t);
    }

    method RedisSetEx(key: string, value: Value, l2Ttl: real, now: real, ghost call: nat)
      requires Valid() && now == Last().now && call in Last().calls && Last().calls[call] == Writing(key, value, l2Ttl)
      modifies this`tr, this`ev, redis
      ensures Took(L2Set(call))
    {
      hide Next;
      ghost var s := Last();
      ghost var t := redis.SetEx(key, value, l2Ttl, now, s, l1Ttl, call);
      FleetUntouched(s, L2Set(call), t);
      Record(L2Set(call), t);
    }

    method RedisDelete(keys: set<string>, now: real, ghost call: nat) returns (n: nat)
      requires Valid() && now == Last().now && call in Last().calls && Last().calls[call] == Deleting(keys)
      modifies this`tr, this`ev, redis
      ensures Took(L2Delete(call)) && n == |set k | k in keys && Current(old(Last()), k).Some?|
    {
      hide Next;
      ghost var s, t := Last(), Last();
      n, t := redis.Delete(keys, now, s, l1Ttl, call);
      FleetUntouched(s, L2Delete(call), t);
      Record(L2Delete(call), t);
    }

    method RedisDrop(key: string)
      requires Valid()
      modifies this`tr, this`ev, redis
      ensures Took(DropL2(key))
    {
      hide Next;
      ghost var s := Last();
      ghost var t := redis.Drop(key, s, l1Ttl);
      FleetUntouched(s, DropL2(key), t);
      Record(DropL2(key), t);
    }

    /** Time passes, a scan goes on, or a call gives up. */
    ghost method Pass(e: Event, t: State)
      requires Valid() && Silent(e) && Next(l1Ttl, Last(), e, t)
      modifies this`tr, this`ev
      ensures Took(e) && Last() == t
    {
      FleetUntouched(Last(), e, t);
      SameL2(l1Ttl, Last(), e, t);
      hide Next;
      Record(e, t);
    }
  }

  /** Only Redis's own steps change what Redis holds. */
  lemma SameL2(ttl: real, s: State, e: Event, t: State)
    requires Next(ttl, s, e, t) && !e.L2Set? && !e.L2Delete? && !e.DropL2?
    ensures t.l2 == s.l2
  {
  }
}
