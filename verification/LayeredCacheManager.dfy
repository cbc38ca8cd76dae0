/**
 * The objects behind the layered cache: one process's manager and the shared Redis. A method is what runs between two
 * awaits, and each is proved to take one step of the machine in LayeredCache.
 */
module LayeredCacheManager {
  import opened Option
  import opened LayeredCache

  datatype Stats = Stats(l1Hits: nat, l1Misses: nat, l2Hits: nat, l2Misses: nat, l2Sets: nat, l2Deletes: nat)

  class Redis {
    var data: map<string, L2Entry>

    constructor ()
      ensures data == map[]
    {
      data := map[];
    }

    method Get(key: string, now: real, ghost s: State, ghost ttl: real, ghost call: nat)
        returns (reply: Option<Value>, ghost t: State)
      requires data == s.l2 && now == s.now && call in s.calls && s.calls[call].Reading? && s.calls[call].key == key
      ensures reply == Current(s, key) && Next(ttl, s, L2Get(call), t) && data == t.l2
      ensures t.calls[call] == Answered(s.calls[call].process, key, reply)
    {
      reply := if key in data && now < data[key].expires then Some(data[key].value) else None;
      t := s.(calls := s.calls[call := Answered(s.calls[call].process, key, reply)]);
    }

    method SetEx(key: string, value: Value, l2Ttl: real, now: real, ghost s: State, ghost ttl: real, ghost call: nat)
        returns (ghost t: State)
      requires data == s.l2 && now == s.now && call in s.calls && s.calls[call] == Writing(key, value, l2Ttl)
      modifies this
      ensures Next(ttl, s, L2Set(call), t) && data == t.l2
    {
      data := data[key := L2Entry(value, now + l2Ttl)];
      t := End(s, call).(l2 := data);
    }

    /** Redis's own expiry or eviction of one key. */
    method Drop(key: string, ghost s: State, ghost ttl: real) returns (ghost t: State)
      requires data == s.l2
      modifies this
      ensures Next(ttl, s, DropL2(key), t) && data == t.l2
    {
      data := data - {key};
      t := s.(l2 := data);
    }

    /** Deletes the keys and says how many were live. */
    method Delete(keys: set<string>, now: real, ghost s: State, ghost ttl: real, ghost call: nat)
        returns (n: nat, ghost t: State)
      requires data == s.l2 && now == s.now && call in s.calls && s.calls[call] == Deleting(keys)
      modifies this
      ensures Next(ttl, s, L2Delete(call), t) && data == t.l2
      ensures n == |set k | k in keys && Current(s, k).Some?|
    {
      var live := set k | k in keys && k in data && now < data[k].expires;
      assert live == set k | k in keys && Current(s, k).Some?;
      n := |live|;
      data := data - keys;
      t := End(s, call).(l2 := data);
    }
  }

  class Manager {
    const process: Process
    const l1Ttl: real
    var l1: map<string, L1Entry>
    var stats: Stats

    /** This process's part of the machine's state is what the object holds. */
    ghost predicate Agrees(s: State)
      reads this
    {
      forall key ::
        && (key in l1 <==> Slot(process, key) in s.l1)
        && (key in l1 ==> l1[key] == s.l1[Slot(process, key)])
    }

    constructor (process: Process, l1Ttl: real)
      ensures this.process == process && this.l1Ttl == l1Ttl && l1 == map[] && stats == Stats(0, 0, 0, 0, 0, 0)
    {
      this.process, this.l1Ttl := process, l1Ttl;
      l1, stats := map[], Stats(0, 0, 0, 0, 0, 0);
    }

    /** `get` up to its Redis read: an answer from L1, or a read to be sent. */
    method Lookup(key: string, now: real, ghost s: State) returns (hit: Option<Value>, ghost t: State)
      requires Agrees(s) && now == s.now
      modifies this`stats
      ensures Next(l1Ttl, s,
                   if hit.Some? then L1Hit(process, key, hit.value) else StartGet(s.nextCall, process, key), t)
      ensures Agrees(t)
      ensures stats == if hit.Some? then old(stats).(l1Hits := old(stats).l1Hits + 1)
                       else old(stats).(l1Misses := old(stats).l1Misses + 1)
    {
      if key in l1 && now < l1[key].at + l1Ttl {
        stats := stats.(l1Hits := stats.l1Hits + 1);
        hit, t := Some(l1[key].value), s;
      } else {
        stats := stats.(l1Misses := stats.l1Misses + 1);
        hit, t := None, Begin(s, Reading(process, key));
      }
    }

    /** `get` from Redis's reply on: fill L1 and return. */
    method Fill(key: string, reply: Option<Value>, now: real, ghost s: State, ghost call: nat)
        returns (r: Option<Value>, ghost t: State)
      requires Agrees(s) && now == s.now && call in s.calls && s.calls[call] == Answered(process, key, reply)
      modifies this
      ensures r == reply && Next(l1Ttl, s, FinishGet(call, process, key, r), t) && Agrees(t)
      ensures stats == if reply.Some? then old(stats).(l2Hits := old(stats).l2Hits + 1)
                       else old(stats).(l2Misses := old(stats).l2Misses + 1)
    {
      r := reply;
      if reply.None? {
        stats := stats.(l2Misses := stats.l2Misses + 1);
        t := End(s, call);
      } else {
        stats := stats.(l2Hits := stats.l2Hits + 1);
        l1 := l1[key := L1Entry(reply.value, now)];
        t := StoreL1(End(s, call), process, key, reply.value);
      }
    }

    /** `set` up to its Redis write. */
    method SetLocal(key: string, value: Value, l2Ttl: real, now: real, ghost s: State) returns (ghost t: State)
      requires Agrees(s) && now == s.now
      modifies this`l1
      ensures Next(l1Ttl, s, StartSet(s.nextCall, process, key, value, l2Ttl), t) && Agrees(t)
    {
      l1 := l1[key := L1Entry(value, now)];
      t := StoreL1(Begin(s, Writing(key, value, l2Ttl)), process, key, value);
    }

    /** `delete` up to its Redis deletion. */
    method DeleteLocal(key: string, ghost s: State) returns (ghost t: State)
      requires Agrees(s)
      modifies this`l1
      ensures Next(l1Ttl, s, StartDelete(s.nextCall, process, key), t) && Agrees(t)
    {
      l1 := l1 - {key};
      t := Begin(s, Deleting({key})).(l1 := s.l1 - {Slot(process, key)});
    }

    /** `set` from Redis's confirmation on. */
    method FinishSet() returns (ok: bool)
      modifies this`stats
      ensures ok && stats == old(stats).(l2Sets := old(stats).l2Sets + 1)
    {
      stats := stats.(l2Sets := stats.l2Sets + 1);
      ok := true;
    }

    /** `delete` from Redis's count of deleted keys on. */
    method FinishDelete(deleted: nat) returns (ok: bool)
      modifies this`stats
      ensures (ok <==> deleted > 0) && stats == old(stats).(l2Deletes := old(stats).l2Deletes + 1)
    {
      stats := stats.(l2Deletes := stats.l2Deletes + 1);
      ok := deleted > 0;
    }

    /** `delete_pattern` from Redis's count on; without matching keys Redis is not asked and the count is zero. */
    method FinishDeletePattern(deleted: nat) returns (n: nat)
      modifies this`stats
      ensures n == deleted && stats == old(stats).(l2Deletes := old(stats).l2Deletes + deleted)
    {
      stats := stats.(l2Deletes := stats.l2Deletes + deleted);
      n := deleted;
    }

    /** The cache library's eviction or clean-up of one key. */
    method Evict(key: string, ghost s: State) returns (ghost t: State)
      requires Agrees(s)
      modifies this`l1
      ensures Next(l1Ttl, s, DropL1(Slot(process, key)), t) && Agrees(t)
    {
      l1 := l1 - {key};
      t := s.(l1 := s.l1 - {Slot(process, key)});
    }

    /** `delete_pattern` up to its scan: the whole of L1 goes. */
    method ClearLocal(ghost s: State) returns (ghost t: State)
      requires Agrees(s)
      modifies this`l1
      ensures Next(l1Ttl, s, StartDeletePattern(s.nextCall, process), t) && Agrees(t)
    {
      l1 := map[];
      t := Begin(s, Scanning({})).(l1 := map slot | slot in s.l1 && slot.process != process :: s.l1[slot]);
    }
  }
}
