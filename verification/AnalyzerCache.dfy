/** The TTLCache object: an insertion-ordered dictionary, a dictionary of timestamps and three counters. */
module AnalyzerCache {
  import opened Option
  import opened TtlCache

  /** The key order of the dictionary without one key. */
  function Removed(order: seq<string>, key: string): (r: seq<string>)
    ensures forall k :: k in r <==> k in order && k != key
  {
    if order == [] then []
    else
      assert order == [order[0]] + order[1..];
      (if order[0] == key then [] else [order[0]]) + Removed(order[1..], key)
  }

  ghost predicate Holds<V>(order: seq<string>, values: map<string, V>, stamps: map<string, real>) {
    forall k | k in order :: k in values && k in stamps
  }

  ghost function Contents<V(!new)>(order: seq<string>, values: map<string, V>, stamps: map<string, real>)
      : (s: seq<Entry<V>>)
    requires Holds(order, values, stamps)
    ensures |s| == |order|
    ensures forall i | 0 <= i < |s| :: s[i] == Entry(order[i], values[order[i]], stamps[order[i]])
  {
    seq(|order|, i requires 0 <= i < |order| => Entry(order[i], values[order[i]], stamps[order[i]]))
  }

  lemma ContentsKeys<V(!new)>(order: seq<string>, values: map<string, V>, stamps: map<string, real>)
    requires Holds(order, values, stamps)
    ensures forall k :: k in Keys(Contents(order, values, stamps)) <==> k in order
  {
    var s := Contents(order, values, stamps);
    forall k | k in order
      ensures k in Keys(s)
    {
      var i :| 0 <= i < |order| && order[i] == k;
      assert s[i].key == k;
    }
  }

  lemma ContentsHead<V(!new)>(order: seq<string>, values: map<string, V>, stamps: map<string, real>)
    requires Holds(order, values, stamps) && order != []
    ensures Contents(order, values, stamps)
            == [Entry(order[0], values[order[0]], stamps[order[0]])] + Contents(order[1..], values, stamps)
  {
  }

  /** Dropping a key from the order drops its entry, whatever the dictionaries say about other keys. */
  lemma {:induction false} ContentsRemoved<V(!new)>(
    order: seq<string>, values: map<string, V>, stamps: map<string, real>,
    key: string, values': map<string, V>, stamps': map<string, real>)
    requires Holds(order, values, stamps)
    requires forall k | k in order && k != key ::
               k in values' && k in stamps' && values'[k] == values[k] && stamps'[k] == stamps[k]
    ensures Holds(Removed(order, key), values', stamps')
    ensures Contents(Removed(order, key), values', stamps') == Without(Contents(order, values, stamps), key)
  {
    if order == [] {
    } else {
      ContentsHead(order, values, stamps);
      assert Contents(order, values, stamps)[1..] == Contents(order[1..], values, stamps);
      ContentsRemoved(order[1..], values, stamps, key, values', stamps');
      if order[0] != key {
        assert Removed(order, key)[1..] == Removed(order[1..], key);
        ContentsHead(Removed(order, key), values', stamps');
      }
    }
  }

  lemma {:induction false} ContentsFind<V(!new)>(order: seq<string>, values: map<string, V>, stamps: map<string, real>,
                                                 key: string)
    requires Holds(order, values, stamps) && key in order
    ensures Find(Contents(order, values, stamps), key) == Some(Entry(key, values[key], stamps[key]))
  {
    ContentsHead(order, values, stamps);
    assert Contents(order, values, stamps)[1..] == Contents(order[1..], values, stamps);
    if order[0] != key {
      ContentsFind(order[1..], values, stamps, key);
    }
  }

  /** The two dictionaries hold exactly the keys of the order, each once. */
  ghost predicate WellFormed<V>(order: seq<string>, values: map<string, V>, stamps: map<string, real>) {
    && (forall i, j | 0 <= i < j < |order| :: order[i] != order[j])
    && (forall k :: k in order <==> k in values)
    && (forall k :: k in order <==> k in stamps)
  }

  lemma OrderDistinct<V(!new)>(order: seq<string>, values: map<string, V>, stamps: map<string, real>)
    requires Holds(order, values, stamps)
    ensures Distinct(Contents(order, values, stamps)) <==> forall i, j | 0 <= i < j < |order| :: order[i] != order[j]
  {
    var s := Contents(order, values, stamps);
    if Distinct(s) {
      forall i, j | 0 <= i < j < |order|
        ensures order[i] != order[j]
      {
        assert s[i].key != s[j].key;
      }
    }
  }

  lemma DropKey<V(!new)>(order: seq<string>, values: map<string, V>, stamps: map<string, real>, key: string)
    requires WellFormed(order, values, stamps) && key in order
    ensures WellFormed(Removed(order, key), values - {key}, stamps - {key})
    ensures Contents(Removed(order, key), values - {key}, stamps - {key})
            == Without(Contents(order, values, stamps), key)
    ensures |Removed(order, key)| == |order| - 1
  {
    var s := Contents(order, values, stamps);
    ContentsRemoved(order, values, stamps, key, values - {key}, stamps - {key});
    ContentsKeys(order, values, stamps);
    OrderDistinct(order, values, stamps);
    WithoutDistinct(s, key);
    OrderDistinct(Removed(order, key), values - {key}, stamps - {key});
  }

  lemma LastInOrder(order: seq<string>, key: string)
    requires forall i, j | 0 <= i < j < |order| :: order[i] != order[j]
    ensures var r := Removed(order, key) + [key];
            && (forall i, j | 0 <= i < j < |r| :: r[i] != r[j])
            && (forall k :: k in r <==> k in order || k == key)
            && |r| == |order| + if key in order then 0 else 1
  {
    RemovedDistinct(order, key);
    var rest := Removed(order, key);
    forall i | 0 <= i < |rest|
      ensures rest[i] != key
    {
      assert rest[i] in rest;
    }
  }

  lemma {:induction false} RemovedDistinct(order: seq<string>, key: string)
    requires forall i, j | 0 <= i < j < |order| :: order[i] != order[j]
    ensures var r := Removed(order, key);
            && (forall i, j | 0 <= i < j < |r| :: r[i] != r[j])
            && |r| == |order| - if key in order then 1 else 0
  {
    if order == [] {
    } else {
      RemovedDistinct(order[1..], key);
      var rest := Removed(order[1..], key);
      forall j | 0 <= j < |rest|
        ensures rest[j] != order[0]
      {
        assert rest[j] in rest;
      }
      if order[0] == key {
        assert key !in order[1..];
      }
    }
  }

  /** Storing a key and moving it to the end. */
  lemma PutLast<V(!new)>(order: seq<string>, values: map<string, V>, stamps: map<string, real>,
                         key: string, value: V, stamp: real)
    requires WellFormed(order, values, stamps)
    ensures var order', values', stamps' := Removed(order, key) + [key], values[key := value], stamps[key := stamp];
            && WellFormed(order', values', stamps')
            && Contents(order', values', stamps')
               == Without(Contents(order, values, stamps), key) + [Entry(key, value, stamp)]
            && |order'| == |order| + if key in order then 0 else 1
  {
    hide Without, Contents, Removed;
    LastInOrder(order, key);
    var values', stamps' := values[key := value], stamps[key := stamp];
    ContentsRemoved(order, values, stamps, key, values', stamps');
    ContentsAppend(Removed(order, key), values', stamps', key);
  }

  lemma ContentsAppend<V(!new)>(order: seq<string>, values: map<string, V>, stamps: map<string, real>, key: string)
    requires Holds(order, values, stamps) && key in values && key in stamps
    ensures Holds(order + [key], values, stamps)
    ensures Contents(order + [key], values, stamps)
            == Contents(order, values, stamps) + [Entry(key, values[key], stamps[key])]
  {
  }

  lemma DropOldest<V(!new)>(order: seq<string>, values: map<string, V>, stamps: map<string, real>)
    requires WellFormed(order, values, stamps) && order != []
    ensures Without(Contents(order, values, stamps), order[0]) == Contents(order, values, stamps)[1..]
  {
    var s := Contents(order, values, stamps);
    forall i | 0 <= i < |s[1..]|
      ensures s[1..][i].key != order[0]
    {
      assert s[1..][i] == s[i + 1];
    }
    WithoutAbsent(s[1..], order[0]);
  }

  lemma Present<V(!new)>(order: seq<string>, values: map<string, V>, stamps: map<string, real>, key: string)
    requires WellFormed(order, values, stamps)
    ensures Holds(order, values, stamps)
    ensures key in order <==> key in values
    ensures key in order <==> key in stamps
    ensures key in order <==> key in Keys(Contents(order, values, stamps))
  {
    ContentsKeys(order, values, stamps);
  }

  /** The three outcomes of `get`, on the fields. */
  lemma GetOutcome<V(!new)>(order: seq<string>, values: map<string, V>, stamps: map<string, real>,
                            c: State<V>, ttl: real, key: string, now: real)
    requires WellFormed(order, values, stamps) && c.entries == Contents(order, values, stamps)
    ensures Holds(order, values, stamps) && (key in order <==> key in values)
    ensures TtlCache.Get(c, ttl, key, now)
            == if key !in order then (c.(misses := c.misses + 1), None)
               else
                 if now - stamps[key] > ttl then
                   (State(Without(c.entries, key), c.hits, c.misses + 1, c.evictions + 1), None)
                 else
                   (c.(entries := Without(c.entries, key) + [Entry(key, values[key], stamps[key])], hits := c.hits + 1),
                    Some(values[key]))
  {
    hide Contents, Without, Keys, Find, WellFormed;
    Present(order, values, stamps, key);
    if key in values {
      ContentsFind(order, values, stamps, key);
    }
  }

  class TTLCache<V(!new)> {
    const maxsize: nat
    const ttl: real
    var order: seq<string>          // key order of the dictionary `_cache`, oldest first
    var values: map<string, V>      // `_cache`
    var stamps: map<string, real>   // `_timestamps`
    var hits: nat
    var misses: nat
    var evictions: nat

    ghost predicate Valid()
      reads this
    {
      maxsize > 0 && |order| <= maxsize && WellFormed(order, values, stamps)
    }

    ghost function Abstract(): (s: State<V>)
      requires Valid()
      reads this
    {
      State(Contents(order, values, stamps), hits, misses, evictions)
    }

    constructor (maxsize: nat, ttl: real)
      requires maxsize > 0
      ensures Valid() && this.maxsize == maxsize && this.ttl == ttl
      ensures Abstract() == State([], 0, 0, 0)
    {
      this.maxsize, this.ttl := maxsize, ttl;
      order, values, stamps := [], map[], map[];
      hits, misses, evictions := 0, 0, 0;
    }

    /** `del` from both dictionaries. */
    method Delete(key: string)
      requires Valid() && key in values
      modifies this`order, this`values, this`stamps
      ensures Valid() && |order| < maxsize && values == old(values) - {key}
      ensures Abstract() == old(Abstract()).(entries := Without(old(Abstract()).entries, key))
    {
      hide Contents, Removed, Without, Keys;
      DropKey(order, values, stamps, key);
      order, values, stamps := Removed(order, key), values - {key}, stamps - {key};
    }

    /** Assignment to both dictionaries, then `move_to_end`. */
    method StoreLast(key: string, value: V, stamp: real)
      requires Valid() && (key in values || |order| < maxsize)
      modifies this`order, this`values, this`stamps
      ensures Valid()
      ensures Abstract()
              == old(Abstract()).(entries := Without(old(Abstract()).entries, key) + [Entry(key, value, stamp)])
    {
      PutLast(order, values, stamps, key, value, stamp);
      order, values, stamps := Removed(order, key) + [key], values[key := value], stamps[key := stamp];
    }

    method Get(key: string, now: real) returns (r: Option<V>)
      requires Valid()
      modifies this
      ensures Valid()
      ensures (Abstract(), r) == TtlCache.Get(old(Abstract()), ttl, key, now)
    {
      hide WellFormed, Holds, Contents, Without, Keys, TtlCache.Get;
      GetOutcome(order, values, stamps, Abstract(), ttl, key, now);
      Present(order, values, stamps, key);
      if key !in values {
        misses := misses + 1;
        r := None;
      } else if now - stamps[key] > ttl {
        Delete(key);
        misses := misses + 1;
        evictions := evictions + 1;
        r := None;
      } else {
        hits := hits + 1;
        r := Some(values[key]);
        StoreLast(key, values[key], stamps[key]);
      }
    }

    /** The oldest key goes, from both dictionaries. */
    method EvictOldest()
      requires Valid() && order != []
      modifies this`order, this`values, this`stamps, this`evictions
      ensures Valid() && |order| < maxsize
      ensures forall k | k in values :: k in old(values)
      ensures Abstract() == State(old(Abstract()).entries[1..], hits, misses, old(evictions) + 1)
    {
      DropOldest(order, values, stamps);
      hide Without, Contents, Removed;
      Delete(order[0]);
      evictions := evictions + 1;
    }

    method Set(key: string, value: V, now: real)
      requires Valid()
      modifies this
      ensures Valid()
      ensures Abstract() == TtlCache.Set(old(Abstract()), maxsize, key, value, now)
    {
      hide Without, Keys, Contents, WellFormed, Holds;
      Present(order, values, stamps, key);
      if |order| >= maxsize && key !in values {
        EvictOldest();
        Present(order, values, stamps, key);
        WithoutAbsent(Abstract().entries, key);
      }
      StoreLast(key, value, now);
    }

    method Clear()
      requires Valid()
      modifies this
      ensures Valid()
      ensures Abstract() == TtlCache.Clear(old(Abstract()))
    {
      order, values, stamps := [], map[], map[];
    }
  }
}
