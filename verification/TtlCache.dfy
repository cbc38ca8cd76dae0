/** TTLCache of the analyzer result cache: expiry by age, eviction by recency of use. */
module TtlCache {
  import opened Option

  datatype Entry<V> = Entry(key: string, value: V, stamp: real)

  /** The cached entries from least to most recently used, and the three counters. */
  datatype State<V> = State(entries: seq<Entry<V>>, hits: nat, misses: nat, evictions: nat)

  function Keys<V(!new)>(s: seq<Entry<V>>): set<string> {
    set i | 0 <= i < |s| :: s[i].key
  }

  ghost predicate Distinct<V(!new)>(s: seq<Entry<V>>) {
    forall i, j | 0 <= i < j < |s| :: s[i].key != s[j].key
  }

  function Find<V(!new)>(s: seq<Entry<V>>, key: string): (r: Option<Entry<V>>)
    ensures r.Some? ==> r.value in s && r.value.key == key
    ensures r.None? <==> key !in Keys(s)
  {
    if s == [] then None
    else if s[0].key == key then Some(s[0])
    else
      assert s == [s[0]] + s[1..];
      Find(s[1..], key)
  }

  function Without<V(!new)>(s: seq<Entry<V>>, key: string): (r: seq<Entry<V>>)
    ensures forall e :: e in r <==> e in s && e.key != key
  {
    if s == [] then []
    else
      assert s == [s[0]] + s[1..];
      (if s[0].key == key then [] else [s[0]]) + Without(s[1..], key)
  }

  /** `get`: a miss, an expiry, or a hit that makes the key the most recently used. */
  function Get<V(!new)>(c: State<V>, ttl: real, key: string, now: real): (State<V>, Option<V>) {
    match Find(c.entries, key)
    case None => (c.(misses := c.misses + 1), None)
    case Some(e) =>
      if now - e.stamp > ttl then
        (State(Without(c.entries, key), c.hits, c.misses + 1, c.evictions + 1), None)
      else
        (State(Without(c.entries, key) + [e], c.hits + 1, c.misses, c.evictions), Some(e.value))
  }

  /** `set`: a new key at capacity first evicts the least recently used entry. */
  function Set<V(!new)>(c: State<V>, maxsize: nat, key: string, value: V, now: real): State<V>
    requires maxsize > 0
  {
    if |c.entries| >= maxsize && key !in Keys(c.entries) then
      State(c.entries[1..] + [Entry(key, value, now)], c.hits, c.misses, c.evictions + 1)
    else
      c.(entries := Without(c.entries, key) + [Entry(key, value, now)])
  }

  function Clear<V(!new)>(c: State<V>): State<V> {
    c.(entries := [])
  }

  // ---------- sequences of entries ----------

  lemma WithoutAbsent<V(!new)>(s: seq<Entry<V>>, key: string)
    requires key !in Keys(s)
    ensures Without(s, key) == s
  {
    if s != [] {
      assert s == [s[0]] + s[1..];
      assert s[0] in s;
    }
  }

  lemma HeadDiffers<V(!new)>(s: seq<Entry<V>>)
    requires s != [] && Distinct(s)
    ensures Distinct(s[1..]) && forall e | e in s[1..] :: e.key != s[0].key
  {
    assert forall i :: 0 <= i < |s[1..]| ==> s[1..][i] == s[i + 1];
  }

  lemma DistinctCons<V(!new)>(e: Entry<V>, s: seq<Entry<V>>)
    requires Distinct(s) && forall x | x in s :: x.key != e.key
    ensures Distinct([e] + s)
  {
    assert forall i :: 0 <= i < |s| ==> s[i] in s;
  }

  lemma {:induction false} WithoutDistinct<V(!new)>(s: seq<Entry<V>>, key: string)
    requires Distinct(s)
    ensures Distinct(Without(s, key)) && |Without(s, key)| == |s| - if key in Keys(s) then 1 else 0
  {
    if s == [] {
    } else {
      HeadDiffers(s);
      WithoutDistinct(s[1..], key);
      assert s == [s[0]] + s[1..];
      if s[0].key == key {
        WithoutAbsent(s[1..], key);
      } else {
        DistinctCons(s[0], Without(s[1..], key));
      }
    }
  }

  lemma WithoutGone<V(!new)>(s: seq<Entry<V>>, key: string)
    ensures key !in Keys(Without(s, key))
  {
    var rest := Without(s, key);
    forall i | 0 <= i < |rest|
      ensures rest[i].key != key
    {
      assert rest[i] in rest;
    }
  }

  lemma AppendDistinct<V(!new)>(s: seq<Entry<V>>, e: Entry<V>)
    requires Distinct(s) && e.key !in Keys(s)
    ensures Distinct(s + [e])
  {
    forall i | 0 <= i < |s|
      ensures s[i].key != e.key
    {
      assert s[i] in s;
    }
  }

  lemma {:induction false} FindUnique<V(!new)>(s: seq<Entry<V>>, e: Entry<V>)
    requires Distinct(s) && e in s
    ensures Find(s, e.key) == Some(e)
  {
    if s[0] != e {
      var i :| 0 <= i < |s| && s[i] == e;
      assert forall j :: 0 <= j < |s[1..]| ==> s[1..][j] == s[j + 1];
      assert s[1..][i - 1] == e;
      FindUnique(s[1..], e);
    }
  }
}
