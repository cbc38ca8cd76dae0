/** Whole runs of the cache: exactness against the log, LRU inclusion between sizes, and accounting. */
module TtlCacheRuns {
  import opened Option
  import opened TtlCache

  /** One call, with the clock reading it takes. */
  datatype Op<V> = OpGet(key: string, now: real) | OpSet(key: string, value: V, now: real) | OpClear

  datatype Config = Config(maxsize: nat, ttl: real)

  function Step<V(!new)>(cfg: Config, c: State<V>, op: Op<V>): (State<V>, Option<V>)
    requires cfg.maxsize > 0
  {
    match op
    case OpGet(key, now) => Get(c, cfg.ttl, key, now)
    case OpSet(key, value, now) => (Set(c, cfg.maxsize, key, value, now), None)
    case OpClear => (Clear(c), None)
  }

  /** The state after a log of calls on a new cache. */
  function Run<V(!new)>(cfg: Config, ops: seq<Op<V>>): State<V>
    requires cfg.maxsize > 0
  {
    if ops == [] then State([], 0, 0, 0)
    else Step(cfg, Run(cfg, ops[..|ops| - 1]), ops[|ops| - 1]).0
  }

  /** What `get(key)` at `now` answers after the log. */
  function Answer<V(!new)>(cfg: Config, ops: seq<Op<V>>, key: string, now: real): Option<V>
    requires cfg.maxsize > 0
  {
    Get(Run(cfg, ops), cfg.ttl, key, now).1
  }

  lemma {:induction false} RunValid<V(!new)>(cfg: Config, ops: seq<Op<V>>)
    requires cfg.maxsize > 0
    ensures Distinct(Run(cfg, ops).entries) && |Run(cfg, ops).entries| <= cfg.maxsize
  {
    if ops == [] {
    } else {
      var before := ops[..|ops| - 1];
      RunValid(cfg, before);
      StepValid(cfg, Run(cfg, before), ops[|ops| - 1]);
    }
  }

  /** Every step keeps keys distinct, the size within bounds, and the books balanced. */
  lemma StepValid<V(!new)>(cfg: Config, c: State<V>, op: Op<V>)
    requires cfg.maxsize > 0 && Distinct(c.entries) && |c.entries| <= cfg.maxsize
    ensures var c' := Step(cfg, c, op).0;
            && Distinct(c'.entries) && |c'.entries| <= cfg.maxsize
            && c'.hits + c'.misses == c.hits + c.misses + (if op.OpGet? then 1 else 0)
            && c'.evictions + |c'.entries| + (if op.OpClear? then |c.entries| else 0)
               == c.evictions + |c.entries| + (if op.OpSet? && op.key !in Keys(c.entries) then 1 else 0)
  {
    if !op.OpClear? {
      WithoutDistinct(c.entries, op.key);
      var rest := Without(c.entries, op.key);
      WithoutGone(c.entries, op.key);
      match op
      case OpGet(key, now) =>
        if Find(c.entries, key).Some? {
          AppendDistinct(rest, Find(c.entries, key).value);
        }
      case OpSet(key, value, now) =>
        AppendDistinct(rest, Entry(key, value, now));
        if key !in Keys(c.entries) {
          WithoutAbsent(c.entries, key);
          if |c.entries| >= cfg.maxsize {
            var tail := c.entries[1..];
            assert forall i :: 0 <= i < |tail| ==> tail[i] == c.entries[i + 1];
            AppendDistinct(tail, Entry(key, value, now));
          }
        }
    }
  }

  // ---------- accounting ----------

  function Gets<V>(ops: seq<Op<V>>): nat {
    if ops == [] then 0 else Gets(ops[..|ops| - 1]) + if ops[|ops| - 1].OpGet? then 1 else 0
  }

  /** Gets that were answered with a value. */
  function Hits<V(!new)>(cfg: Config, ops: seq<Op<V>>): nat
    requires cfg.maxsize > 0
  {
    if ops == [] then 0
    else
      var before, op := ops[..|ops| - 1], ops[|ops| - 1];
      Hits(cfg, before) + if op.OpGet? && Answer(cfg, before, op.key, op.now).Some? then 1 else 0
  }

  lemma {:induction false} HitsCounted<V(!new)>(cfg: Config, ops: seq<Op<V>>)
    requires cfg.maxsize > 0
    ensures Run(cfg, ops).hits == Hits(cfg, ops)
  {
    if ops == [] {
    } else {
      HitsCounted(cfg, ops[..|ops| - 1]);
      hide Without;
    }
  }

  /** `set` calls whose key was not cached. */
  function NewKeys<V(!new)>(cfg: Config, ops: seq<Op<V>>): nat
    requires cfg.maxsize > 0
  {
    if ops == [] then 0
    else
      var before, op := ops[..|ops| - 1], ops[|ops| - 1];
      NewKeys(cfg, before) + if op.OpSet? && op.key !in Keys(Run(cfg, before).entries) then 1 else 0
  }

  /** Entries dropped by `clear` calls. */
  function Cleared<V(!new)>(cfg: Config, ops: seq<Op<V>>): nat
    requires cfg.maxsize > 0
  {
    if ops == [] then 0
    else
      var before, op := ops[..|ops| - 1], ops[|ops| - 1];
      Cleared(cfg, before) + if op.OpClear? then |Run(cfg, before).entries| else 0
  }

  /** Every get is a hit or a miss, and every new key is cached, evicted or cleared. */
  lemma {:induction false} Accounting<V(!new)>(cfg: Config, ops: seq<Op<V>>)
    requires cfg.maxsize > 0
    ensures var c := Run(cfg, ops);
            && c.hits == Hits(cfg, ops) && c.misses == Gets(ops) - Hits(cfg, ops)
            && c.evictions + |c.entries| + Cleared(cfg, ops) == NewKeys(cfg, ops)
            && |c.entries| <= cfg.maxsize
  {
    HitsCounted(cfg, ops);
    if ops == [] {
    } else {
      var before := ops[..|ops| - 1];
      Accounting(cfg, before);
      RunValid(cfg, before);
      StepValid(cfg, Run(cfg, before), ops[|ops| - 1]);
    }
  }

  // ---------- inclusion ----------

  /** `a` is `b` with some entries left out. */
  ghost predicate Sub<V(!new)>(a: seq<Entry<V>>, b: seq<Entry<V>>) {
    if a == [] then true
    else if b == [] then false
    else (a[0] == b[0] && Sub(a[1..], b[1..])) || Sub(a, b[1..])
  }

  lemma {:induction false} SubWithout<V(!new)>(a: seq<Entry<V>>, b: seq<Entry<V>>, key: string)
    requires Sub(a, b)
    ensures Sub(Without(a, key), Without(b, key))
  {
    hide Without;
    assert Without<V>([], key) == [] by {
      WithoutEmpty<V>(key);
    }
    if a == [] {
    } else {
      var b' := Without(b[1..], key);
      if a[0] == b[0] && Sub(a[1..], b[1..]) {
        SubWithout(a[1..], b[1..], key);
        SubCons(Without(a[1..], key), b', a[0]);
      } else {
        assert Sub(a, b[1..]);
        SubWithout(a, b[1..], key);
        SubPad(Without(a, key), b', b[0]);
      }
      WithoutHead(a, key);
      WithoutHead(b, key);
    }
  }

  lemma WithoutEmpty<V(!new)>(key: string)
    ensures Without<V>([], key) == []
  {
  }

  lemma WithoutHead<V(!new)>(s: seq<Entry<V>>, key: string)
    requires s != []
    ensures Without(s, key) == if s[0].key == key then Without(s[1..], key) else [s[0]] + Without(s[1..], key)
  {
  }

  lemma SubCons<V(!new)>(a: seq<Entry<V>>, b: seq<Entry<V>>, e: Entry<V>)
    requires Sub(a, b)
    ensures Sub([e] + a, [e] + b)
  {
    assert ([e] + a)[1..] == a && ([e] + b)[1..] == b;
  }

  lemma SubPad<V(!new)>(a: seq<Entry<V>>, b: seq<Entry<V>>, e: Entry<V>)
    requires Sub(a, b)
    ensures Sub(a, [e] + b)
  {
    assert ([e] + b)[1..] == b;
  }

  lemma {:induction false} SubAppend<V(!new)>(a: seq<Entry<V>>, b: seq<Entry<V>>, e: Entry<V>)
    requires Sub(a, b)
    ensures Sub(a + [e], b + [e])
  {
    if b == [] {
      assert a + [e] == [e] == b + [e];
      assert Sub([e][1..], [e][1..]);
    } else {
      assert (b + [e])[1..] == b[1..] + [e];
      if a != [] && a[0] == b[0] && Sub(a[1..], b[1..]) {
        SubAppend(a[1..], b[1..], e);
        assert (a + [e])[1..] == a[1..] + [e];
      } else {
        SubAppend(a, b[1..], e);
      }
    }
  }

  lemma {:induction false} SubTail<V(!new)>(a: seq<Entry<V>>, b: seq<Entry<V>>)
    requires Sub(a, b) && a != []
    ensures b != [] && Sub(a[1..], b[1..]) && Sub(a[1..], b)
  {
    if !(a[0] == b[0] && Sub(a[1..], b[1..])) {
      SubTail(a, b[1..]);
      SubSkip(a[1..], b[1..]);
    } else {
      SubSkip(a[1..], b);
    }
  }

  lemma SubSkip<V(!new)>(a: seq<Entry<V>>, b: seq<Entry<V>>)
    requires b != [] && Sub(a, b[1..])
    ensures Sub(a, b)
  {
  }

  lemma {:induction false} SubMember<V(!new)>(a: seq<Entry<V>>, b: seq<Entry<V>>, e: Entry<V>)
    requires Sub(a, b) && e in a
    ensures e in b
  {
    assert a == [a[0]] + a[1..] && b == [b[0]] + b[1..];
    if a[0] == b[0] && Sub(a[1..], b[1..]) {
      if e != a[0] {
        SubMember(a[1..], b[1..], e);
      }
    } else {
      SubMember(a, b[1..], e);
    }
  }

  lemma SubFind<V(!new)>(a: seq<Entry<V>>, b: seq<Entry<V>>, key: string)
    requires Sub(a, b) && Distinct(b) && Find(a, key).Some?
    ensures Find(b, key) == Find(a, key)
  {
    var e := Find(a, key).value;
    SubMember(a, b, e);
    FindUnique(b, e);
  }

  /** The smaller cache's recency order is a subsequence of the larger one's, and it has no more room. */
  ghost predicate Included<V(!new)>(small: Config, large: Config, a: State<V>, b: State<V>) {
    && Distinct(a.entries) && Distinct(b.entries)
    && |a.entries| <= small.maxsize && |b.entries| <= large.maxsize
    && Sub(a.entries, b.entries)
    && small.maxsize - |a.entries| <= large.maxsize - |b.entries|
  }

  lemma StepGetIncluded<V(!new)>(small: Config, large: Config, a: State<V>, b: State<V>, key: string, now: real)
    requires small.ttl == large.ttl && Included(small, large, a, b)
    ensures Sub(Get(a, small.ttl, key, now).0.entries, Get(b, large.ttl, key, now).0.entries)
    ensures var a', b' := Get(a, small.ttl, key, now).0, Get(b, large.ttl, key, now).0;
            small.maxsize - |a'.entries| <= large.maxsize - |b'.entries|
    ensures var r := Get(a, small.ttl, key, now).1; r.Some? ==> Get(b, large.ttl, key, now).1 == r
  {
    SubWithout(a.entries, b.entries, key);
    WithoutDistinct(a.entries, key);
    WithoutDistinct(b.entries, key);
    match Find(a.entries, key)
    case Some(e) =>
      SubFind(a.entries, b.entries, key);
      SubAppend(Without(a.entries, key), Without(b.entries, key), e);
    case None =>
      WithoutAbsent(a.entries, key);
      match Find(b.entries, key) {
        case None =>
        case Some(e) => SubExtend(a.entries, Without(b.entries, key), e);
      }
  }

  lemma {:induction false} SubExtend<V(!new)>(a: seq<Entry<V>>, b: seq<Entry<V>>, e: Entry<V>)
    requires Sub(a, b)
    ensures Sub(a, b + [e])
  {
    if a == [] {
    } else {
      assert (b + [e])[1..] == b[1..] + [e];
      if a[0] == b[0] && Sub(a[1..], b[1..]) {
        SubExtend(a[1..], b[1..], e);
      } else {
        SubExtend(a, b[1..], e);
      }
    }
  }

  lemma StepSetIncluded<V(!new)>(small: Config, large: Config, a: State<V>, b: State<V>, key: string, value: V,
                                 now: real)
    requires small.maxsize > 0 && large.maxsize > 0 && Included(small, large, a, b)
    ensures var a', b' := Set(a, small.maxsize, key, value, now), Set(b, large.maxsize, key, value, now);
            && Sub(a'.entries, b'.entries)
            && small.maxsize - |a'.entries| <= large.maxsize - |b'.entries|
  {
    var e := Entry(key, value, now);
    SubWithout(a.entries, b.entries, key);
    WithoutDistinct(a.entries, key);
    WithoutDistinct(b.entries, key);
    if key in Keys(a.entries) {
      SubFind(a.entries, b.entries, key);
      SubAppend(Without(a.entries, key), Without(b.entries, key), e);
    } else {
      WithoutAbsent(a.entries, key);
      if |a.entries| >= small.maxsize {
        SubTail(a.entries, b.entries);
        SubTail(a.entries, Without(b.entries, key));
        SubAppend(a.entries[1..], b.entries[1..], e);
        SubAppend(a.entries[1..], Without(b.entries, key), e);
      } else {
        SubAppend(a.entries, Without(b.entries, key), e);
      }
    }
  }

  /** LRU inclusion: the same calls at the same clock readings, on a smaller and a larger cache. */
  lemma {:induction false} Inclusion<V(!new)>(small: Config, large: Config, ops: seq<Op<V>>)
    requires 0 < small.maxsize <= large.maxsize && small.ttl == large.ttl
    ensures Included(small, large, Run(small, ops), Run(large, ops))
  {
    if ops == [] {
    } else {
      var before, op := ops[..|ops| - 1], ops[|ops| - 1];
      Inclusion(small, large, before);
      RunValid(small, ops);
      RunValid(large, ops);
      var a, b := Run(small, before), Run(large, before);
      match op
      case OpGet(key, now) => StepGetIncluded(small, large, a, b, key, now);
      case OpSet(key, value, now) => StepSetIncluded(small, large, a, b, key, value, now);
      case OpClear =>
    }
  }

  /** Enlarging the cache never turns a hit into a miss, nor changes what a hit returns. */
  lemma LargerNeverMisses<V(!new)>(small: Config, large: Config, ops: seq<Op<V>>, key: string, now: real)
    requires 0 < small.maxsize <= large.maxsize && small.ttl == large.ttl
    ensures Answer(small, ops, key, now).Some? ==> Answer(large, ops, key, now) == Answer(small, ops, key, now)
  {
    Inclusion(small, large, ops);
    StepGetIncluded(small, large, Run(small, ops), Run(large, ops), key, now);
  }
}
