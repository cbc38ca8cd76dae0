/** What a `get` answers, read off the log of earlier calls: first given which of them hit, then from the log alone. */
module TtlCacheLog {
  import opened Option
  import opened TtlCache
  import opened TtlCacheRuns
  import opened Sets

  /** The latest `set` of the key since the last `clear`. */
  function LastSet<V>(ops: seq<Op<V>>, key: string): Option<(V, real)> {
    if ops == [] then None
    else
      match ops[|ops| - 1]
      case OpClear => None
      case OpSet(k, value, now) => if k == key then Some((value, now)) else LastSet(ops[..|ops| - 1], key)
      case OpGet(_, _) => LastSet(ops[..|ops| - 1], key)
  }

  /** The key a call uses: any `set`, and a `get` that hits. */
  function Used<V(!new)>(cfg: Config, before: seq<Op<V>>, op: Op<V>): Option<string>
    requires cfg.maxsize > 0
  {
    match op
    case OpSet(key, _, _) => Some(key)
    case OpGet(key, now) => if Answer(cfg, before, key, now).Some? then Some(key) else None
    case OpClear => None
  }

  /** The other keys used since `key` was last used. */
  function UsedSince<V(!new)>(cfg: Config, ops: seq<Op<V>>, key: string): set<string>
    requires cfg.maxsize > 0
  {
    if ops == [] || ops[|ops| - 1].OpClear? then {}
    else
      var before, op := ops[..|ops| - 1], ops[|ops| - 1];
      match Used(cfg, before, op)
      case None => UsedSince(cfg, before, key)
      case Some(k) => if k == key then {} else UsedSince(cfg, before, key) + {k}
  }

  /** Those of them that no `get` has since found absent or expired. */
  function AliveSince<V(!new)>(cfg: Config, ops: seq<Op<V>>, key: string): set<string>
    requires cfg.maxsize > 0
  {
    if ops == [] || ops[|ops| - 1].OpClear? then {}
    else
      var before, op := ops[..|ops| - 1], ops[|ops| - 1];
      match Used(cfg, before, op)
      case None => AliveSince(cfg, before, key) - {op.key}
      case Some(k) => if k == key then {} else AliveSince(cfg, before, key) + {k}
  }

  /** At some moment since the key was last used, `maxsize` other keys were used after it and alive. */
  ghost predicate Displaced<V(!new)>(cfg: Config, ops: seq<Op<V>>, key: string)
    requires cfg.maxsize > 0
  {
    if ops == [] || ops[|ops| - 1].OpClear? then false
    else
      var before, op := ops[..|ops| - 1], ops[|ops| - 1];
      Used(cfg, before, op) != Some(key)
      && (Displaced(cfg, before, key) || |AliveSince(cfg, ops, key)| >= cfg.maxsize)
  }

  ghost predicate Reads<V>(op: Op<V>, now: real) {
    !op.OpClear? ==> op.now <= now
  }

  /** The clock never runs backwards over the log, and has not passed `now`. */
  ghost predicate Clock<V>(ops: seq<Op<V>>, now: real) {
    ops != [] ==>
      var before, op := ops[..|ops| - 1], ops[|ops| - 1];
      Reads(op, now) && Clock(before, if op.OpClear? then now else op.now)
  }

  /** The keys used more recently than `key`. */
  function KeysAfter<V(!new)>(s: seq<Entry<V>>, key: string): set<string> {
    if s == [] then {} else if s[0].key == key then Keys(s[1..]) else KeysAfter(s[1..], key)
  }

  // ---------- recency order and set operations ----------

  lemma KeysOfTail<V(!new)>(s: seq<Entry<V>>)
    requires s != []
    ensures Keys(s) == Keys(s[1..]) + {s[0].key}
  {
    assert s == [s[0]] + s[1..];
    forall k | k in Keys(s)
      ensures k in Keys(s[1..]) + {s[0].key}
    {
      var i :| 0 <= i < |s| && s[i].key == k;
      if i > 0 {
        assert s[1..][i - 1].key == k;
      }
    }
    forall k | k in Keys(s[1..])
      ensures k in Keys(s)
    {
      var i :| 0 <= i < |s[1..]| && s[1..][i].key == k;
      assert s[i + 1].key == k;
    }
  }

  lemma KeysOfAppend<V(!new)>(s: seq<Entry<V>>, e: Entry<V>)
    ensures Keys(s + [e]) == Keys(s) + {e.key}
  {
    forall k | k in Keys(s)
      ensures k in Keys(s + [e])
    {
      var i :| 0 <= i < |s| && s[i].key == k;
      assert (s + [e])[i].key == k;
    }
    assert (s + [e])[|s|] == e;
  }

  lemma {:induction false} KeysOfWithout<V(!new)>(s: seq<Entry<V>>, key: string)
    ensures Keys(Without(s, key)) == Keys(s) - {key}
  {
    if s == [] {
    } else {
      KeysOfWithout(s[1..], key);
      KeysOfTail(s);
      if s[0].key != key {
        KeysOfTail([s[0]] + Without(s[1..], key));
        assert ([s[0]] + Without(s[1..], key))[1..] == Without(s[1..], key);
      }
    }
  }

  lemma {:induction false} KeysAfterAppend<V(!new)>(s: seq<Entry<V>>, e: Entry<V>, key: string)
    requires key in Keys(s)
    ensures KeysAfter(s + [e], key) == KeysAfter(s, key) + {e.key}
  {
    KeysOfTail(s);
    assert (s + [e])[1..] == s[1..] + [e];
    if s[0].key == key {
      KeysOfAppend(s[1..], e);
    } else {
      KeysAfterAppend(s[1..], e, key);
    }
  }

  lemma {:induction false} KeysAfterLast<V(!new)>(s: seq<Entry<V>>, e: Entry<V>)
    requires e.key !in Keys(s)
    ensures KeysAfter(s + [e], e.key) == {}
  {
    if s == [] {
      assert s + [e] == [e] && [e][1..] == [];
    } else {
      KeysOfTail(s);
      assert (s + [e])[1..] == s[1..] + [e];
      KeysAfterLast(s[1..], e);
    }
  }

  lemma {:induction false} KeysAfterWithout<V(!new)>(s: seq<Entry<V>>, other: string, key: string)
    requires other != key
    ensures KeysAfter(Without(s, other), key) == KeysAfter(s, key) - {other}
  {
    if s == [] {
    } else {
      WithoutHead(s, other);
      if s[0].key == other {
        KeysAfterWithout(s[1..], other, key);
      } else {
        assert ([s[0]] + Without(s[1..], other))[1..] == Without(s[1..], other);
        if s[0].key == key {
          KeysOfWithout(s[1..], other);
        } else {
          KeysAfterWithout(s[1..], other, key);
        }
      }
    }
  }

  lemma {:induction false} KeyCount<V(!new)>(s: seq<Entry<V>>)
    requires Distinct(s)
    ensures |Keys(s)| == |s|
  {
    if s == [] {
    } else {
      KeysOfTail(s);
      KeyCount(s[1..]);
      assert s[0].key !in Keys(s[1..]) by {
        assert forall i :: 0 <= i < |s[1..]| ==> s[1..][i] == s[i + 1];
      }
    }
  }

  lemma {:induction false} KeysAfterCount<V(!new)>(s: seq<Entry<V>>, key: string)
    requires Distinct(s) && key in Keys(s)
    ensures |KeysAfter(s, key)| < |s|
  {
    KeysOfTail(s);
    var tail := s[1..];
    assert forall i :: 0 <= i < |tail| ==> tail[i] == s[i + 1];
    if s[0].key == key {
      KeyCount(tail);
    } else {
      KeysAfterCount(tail, key);
    }
  }

  // ---------- the invariant tying the recency order to the log ----------

  /** A cached entry holds the latest set, and exactly the keys alive since its last use come after it. */
  ghost predicate Tracked<V(!new)>(cfg: Config, ops: seq<Op<V>>, key: string)
    requires cfg.maxsize > 0
  {
    var s := Run(cfg, ops).entries;
    match Find(s, key)
    case Some(e) =>
      && LastSet(ops, key) == Some((e.value, e.stamp))
      && KeysAfter(s, key) == AliveSince(cfg, ops, key)
      && !Displaced(cfg, ops, key)
    case None => true
  }

  /** A key missing although set was displaced, or is too old by now. */
  ghost predicate Justified<V(!new)>(cfg: Config, ops: seq<Op<V>>, key: string, now: real)
    requires cfg.maxsize > 0
  {
    key !in Keys(Run(cfg, ops).entries) && LastSet(ops, key).Some? ==>
      Displaced(cfg, ops, key) || now - LastSet(ops, key).value.1 > cfg.ttl
  }

  lemma FindAppend<V(!new)>(s: seq<Entry<V>>, e: Entry<V>, key: string)
    ensures Find(s + [e], key) == if key in Keys(s) then Find(s, key) else if key == e.key then Some(e) else None
  {
    KeysOfAppend(s, e);
    if s == [] {
      assert s + [e] == [e];
      assert [e][1..] == [];
    } else {
      KeysOfTail(s);
      assert (s + [e])[1..] == s[1..] + [e];
      FindAppend(s[1..], e, key);
    }
  }

  lemma {:induction false} FindWithout<V(!new)>(s: seq<Entry<V>>, other: string, key: string)
    requires other != key
    ensures Find(Without(s, other), key) == Find(s, key)
  {
    if s == [] {
      WithoutEmpty<V>(other);
    } else {
      hide Without;
      WithoutHead(s, other);
      FindWithout(s[1..], other, key);
      if s[0].key != other {
        assert ([s[0]] + Without(s[1..], other))[1..] == Without(s[1..], other);
      }
    }
  }

  lemma {:induction false} KeysAfterPresent<V(!new)>(s: seq<Entry<V>>, key: string)
    ensures KeysAfter(s, key) <= Keys(s)
  {
    if s == [] {
    } else {
      KeysOfTail(s);
      KeysAfterPresent(s[1..], key);
    }
  }

  /** A call that uses a key, unfolded once. */
  lemma AfterUse<V(!new)>(cfg: Config, ops: seq<Op<V>>, k: string, key: string)
    requires cfg.maxsize > 0 && ops != [] && Used(cfg, ops[..|ops| - 1], ops[|ops| - 1]) == Some(k)
    ensures var before := ops[..|ops| - 1];
            && AliveSince(cfg, ops, key) == (if key == k then {} else AliveSince(cfg, before, key) + {k})
            && (Displaced(cfg, ops, key) <==>
                  key != k && (Displaced(cfg, before, key) || |AliveSince(cfg, ops, key)| >= cfg.maxsize))
  {
    assert !ops[|ops| - 1].OpClear?;
    hide Used;
  }

  /** The last call used `e.key`: its entry went to the end of what was kept of the old order, `kept`. */
  lemma Refreshed<V(!new)>(cfg: Config, ops: seq<Op<V>>, kept: seq<Entry<V>>, e: Entry<V>, key: string)
    requires cfg.maxsize > 0 && ops != []
    requires Tracked(cfg, ops[..|ops| - 1], key) && Used(cfg, ops[..|ops| - 1], ops[|ops| - 1]) == Some(e.key)
    requires LastSet(ops, e.key) == Some((e.value, e.stamp))
    requires e.key != key ==> LastSet(ops, key) == LastSet(ops[..|ops| - 1], key)
    requires e.key !in Keys(kept) && Run(cfg, ops).entries == kept + [e]
    requires Distinct(kept + [e]) && |kept + [e]| <= cfg.maxsize
    requires key in Keys(kept) ==>
               var s := Run(cfg, ops[..|ops| - 1]).entries;
               Find(kept, key) == Find(s, key) && KeysAfter(kept, key) + {e.key} == KeysAfter(s, key) + {e.key}
    ensures Tracked(cfg, ops, key)
    ensures key in Keys(Run(cfg, ops).entries) <==> key == e.key || key in Keys(kept)
  {
    AfterUse(cfg, ops, e.key, key);
    FindAppend(kept, e, key);
    KeysOfAppend(kept, e);
    hide Run, Used, AliveSince, Displaced, LastSet, KeysAfter, Keys, Distinct, Find;
    if key == e.key {
      KeysAfterLast(kept, e);
    } else if key in Keys(kept) {
      KeysAfterAppend(kept, e, key);
      KeysAfterCount(kept + [e], key);
    }
  }

  lemma KeptWithout<V(!new)>(s: seq<Entry<V>>, other: string, key: string)
    requires key != other
    ensures Find(Without(s, other), key) == Find(s, key)
    ensures KeysAfter(Without(s, other), key) == KeysAfter(s, key) - {other}
    ensures key in Keys(Without(s, other)) <==> key in Keys(s)
  {
    FindWithout(s, other, key);
    KeysAfterWithout(s, other, key);
    KeysOfWithout(s, other);
  }

  /** A `get`, unfolded once. */
  lemma AfterGet<V(!new)>(cfg: Config, ops: seq<Op<V>>, k: string, t: real, key: string)
    requires cfg.maxsize > 0 && ops != [] && ops[|ops| - 1] == OpGet(k, t)
    ensures var before := ops[..|ops| - 1];
            var s, r, used := Run(cfg, before).entries, Run(cfg, ops).entries, Used(cfg, before, OpGet(k, t));
            && LastSet(ops, key) == LastSet(before, key)
            && match Find(s, k)
               case None => r == s && used == None
               case Some(e) =>
                 if t - e.stamp > cfg.ttl then r == Without(s, k) && used == None
                 else r == Without(s, k) + [e] && used == Some(k)
  {
    hide Without, Find;
  }

  /** A `get` that misses uses nothing, and its key is no longer alive. */
  lemma AfterMiss<V(!new)>(cfg: Config, ops: seq<Op<V>>, k: string, t: real, key: string)
    requires cfg.maxsize > 0 && ops != [] && ops[|ops| - 1] == OpGet(k, t)
    requires Used(cfg, ops[..|ops| - 1], OpGet(k, t)) == None
    ensures var before := ops[..|ops| - 1];
            && AliveSince(cfg, ops, key) == AliveSince(cfg, before, key) - {k}
            && (Displaced(cfg, ops, key) <==> Displaced(cfg, before, key) || |AliveSince(cfg, ops, key)| >= cfg.maxsize)
  {
    hide Used;
  }

  lemma TrackedAfterGet<V(!new)>(cfg: Config, ops: seq<Op<V>>, k: string, t: real, key: string)
    requires cfg.maxsize > 0 && ops != [] && ops[|ops| - 1] == OpGet(k, t)
    requires Tracked(cfg, ops[..|ops| - 1], key) && Tracked(cfg, ops[..|ops| - 1], k)
    ensures Tracked(cfg, ops, key)
    ensures key in Keys(Run(cfg, ops[..|ops| - 1]).entries) && key !in Keys(Run(cfg, ops).entries) ==>
              LastSet(ops, key).Some? && t - LastSet(ops, key).value.1 > cfg.ttl
  {
    var before := ops[..|ops| - 1];
    var s := Run(cfg, before).entries;
    hide Run, Used, Without, KeysAfter, AliveSince, Displaced, LastSet, Keys, Distinct;
    RunValid(cfg, before);
    RunValid(cfg, ops);
    AfterGet(cfg, ops, k, t, key);
    WithoutGone(s, k);
    if key != k {
      KeptWithout(s, k, key);
    }
    match Find(s, k)
    case None =>
      AfterMiss(cfg, ops, k, t, key);
      KeysAfterPresent(s, key);
      if key in Keys(s) {
        KeysAfterCount(s, key);
      }
    case Some(e) =>
      if t - e.stamp > cfg.ttl {
        AfterMiss(cfg, ops, k, t, key);
        if key in Keys(s) && key != k {
          KeysAfterCount(Without(s, k), key);
        }
      } else {
        AfterGet(cfg, ops, k, t, k);
        Refreshed(cfg, ops, Without(s, k), e, key);
      }
  }

  /** A `set`, unfolded once. */
  lemma AfterSet<V(!new)>(cfg: Config, ops: seq<Op<V>>, k: string, v: V, t: real, key: string)
    requires cfg.maxsize > 0 && ops != [] && ops[|ops| - 1] == OpSet(k, v, t)
    ensures var before := ops[..|ops| - 1];
            var s, r := Run(cfg, before).entries, Run(cfg, ops).entries;
            && Used(cfg, before, OpSet(k, v, t)) == Some(k)
            && LastSet(ops, key) == (if key == k then Some((v, t)) else LastSet(before, key))
            && r == (if |s| >= cfg.maxsize && k !in Keys(s) then s[1..] else Without(s, k)) + [Entry(k, v, t)]
  {
    hide Without, Keys;
  }

  /** Evicting the oldest entry displaces its key and keeps what follows every other key. */
  lemma Evicted<V(!new)>(cfg: Config, ops: seq<Op<V>>, k: string, v: V, t: real, key: string)
    requires cfg.maxsize > 0 && ops != [] && ops[|ops| - 1] == OpSet(k, v, t) && key != k
    requires var s := Run(cfg, ops[..|ops| - 1]).entries;
             && |s| >= cfg.maxsize && k !in Keys(s) && Distinct(s) && s[0].key == key
             && Tracked(cfg, ops[..|ops| - 1], key)
    ensures Displaced(cfg, ops, key)
  {
    var before := ops[..|ops| - 1];
    var s := Run(cfg, before).entries;
    assert Used(cfg, before, ops[|ops| - 1]) == Some(k);
    assert KeysAfter(s, key) == Keys(s[1..]) && Find(s, key) == Some(s[0]);
    hide *;
    AfterUse(cfg, ops, k, key);
    KeysOfTail(s);
    HeadOnce(s);
    TrackedHead(cfg, before);
    assert AliveSince(cfg, ops, key) == Keys(s[1..]) + {k};
    assert |Keys(s[1..]) + {k}| == |Keys(s[1..])| + 1;
  }

  lemma TrackedHead<V(!new)>(cfg: Config, ops: seq<Op<V>>)
    requires cfg.maxsize > 0
    requires var s := Run(cfg, ops).entries; s != [] && Tracked(cfg, ops, s[0].key)
    ensures var s := Run(cfg, ops).entries; AliveSince(cfg, ops, s[0].key) == Keys(s[1..])
  {
    hide Run, AliveSince, Keys, Displaced, LastSet;
  }

  lemma HeadOnce<V(!new)>(s: seq<Entry<V>>)
    requires s != [] && Distinct(s)
    ensures s[0].key !in Keys(s[1..]) && Distinct(s[1..]) && |Keys(s[1..])| == |s| - 1
  {
    assert forall i :: 0 <= i < |s[1..]| ==> s[1..][i] == s[i + 1];
    KeyCount(s[1..]);
  }

  lemma TrackedAfterSet<V(!new)>(cfg: Config, ops: seq<Op<V>>, k: string, v: V, t: real, key: string)
    requires cfg.maxsize > 0 && ops != [] && ops[|ops| - 1] == OpSet(k, v, t)
    requires Tracked(cfg, ops[..|ops| - 1], key)
    ensures Tracked(cfg, ops, key)
    ensures key in Keys(Run(cfg, ops[..|ops| - 1]).entries) && key !in Keys(Run(cfg, ops).entries) ==>
              Displaced(cfg, ops, key)
  {
    var before := ops[..|ops| - 1];
    var s := Run(cfg, before).entries;
    var e := Entry(k, v, t);
    hide Run, Used, Without, AliveSince, Displaced, LastSet, Distinct, Tracked;
    RunValid(cfg, before);
    RunValid(cfg, ops);
    AfterSet(cfg, ops, k, v, t, key);
    AfterSet(cfg, ops, k, v, t, k);
    if |s| >= cfg.maxsize && k !in Keys(s) {
      KeysOfTail(s);
      HeadOnce(s);
      Refreshed(cfg, ops, s[1..], e, key);
      if key == s[0].key {
        Evicted(cfg, ops, k, v, t, key);
      }
    } else {
      WithoutGone(s, k);
      if key != k {
        KeptWithout(s, k, key);
      }
      Refreshed(cfg, ops, Without(s, k), e, key);
    }
  }

  lemma {:induction false} AlwaysTracked<V(!new)>(cfg: Config, ops: seq<Op<V>>, key: string)
    requires cfg.maxsize > 0
    ensures Tracked(cfg, ops, key)
  {
    if ops == [] {
    } else {
      var before, op := ops[..|ops| - 1], ops[|ops| - 1];
      AlwaysTracked(cfg, before, key);
      match op
      case OpGet(k, t) =>
        AlwaysTracked(cfg, before, k);
        TrackedAfterGet(cfg, ops, k, t, key);
      case OpSet(k, v, t) => TrackedAfterSet(cfg, ops, k, v, t, key);
      case OpClear =>
    }
  }

  lemma {:induction false} AlwaysJustified<V(!new)>(cfg: Config, ops: seq<Op<V>>, key: string, now: real)
    requires cfg.maxsize > 0 && Clock(ops, now)
    ensures Justified(cfg, ops, key, now)
  {
    if ops == [] {
    } else {
      var before, op := ops[..|ops| - 1], ops[|ops| - 1];
      AlwaysJustified(cfg, before, key, if op.OpClear? then now else op.now);
      AlwaysTracked(cfg, before, key);
      match op
      case OpGet(k, t) =>
        AlwaysTracked(cfg, before, k);
        TrackedAfterGet(cfg, ops, k, t, key);
        JustifiedAfterUse(cfg, ops, key, now);
      case OpSet(k, v, t) =>
        TrackedAfterSet(cfg, ops, k, v, t, key);
        JustifiedAfterUse(cfg, ops, key, now);
      case OpClear =>
    }
  }

  lemma JustifiedAfterUse<V(!new)>(cfg: Config, ops: seq<Op<V>>, key: string, now: real)
    requires cfg.maxsize > 0 && ops != [] && !ops[|ops| - 1].OpClear?
    requires var before, op := ops[..|ops| - 1], ops[|ops| - 1];
             && op.now <= now && Justified(cfg, before, key, op.now)
             && Tracked(cfg, ops, key)
             && (key in Keys(Run(cfg, before).entries) && key !in Keys(Run(cfg, ops).entries) ==>
                   Displaced(cfg, ops, key)
                   || (LastSet(ops, key).Some? && op.now - LastSet(ops, key).value.1 > cfg.ttl))
    ensures Justified(cfg, ops, key, now)
  {
    UsedIsCached(cfg, ops);
  }

  /** A key just used is cached. */
  lemma UsedIsCached<V(!new)>(cfg: Config, ops: seq<Op<V>>)
    requires cfg.maxsize > 0 && ops != []
    ensures match Used(cfg, ops[..|ops| - 1], ops[|ops| - 1])
            case Some(key) => key in Keys(Run(cfg, ops).entries)
            case None => true
  {
    var s := Run(cfg, ops).entries;
    if Used(cfg, ops[..|ops| - 1], ops[|ops| - 1]).Some? {
      assert s[|s| - 1].key == Used(cfg, ops[..|ops| - 1], ops[|ops| - 1]).value;
    }
  }

  // ---------- the main results ----------

  /** A get hits exactly when the latest set of its key is fresh and the key was not displaced since
      its last use; and it returns that latest value. */
  lemma HitExactly<V(!new)>(cfg: Config, ops: seq<Op<V>>, key: string, now: real)
    requires cfg.maxsize > 0 && Clock(ops, now)
    ensures Answer(cfg, ops, key, now)
            == match LastSet(ops, key)
               case None => None
               case Some((value, stamp)) =>
                 if now - stamp <= cfg.ttl && !Displaced(cfg, ops, key) then Some(value) else None
  {
    AlwaysTracked(cfg, ops, key);
    AlwaysJustified(cfg, ops, key, now);
  }

  /** Whatever the clock does, a hit returns the latest value set, at most `ttl` old. */
  lemma HitIsLatest<V(!new)>(cfg: Config, ops: seq<Op<V>>, key: string, now: real)
    requires cfg.maxsize > 0 && Answer(cfg, ops, key, now).Some?
    ensures LastSet(ops, key).Some?
    ensures var (value, stamp) := LastSet(ops, key).value;
            Answer(cfg, ops, key, now) == Some(value) && now - stamp <= cfg.ttl
  {
    AlwaysTracked(cfg, ops, key);
  }

  /** A fresh key must hit while fewer than `maxsize` distinct other keys were used since. */
  lemma FreshMustHit<V(!new)>(cfg: Config, ops: seq<Op<V>>, key: string, now: real)
    requires cfg.maxsize > 0 && Clock(ops, now)
    requires LastSet(ops, key).Some? && now - LastSet(ops, key).value.1 <= cfg.ttl
    requires |UsedSince(cfg, ops, key)| < cfg.maxsize
    ensures Answer(cfg, ops, key, now) == Some(LastSet(ops, key).value.0)
  {
    HitExactly(cfg, ops, key, now);
    AliveWithinUsed(cfg, ops, key);
  }

  lemma {:induction false} AliveWithinUsed<V(!new)>(cfg: Config, ops: seq<Op<V>>, key: string)
    requires cfg.maxsize > 0
    ensures AliveSince(cfg, ops, key) <= UsedSince(cfg, ops, key)
    ensures Displaced(cfg, ops, key) ==> |UsedSince(cfg, ops, key)| >= cfg.maxsize
  {
    if ops != [] && !ops[|ops| - 1].OpClear? {
      AliveWithinUsed(cfg, ops[..|ops| - 1], key);
      if Displaced(cfg, ops, key) {
        if Displaced(cfg, ops[..|ops| - 1], key) {
          SubsetSize(UsedSince(cfg, ops[..|ops| - 1], key), UsedSince(cfg, ops, key));
        } else {
          SubsetSize(AliveSince(cfg, ops, key), UsedSince(cfg, ops, key));
        }
      }
    }
  }

  // ---------- the same from the log alone, without running a cache ----------

  /** The answer of a `get`, from earlier calls only. */
  ghost function LogAnswer<V(!new)>(cfg: Config, ops: seq<Op<V>>, key: string, now: real): Option<V>
    decreases |ops|, 2
  {
    match LastSet(ops, key)
    case None => None
    case Some((value, stamp)) =>
      if now - stamp <= cfg.ttl && !LogDisplaced(cfg, ops, key) then Some(value) else None
  }

  ghost function LogUsed<V(!new)>(cfg: Config, before: seq<Op<V>>, op: Op<V>): Option<string>
    decreases |before|, 3
  {
    match op
    case OpSet(key, _, _) => Some(key)
    case OpGet(key, now) => if LogAnswer(cfg, before, key, now).Some? then Some(key) else None
    case OpClear => None
  }

  ghost function LogAlive<V(!new)>(cfg: Config, ops: seq<Op<V>>, key: string): set<string>
    decreases |ops|, 0
  {
    if ops == [] || ops[|ops| - 1].OpClear? then {}
    else
      var before, op := ops[..|ops| - 1], ops[|ops| - 1];
      match LogUsed(cfg, before, op)
      case None => LogAlive(cfg, before, key) - {op.key}
      case Some(k) => if k == key then {} else LogAlive(cfg, before, key) + {k}
  }

  ghost predicate LogDisplaced<V(!new)>(cfg: Config, ops: seq<Op<V>>, key: string)
    decreases |ops|, 1
  {
    if ops == [] || ops[|ops| - 1].OpClear? then false
    else
      var before, op := ops[..|ops| - 1], ops[|ops| - 1];
      LogUsed(cfg, before, op) != Some(key)
      && (LogDisplaced(cfg, before, key) || |LogAlive(cfg, ops, key)| >= cfg.maxsize)
  }

  lemma {:induction false} LogAgrees<V(!new)>(cfg: Config, ops: seq<Op<V>>, key: string, now: real)
    requires cfg.maxsize > 0 && Clock(ops, now)
    ensures LogAlive(cfg, ops, key) == AliveSince(cfg, ops, key)
    ensures LogDisplaced(cfg, ops, key) <==> Displaced(cfg, ops, key)
    decreases |ops|, 0
  {
    if ops == [] {
    } else {
      var before, op := ops[..|ops| - 1], ops[|ops| - 1];
      LogAgrees(cfg, before, key, if op.OpClear? then now else op.now);
      if op.OpGet? {
        AnswerFromLog(cfg, before, op.key, op.now);
      }
      hide LogAnswer, Answer;
    }
  }

  /** Every answer is a function of the log of earlier calls, which says what was last set, how old it is, and whether
      it was displaced; no cache is run. */
  lemma {:induction false} AnswerFromLog<V(!new)>(cfg: Config, ops: seq<Op<V>>, key: string, now: real)
    requires cfg.maxsize > 0 && Clock(ops, now)
    ensures Answer(cfg, ops, key, now) == LogAnswer(cfg, ops, key, now)
    decreases |ops|, 1
  {
    LogAgrees(cfg, ops, key, now);
    HitExactly(cfg, ops, key, now);
    hide Answer, LastSet, Displaced, LogDisplaced;
  }
}
