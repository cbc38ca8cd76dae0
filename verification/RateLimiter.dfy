/** RateLimiter: two Redis sorted sets per key, one per sliding window. */
module RateLimiter {
  import opened Option

  /** A sorted set whose members are the decimal spelling of their own scores, and when Redis drops it. */
  datatype ZSet = ZSet(scores: set<real>, expires: Option<real>)

  type Store = map<string, ZSet>

  datatype Window = Minute | Day

  function Length(w: Window): real {
    if w == Minute then 60.0 else 86400.0
  }

  function RedisKey(key: string, w: Window): string {
    "rate_limit:" + key + if w == Minute then ":minute" else ":day"
  }

  // ---------- the Redis commands ----------

  /** What Redis holds under a name now: a set past its expiry is gone. */
  function Members(store: Store, name: string, now: real): set<real> {
    if name in store && (store[name].expires.Some? ==> now < store[name].expires.value) then store[name].scores else {}
  }

  function Pruned(scores: set<real>, low: real, high: real): set<real> {
    set t | t in scores && !(low <= t <= high)
  }

  class Redis {
    var zsets: Store

    constructor ()
      ensures zsets == map[]
    {
      zsets := map[];
    }

    /** Redis drops an expired or emptied set before it acts on it. */
    method ZRemRangeByScore(name: string, low: real, high: real, now: real)
      modifies this
      ensures Members(zsets, name, now) == Pruned(Members(old(zsets), name, now), low, high)
      ensures zsets - {name} == old(zsets) - {name}
    {
      var kept := Pruned(Members(zsets, name, now), low, high);
      if kept == {} {
        zsets := zsets - {name};
      } else {
        zsets := zsets[name := ZSet(kept, zsets[name].expires)];
      }
    }

    method ZCard(name: string, now: real) returns (count: nat)
      ensures count == |Members(zsets, name, now)|
    {
      count := |Members(zsets, name, now)|;
    }

    method ZAdd(name: string, score: real, now: real)
      modifies this
      ensures Members(zsets, name, now) == Members(old(zsets), name, now) + {score}
      ensures name in zsets && zsets[name].scores == Members(zsets, name, now)
      ensures zsets - {name} == old(zsets) - {name}
    {
      var members := Members(zsets, name, now);
      var expires := if members == {} then None else zsets[name].expires;
      zsets := zsets[name := ZSet(members + {score}, expires)];
    }

    method Expire(name: string, seconds: real, now: real)
      requires name in zsets
      modifies this
      ensures zsets == old(zsets)[name := ZSet(old(zsets)[name].scores, Some(now + seconds))]
    {
      zsets := zsets[name := zsets[name].(expires := Some(now + seconds))];
    }

    method Delete(name: string)
      modifies this
      ensures zsets == old(zsets) - {name}
    {
      zsets := zsets - {name};
    }
  }

  // ---------- one check ----------

  /** The members still in the window ending now. */
  function Kept(store: Store, key: string, w: Window, now: real): set<real> {
    Pruned(Members(store, RedisKey(key, w), now), 0.0, now - Length(w))
  }

  /** One window's four commands. */
  function Slide(store: Store, key: string, w: Window, now: real): Store {
    store[RedisKey(key, w) := ZSet(Kept(store, key, w, now) + {now}, Some(now + Length(w)))]
  }

  datatype Quota = Quota(limit: int, remaining: int, reset: int)

  datatype Info = Info(allowed: bool, minute: Quota, day: Option<Quota>, exceeded: Option<Window>)

  function Max0(x: int): int {
    if x >= 0 then x else 0
  }

  function Decide(perMinute: int, perDay: int, minuteCount: nat, dayCount: nat, now: real): (info: Info)
    requires now >= 0.0
    ensures info.allowed <==> minuteCount < perMinute && dayCount < perDay
    ensures info.allowed <==> info.exceeded == None
    ensures info.allowed ==> info.minute.remaining == perMinute - minuteCount - 1 >= 0
    ensures info.exceeded == Some(Minute) <==> minuteCount >= perMinute
    ensures info.exceeded == Some(Day) <==> dayCount >= perDay && minuteCount < perMinute
    ensures info.minute.limit == perMinute && (info.minute.remaining == 0 <==> minuteCount >= perMinute - 1)
    ensures info.minute.reset as real <= now + 60.0 < info.minute.reset as real + 1.0
    ensures info.day.None? <==> perDay == 0
    ensures info.day.Some? ==>
              var day := info.day.value;
              && day.limit == perDay && (info.allowed ==> day.remaining == perDay - dayCount - 1)
              && (day.remaining == 0 <==> dayCount >= perDay - 1)
              && day.reset as real <= now + 86400.0 < day.reset as real + 1.0
  {
    var minuteExceeded := minuteCount >= perMinute;
    var dayExceeded := dayCount >= perDay;
    Info(!(minuteExceeded || dayExceeded),
         Quota(perMinute, Max0(perMinute - minuteCount - 1), (now + 60.0).Floor),
         if perDay == 0 then None else Some(Quota(perDay, Max0(perDay - dayCount - 1), (now + 86400.0).Floor)),
         if minuteExceeded then Some(Minute) else if dayExceeded then Some(Day) else None)
  }

  /** The two names never collide, so each window's commands leave the other alone. */
  lemma KeysDiffer(key: string, w: Window, key': string, w': Window)
    ensures RedisKey(key, w) == RedisKey(key', w') <==> key == key' && w == w'
  {
    var a, b := RedisKey(key, w), RedisKey(key', w');
    assert a[|a| - 1] == (if w == Minute then 'e' else 'y');
    assert b[|b| - 1] == (if w' == Minute then 'e' else 'y');
    if a == b {
      assert a[11..11 + |key|] == key && b[11..11 + |key'|] == key';
    }
  }

  method SlideWindow(redis: Redis, key: string, w: Window, now: real) returns (count: nat)
    modifies redis
    ensures count == |Kept(old(redis.zsets), key, w, now)|
    ensures redis.zsets == Slide(old(redis.zsets), key, w, now)
  {
    var name := RedisKey(key, w);
    redis.ZRemRangeByScore(name, 0.0, now - Length(w), now);
    count := redis.ZCard(name, now);
    redis.ZAdd(name, now, now);
    redis.Expire(name, Length(w), now);
    SameElsewhere(redis.zsets, Slide(old(redis.zsets), key, w, now), old(redis.zsets), name);
  }

  lemma SameElsewhere(a: Store, b: Store, c: Store, name: string)
    requires a - {name} == c - {name} == b - {name} && name in a && name in b && a[name] == b[name]
    ensures a == b
  {
    forall k | k in a || k in b
      ensures k in a && k in b && a[k] == b[k]
    {
      if k != name {
        assert k in a - {name} <==> k in b - {name};
        assert k in a ==> (a - {name})[k] == a[k];
        assert k in b ==> (b - {name})[k] == b[k];
      }
    }
  }

  /** The pipeline: both windows in one transaction, then the decision. */
  method CheckRateLimit(redis: Redis, key: string, perMinute: int, perDay: int, now: real)
      returns (allowed: bool, info: Info)
    requires now >= 0.0
    modifies redis
    ensures redis.zsets == Slide(Slide(old(redis.zsets), key, Minute, now), key, Day, now)
    ensures allowed <==> |Kept(old(redis.zsets), key, Minute, now)| < perMinute
                         && |Kept(old(redis.zsets), key, Day, now)| < perDay
    ensures info == Decide(perMinute, perDay, |Kept(old(redis.zsets), key, Minute, now)|,
                           |Kept(old(redis.zsets), key, Day, now)|, now)
  {
    KeysDiffer(key, Minute, key, Day);
    var minuteCount := SlideWindow(redis, key, Minute, now);
    assert Kept(redis.zsets, key, Day, now) == Kept(old(redis.zsets), key, Day, now);
    var dayCount := SlideWindow(redis, key, Day, now);
    info := Decide(perMinute, perDay, minuteCount, dayCount, now);
    allowed := info.allowed;
  }

  method ResetLimits(redis: Redis, key: string)
    modifies redis
    ensures redis.zsets == old(redis.zsets) - {RedisKey(key, Minute), RedisKey(key, Day)}
  {
    redis.Delete(RedisKey(key, Minute));
    redis.Delete(RedisKey(key, Day));
  }
}
