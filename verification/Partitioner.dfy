/** Symbol partitioners: which of several ingestion instances works on which symbol. */
module Partitioner {
  import opened Option
  import opened IntArith

  datatype Symbol = Symbol(securityId: int, name: string)

  datatype Instance = Instance(id: nat, total: nat) {
    /** What both constructors insist on. */
    ghost predicate Valid() { 1 <= id <= total }
  }

  /** The constructor; `None` is the ValueError. */
  function MakeInstance(id: int, total: int): (r: Option<Instance>)
    ensures r.Some? <==> 1 <= id <= total
    ensures r.Some? ==> r.value.Valid() && r.value.id == id && r.value.total == total
  {
    if id < 1 || id > total then None else Some(Instance(id, total))
  }

  // ---------- ranges ----------

  /** The first index beyond the ranges of the first `i` instances. */
  function Bound(total: nat, n: nat, i: nat): nat
    requires n >= 1
  {
    i * (total / n) + if i <= total % n then i else total % n
  }

  lemma BoundEnds(total: nat, n: nat)
    requires n >= 1
    ensures Bound(total, n, 0) == 0 && Bound(total, n, n) == total
  {
  }

  /** Sizes differ by at most one, the larger ones first. */
  lemma BoundStep(total: nat, n: nat, i: nat)
    requires n >= 1
    ensures Bound(total, n, i + 1) - Bound(total, n, i) == total / n + if i < total % n then 1 else 0
  {
    assert (i + 1) * (total / n) == i * (total / n) + total / n;
  }

  lemma {:induction false} BoundMonotone(total: nat, n: nat, i: nat, j: nat)
    requires n >= 1 && i <= j
    ensures Bound(total, n, i) <= Bound(total, n, j)
    decreases j
  {
    if i < j {
      BoundStep(total, n, j - 1);
      BoundMonotone(total, n, i, j - 1);
    }
  }

  /** Both range methods compute their bounds this way. */
  method Range(inst: Instance, total: nat) returns (start: nat, end: nat)
    requires inst.Valid()
    ensures start == Bound(total, inst.total, inst.id - 1) && end == Bound(total, inst.total, inst.id)
    ensures start <= end <= total
    ensures end - start == total / inst.total + if inst.id <= total % inst.total then 1 else 0
  {
    var perInstance, remainder := total / inst.total, total % inst.total;
    start := (inst.id - 1) * perInstance;
    end := start + perInstance;
    assert inst.id * perInstance == start + perInstance;
    if inst.id <= remainder {
      start, end := start + (inst.id - 1), end + inst.id;
    } else {
      start, end := start + remainder, end + remainder;
    }
    BoundEnds(total, inst.total);
    BoundMonotone(total, inst.total, inst.id, inst.total);
    BoundStep(total, inst.total, inst.id - 1);
  }

  predicate InRange(inst: Instance, total: nat, x: int)
    requires inst.Valid()
  {
    Bound(total, inst.total, inst.id - 1) <= x < Bound(total, inst.total, inst.id)
  }

  method IsMySymbol(inst: Instance, symbolId: int, total: nat) returns (mine: bool)
    requires inst.Valid()
    ensures mine <==> InRange(inst, total, symbolId)
  {
    var start, end := Range(inst, total);
    mine := start <= symbolId < end;
  }

  lemma {:induction false} SomeRange(total: nat, n: nat, i: nat, x: nat) returns (id: nat)
    requires 1 <= i <= n && x < Bound(total, n, i)
    ensures 1 <= id <= i && InRange(Instance(id, n), total, x)
  {
    if x >= Bound(total, n, i - 1) {
      id := i;
    } else {
      BoundEnds(total, n);
      id := SomeRange(total, n, i - 1, x);
    }
  }

  /** Exact cover: an index belongs to exactly one instance, and an id outside the indexes to none. */
  lemma OwnedOnce(total: nat, n: nat, x: int)
    requires n >= 1
    ensures 0 <= x < total <==> exists id: nat :: 1 <= id <= n && InRange(Instance(id, n), total, x)
    ensures forall id: nat, jd: nat | 1 <= id <= n && 1 <= jd <= n ::
              InRange(Instance(id, n), total, x) && InRange(Instance(jd, n), total, x) ==> id == jd
  {
    BoundEnds(total, n);
    if 0 <= x < total {
      var _ := SomeRange(total, n, n, x);
    }
    forall id: nat, jd: nat | 1 <= id <= n && 1 <= jd <= n
                              && InRange(Instance(id, n), total, x) && InRange(Instance(jd, n), total, x)
      ensures id == jd
    {
      BoundMonotone(total, n, id, if id < jd then jd - 1 else id);
      BoundMonotone(total, n, jd, if jd < id then id - 1 else jd);
    }
    forall id: nat | 1 <= id <= n && InRange(Instance(id, n), total, x) ensures 0 <= x < total {
      BoundMonotone(total, n, id, n);
    }
  }

  // ---------- slices of the sorted list ----------

  ghost predicate Ordered(s: seq<Symbol>) {
    forall i, j | 0 <= i < j < |s| :: s[i].securityId <= s[j].securityId
  }

  /** Stable insertion; `sorted` with the security id as its key. */
  function Insert(x: Symbol, s: seq<Symbol>): (r: seq<Symbol>)
    ensures |r| == |s| + 1
  {
    if s == [] || x.securityId <= s[0].securityId then [x] + s else [s[0]] + Insert(x, s[1..])
  }

  function Sorted(s: seq<Symbol>): (r: seq<Symbol>)
    ensures |r| == |s|
  {
    if s == [] then [] else Insert(s[0], Sorted(s[1..]))
  }

  lemma {:induction false} InsertMembers(x: Symbol, s: seq<Symbol>)
    ensures multiset(Insert(x, s)) == multiset(s) + multiset{x}
  {
    if s == [] {
    } else {
      assert s == [s[0]] + s[1..];
      if x.securityId > s[0].securityId {
        InsertMembers(x, s[1..]);
        assert Insert(x, s) == [s[0]] + Insert(x, s[1..]);
      } else {
        assert Insert(x, s) == [x] + s;
      }
    }
  }

  lemma {:induction false} InsertOrdered(x: Symbol, s: seq<Symbol>)
    requires Ordered(s)
    ensures Ordered(Insert(x, s))
  {
    if s == [] {
    } else {
      if x.securityId > s[0].securityId {
        InsertOrdered(x, s[1..]);
        InsertMembers(x, s[1..]);
        var t := Insert(x, s[1..]);
        forall y | y in t ensures s[0].securityId <= y.securityId {
          assert y in multiset(t);
        }
        assert Insert(x, s) == [s[0]] + t;
        OrderedCons(s[0], t);
      } else {
        assert Insert(x, s) == [x] + s;
        OrderedCons(x, s);
      }
    }
  }

  lemma OrderedCons(y: Symbol, t: seq<Symbol>)
    requires Ordered(t) && forall z | z in t :: y.securityId <= z.securityId
    ensures Ordered([y] + t)
  {
  }

  /** The list the ranges are cut from: the given symbols, in order. */
  lemma {:induction false} SortedIsPermutation(s: seq<Symbol>)
    ensures Ordered(Sorted(s)) && multiset(Sorted(s)) == multiset(s)
  {
    if s == [] {
    } else {
      assert s == [s[0]] + s[1..];
      SortedIsPermutation(s[1..]);
      InsertMembers(s[0], Sorted(s[1..]));
      InsertOrdered(s[0], Sorted(s[1..]));
    }
  }

  /** The symbols with one security id, in their order. */
  function WithId(s: seq<Symbol>, id: int): seq<Symbol> {
    if s == [] then [] else (if s[0].securityId == id then [s[0]] else []) + WithId(s[1..], id)
  }

  lemma WithIdCons(x: Symbol, s: seq<Symbol>, id: int)
    ensures WithId([x] + s, id) == (if x.securityId == id then [x] else []) + WithId(s, id)
  {
    assert ([x] + s)[1..] == s;
  }

  lemma {:induction false} InsertStable(x: Symbol, s: seq<Symbol>, id: int)
    ensures WithId(Insert(x, s), id) == (if x.securityId == id then [x] else []) + WithId(s, id)
  {
    WithIdCons(x, s, id);
    if s == [] || x.securityId <= s[0].securityId {
    } else {
      InsertStable(x, s[1..], id);
      WithIdCons(s[0], Insert(x, s[1..]), id);
      WithIdCons(s[0], s[1..], id);
      assert s == [s[0]] + s[1..];
      hide WithId;
    }
  }

  /** Sorting is stable: symbols with the same id keep their order. */
  lemma {:induction false} SortedIsStable(s: seq<Symbol>, id: int)
    ensures WithId(Sorted(s), id) == WithId(s, id)
  {
    if s == [] {
    } else {
      SortedIsStable(s[1..], id);
      InsertStable(s[0], Sorted(s[1..]), id);
    }
  }

  function Slice(symbols: seq<Symbol>, n: nat, id: nat): seq<Symbol>
    requires 1 <= id <= n
  {
    BoundEnds(|symbols|, n);
    BoundMonotone(|symbols|, n, id - 1, id);
    BoundMonotone(|symbols|, n, id, n);
    Sorted(symbols)[Bound(|symbols|, n, id - 1)..Bound(|symbols|, n, id)]
  }

  method GetAssignedSymbols(inst: Instance, symbols: seq<Symbol>) returns (r: seq<Symbol>)
    requires inst.Valid()
    ensures r == Slice(symbols, inst.total, inst.id)
    ensures |r| == |symbols| / inst.total + if inst.id <= |symbols| % inst.total then 1 else 0
  {
    var sorted := Sorted(symbols);
    var start, end := Range(inst, |sorted|);
    r := sorted[start..end];
  }

  function Slices(symbols: seq<Symbol>, n: nat, i: nat): seq<Symbol>
    requires i <= n
  {
    if i == 0 then [] else Slices(symbols, n, i - 1) + Slice(symbols, n, i)
  }

  lemma {:induction false} SlicesArePrefix(symbols: seq<Symbol>, n: nat, i: nat)
    requires i <= n && n >= 1
    ensures Bound(|symbols|, n, i) <= |symbols|
    ensures Slices(symbols, n, i) == Sorted(symbols)[..Bound(|symbols|, n, i)]
  {
    hide Bound, Sorted;
    BoundEnds(|symbols|, n);
    BoundMonotone(|symbols|, n, i, n);
    if i == 0 {
    } else {
      BoundMonotone(|symbols|, n, i - 1, i);
      SlicesArePrefix(symbols, n, i - 1);
      assert Slices(symbols, n, i) == Slices(symbols, n, i - 1) + Slice(symbols, n, i);
    }
  }

  /** The slices of all instances, in order, are the sorted list: no symbol twice, none left out. */
  lemma RangesCover(symbols: seq<Symbol>, n: nat)
    requires n >= 1
    ensures Slices(symbols, n, n) == Sorted(symbols)
    ensures multiset(Slices(symbols, n, n)) == multiset(symbols)
  {
    SortedIsPermutation(symbols);
    SlicesArePrefix(symbols, n, n);
    BoundEnds(|symbols|, n);
  }

  /** The two range methods agree on the list, for this number of instances. */
  ghost predicate Agree(ids: seq<int>, n: nat)
    requires n >= 1
  {
    forall id: nat, k: nat | 1 <= id <= n && k < |ids| ::
      InRange(Instance(id, n), |ids|, ids[k]) <==> InRange(Instance(id, n), |ids|, k)
  }

  /**
   * is_my_symbol compares security ids with indexes: it agrees with get_assigned_symbols for every number of instances
   * exactly when the sorted ids are 0, 1, 2 and so on.
   */
  lemma AgreeIff(ids: seq<int>)
    ensures (forall n: nat | n >= 1 :: Agree(ids, n)) <==> forall k | 0 <= k < |ids| :: ids[k] == k
  {
    if forall n: nat | n >= 1 :: Agree(ids, n) {
      forall k: nat | k < |ids| ensures ids[k] == k {
        assert Agree(ids, |ids|);
        OneEach(|ids|, k);
        OneEach(|ids|, k + 1);
        assert InRange(Instance(k + 1, |ids|), |ids|, k);
      }
    }
  }

  lemma OneEach(n: nat, i: nat)
    requires n >= 1
    ensures Bound(n, n, i) == i
  {
    assert n / n == 1 && n % n == 0;
    assert i * (n / n) == i;
  }

  // ---------- one fixed number of instances ----------

  /** The instance an index belongs to. */
  function RangeOf(total: nat, n: nat, x: nat): nat
    requires n >= 1 && x < total
  {
    var per, extras := total / n, total % n;
    if x < extras * (per + 1) then x / (per + 1) + 1
    else if per == 0 then 0
    else (x - extras) / per + 1
  }

  lemma Quotient(x: nat, d: nat)
    requires d >= 1
    ensures x / d * d <= x < (x / d + 1) * d
  {
    assert x == x / d * d + x % d;
  }

  lemma Smaller(a: nat, b: nat, f: nat)
    requires a * f < b * f
    ensures a < b
  {
    assert (a - b) * f == a * f - b * f;
  }

  /** The bounds of the larger ranges, and of the others. */
  lemma BoundForm(total: nat, n: nat, i: nat)
    requires n >= 1
    ensures i <= total % n ==> Bound(total, n, i) == i * (total / n + 1)
    ensures i >= total % n ==> Bound(total, n, i) == i * (total / n) + total % n
  {
    assert i * (total / n + 1) == i * (total / n) + i;
  }

  lemma Division(total: nat, n: nat)
    requires n >= 1
    ensures total == n * (total / n) + total % n && total % n < n
  {
  }

  lemma RangeOfExtra(total: nat, n: nat, x: nat)
    requires n >= 1 && x < total && x < total % n * (total / n + 1)
    ensures 1 <= RangeOf(total, n, x) <= n
    ensures InRange(Instance(RangeOf(total, n, x), n), total, x)
  {
    var i := x / (total / n + 1);
    assert RangeOf(total, n, x) == i + 1;
    Quotient(x, total / n + 1);
    Smaller(i, total % n, total / n + 1);
    Division(total, n);
    BoundForm(total, n, i);
    BoundForm(total, n, i + 1);
    hide Bound, RangeOf;
  }

  lemma RangeOfPlain(total: nat, n: nat, x: nat)
    requires n >= 1 && x < total && x >= total % n * (total / n + 1)
    ensures 1 <= RangeOf(total, n, x) <= n
    ensures InRange(Instance(RangeOf(total, n, x), n), total, x)
  {
    var per, extras := total / n, total % n;
    Division(total, n);
    SomePerInstance(per, extras, n, x);
    var i := (x - extras) / per;
    assert RangeOf(total, n, x) == i + 1;
    PlainPlace(per, extras, n, x, i);
    hide *;
    PlainRange(total, n, per, extras, x, i);
  }

  lemma PlainRange(total: nat, n: nat, per: nat, extras: nat, x: nat, i: nat)
    requires n >= 1 && per == total / n && extras == total % n
    requires extras <= i < n && i * per + extras <= x < (i + 1) * per + extras
    ensures InRange(Instance(i + 1, n), total, x)
  {
    BoundForm(total, n, i);
    BoundForm(total, n, i + 1);
    hide Bound;
  }

  lemma SomePerInstance(per: nat, extras: nat, n: nat, x: nat)
    requires extras * (per + 1) <= x < n * per + extras
    ensures per > 0 && x >= extras
  {
    assert extras * (per + 1) == extras * per + extras;
    assert per == 0 ==> n * per == 0;
  }

  lemma PlainPlace(per: nat, extras: nat, n: nat, x: nat, i: nat)
    requires per > 0 && extras * (per + 1) <= x < n * per + extras && x >= extras && i == (x - extras) / per
    ensures extras <= i < n && i * per + extras <= x < (i + 1) * per + extras
  {
    Quotient(x - extras, per);
    assert extras * (per + 1) == extras * per + extras;
    Smaller(i, n, per);
    Smaller(extras, i + 1, per);
  }

  /** The range number is the one owner of an index, in closed form. */
  lemma OwnerIs(total: nat, n: nat, x: int, id: nat)
    requires 1 <= id <= n
    ensures InRange(Instance(id, n), total, x) <==> 0 <= x < total && RangeOf(total, n, x) == id
  {
    OwnedOnce(total, n, x);
    if 0 <= x < total {
      if x < total % n * (total / n + 1) {
        RangeOfExtra(total, n, x);
      } else {
        RangeOfPlain(total, n, x);
      }
    }
  }

  predicate SameRange(total: nat, n: nat, x: int, k: nat)
    requires n >= 1 && k < total
  {
    0 <= x < total && RangeOf(total, n, x) == RangeOf(total, n, k)
  }

  /** For one number of instances: every id must be an index in the range of its own position. */
  lemma AgreeAtIff(ids: seq<int>, n: nat)
    requires n >= 1
    ensures Agree(ids, n) <==> forall k | 0 <= k < |ids| :: SameRange(|ids|, n, ids[k], k)
  {
    hide InRange, RangeOf;
    forall k: nat, id: nat | k < |ids| && 1 <= id <= n
      ensures InRange(Instance(id, n), |ids|, k) <==> RangeOf(|ids|, n, k) == id
      ensures InRange(Instance(id, n), |ids|, ids[k]) <==>
              0 <= ids[k] < |ids| && RangeOf(|ids|, n, ids[k]) == id
    {
      OwnerIs(|ids|, n, k, id);
      OwnerIs(|ids|, n, ids[k], id);
    }
    forall k: nat | k < |ids| ensures 1 <= RangeOf(|ids|, n, k) <= n {
      RangeOfBounds(|ids|, n, k);
    }
    if Agree(ids, n) {
      forall k: nat | k < |ids| ensures SameRange(|ids|, n, ids[k], k) {
        var id := RangeOf(|ids|, n, k);
        assert InRange(Instance(id, n), |ids|, k);
      }
    }
  }

  lemma RangeOfBounds(total: nat, n: nat, k: nat)
    requires n >= 1 && k < total
    ensures 1 <= RangeOf(total, n, k) <= n
  {
    if k < total % n * (total / n + 1) {
      RangeOfExtra(total, n, k);
    } else {
      RangeOfPlain(total, n, k);
    }
  }

  /** For these symbols and instances, is_my_symbol of a symbol is membership in the instance's slice. */
  ghost predicate SymbolsAgree(symbols: seq<Symbol>, n: nat)
    requires n >= 1
  {
    forall id: nat, s | 1 <= id <= n && s in symbols ::
      InRange(Instance(id, n), |symbols|, s.securityId) <==> s in Slice(symbols, n, id)
  }

  lemma InSlice(symbols: seq<Symbol>, n: nat, id: nat, k: nat)
    requires 1 <= id <= n && k < |symbols| && RangeOf(|symbols|, n, k) == id
    ensures Sorted(symbols)[k] in Slice(symbols, n, id)
  {
    hide Bound, Sorted, RangeOf;
    OwnerIs(|symbols|, n, k, id);
    BoundEnds(|symbols|, n);
    BoundMonotone(|symbols|, n, id, n);
    var slice, start := Slice(symbols, n, id), Bound(|symbols|, n, id - 1);
    assert slice[k - start] == Sorted(symbols)[k];
  }

  lemma PlaceInSlice(symbols: seq<Symbol>, n: nat, id: nat, s: Symbol) returns (k: nat)
    requires 1 <= id <= n && s in Slice(symbols, n, id)
    ensures k < |symbols| && RangeOf(|symbols|, n, k) == id && Sorted(symbols)[k] == s
  {
    hide Bound, Sorted, RangeOf;
    BoundEnds(|symbols|, n);
    BoundMonotone(|symbols|, n, id, n);
    var slice := Slice(symbols, n, id);
    var i: nat :| i < |slice| && slice[i] == s;
    k := Bound(|symbols|, n, id - 1) + i;
    assert InRange(Instance(id, n), |symbols|, k);
    OwnerIs(|symbols|, n, k, id);
  }

  lemma PlaceOf(symbols: seq<Symbol>, s: Symbol) returns (k: nat)
    requires s in symbols
    ensures k < |symbols| && Sorted(symbols)[k] == s
  {
    SortedIsPermutation(symbols);
    assert s in multiset(Sorted(symbols));
    k :| 0 <= k < |Sorted(symbols)| && Sorted(symbols)[k] == s;
  }

  /** Every security id is an index in the range of the symbol's place in the sorted list. */
  ghost predicate IdsInPlace(symbols: seq<Symbol>, n: nat)
    requires n >= 1
  {
    forall k | 0 <= k < |symbols| :: SameRange(|symbols|, n, Sorted(symbols)[k].securityId, k)
  }

  /** The two methods agree on the symbols exactly when every security id is in place. */
  lemma SymbolsAgreeIff(symbols: seq<Symbol>, n: nat)
    requires n >= 1
    ensures SymbolsAgree(symbols, n) <==> IdsInPlace(symbols, n)
  {
    if SymbolsAgree(symbols, n) {
      AgreeingIsInPlace(symbols, n);
    }
    if IdsInPlace(symbols, n) {
      hide InRange, Slice, IdsInPlace;
      forall id: nat, s | 1 <= id <= n && s in symbols
        ensures InRange(Instance(id, n), |symbols|, s.securityId) <==> s in Slice(symbols, n, id)
      {
        SymbolAgrees(symbols, n, id, s);
      }
    }
  }

  lemma AgreeingIsInPlace(symbols: seq<Symbol>, n: nat)
    requires n >= 1 && SymbolsAgree(symbols, n)
    ensures IdsInPlace(symbols, n)
  {
    hide InRange, RangeOf, Slice, Sorted;
    SortedIsPermutation(symbols);
    forall k: nat | k < |symbols| ensures SameRange(|symbols|, n, Sorted(symbols)[k].securityId, k) {
      RangeOfBounds(|symbols|, n, k);
      var id, s := RangeOf(|symbols|, n, k), Sorted(symbols)[k];
      InSlice(symbols, n, id, k);
      assert s in multiset(Sorted(symbols));
      assert s in symbols;
      OwnerIs(|symbols|, n, s.securityId, id);
    }
  }

  lemma SymbolAgrees(symbols: seq<Symbol>, n: nat, id: nat, s: Symbol)
    requires 1 <= id <= n && s in symbols && IdsInPlace(symbols, n)
    ensures InRange(Instance(id, n), |symbols|, s.securityId) <==> s in Slice(symbols, n, id)
  {
    hide InRange, RangeOf, Slice, Sorted;
    var place := PlaceOf(symbols, s);
    OwnerIs(|symbols|, n, s.securityId, id);
    assert SameRange(|symbols|, n, Sorted(symbols)[place].securityId, place);
    if s in Slice(symbols, n, id) {
      var k := PlaceInSlice(symbols, n, id, s);
      assert SameRange(|symbols|, n, Sorted(symbols)[k].securityId, k);
    }
    if InRange(Instance(id, n), |symbols|, s.securityId) {
      InSlice(symbols, n, id, place);
    }
  }

  // ---------- hashing ----------

  /** The digest of a security id, as a number. */
  type Digest = int -> nat

  /** `_hash_symbol`, counted from 1. */
  function Owner(h: Digest, securityId: int, n: nat): (id: nat)
    requires n >= 1
    ensures 1 <= id <= n
  {
    h(securityId) % n + 1
  }

  /** Two symbols share an instance exactly when their digests differ by a multiple of the number of instances, and
      digests counting up from a multiple of it go to instances 1, 2 and so on. */
  lemma OwnersCycle(h: Digest, x: int, y: int, n: nat)
    requires n >= 1
    ensures Owner(h, x, n) == Owner(h, y, n) <==> (h(x) - h(y)) % n == 0
    ensures h(x) % n == 0 && h(x) <= h(y) < h(x) + n ==> Owner(h, y, n) == 1 + h(y) - h(x)
  {
    var a, b := h(x), h(y);
    var d, gap := a % n - b % n, a / n - b / n;
    assert a - b == gap * n + d by {
      assert gap * n == a / n * n - b / n * n;
    }
    if d >= 0 {
      QuotientUnique(a - b, n, gap, d);
    } else {
      assert (gap - 1) * n == gap * n - n;
      QuotientUnique(a - b, n, gap - 1, d + n);
    }
    if a % n == 0 && a <= b < a + n {
      QuotientUnique(b, n, a / n, b - a);
    }
  }

  function Assigned(h: Digest, inst: Instance, symbols: seq<Symbol>): seq<Symbol>
    requires inst.Valid()
  {
    if symbols == [] then []
    else (if Owner(h, symbols[0].securityId, inst.total) == inst.id then [symbols[0]] else [])
         + Assigned(h, inst, symbols[1..])
  }

  /** The counter of each instance is the length of the list that instance would be given. */
  method GetPartitionStats(h: Digest, inst: Instance, symbols: seq<Symbol>) returns (stats: map<nat, nat>)
    requires inst.Valid()
    ensures forall i :: i in stats <==> 1 <= i <= inst.total
    ensures forall i | 1 <= i <= inst.total :: stats[i] == |Assigned(h, Instance(i, inst.total), symbols)|
  {
    stats := map[];
    for i := 1 to inst.total + 1
      invariant forall j :: j in stats <==> 1 <= j < i
      invariant forall j | 1 <= j < i :: stats[j] == 0
    {
      stats := stats[i := 0];
    }
    for k := 0 to |symbols|
      invariant forall i :: i in stats <==> 1 <= i <= inst.total
      invariant forall i | 1 <= i <= inst.total ::
                  stats[i] + |Assigned(h, Instance(i, inst.total), symbols[k..])|
                  == |Assigned(h, Instance(i, inst.total), symbols)|
    {
      assert symbols[k..][1..] == symbols[k + 1..];
      var instance := Owner(h, symbols[k].securityId, inst.total);
      stats := stats[instance := stats[instance] + 1];
    }
  }

  /** What the first `i` instances are given together. */
  function Dealt(h: Digest, symbols: seq<Symbol>, n: nat, i: nat): multiset<Symbol>
    requires i <= n
  {
    if i == 0 then multiset{} else Dealt(h, symbols, n, i - 1) + multiset(Assigned(h, Instance(i, n), symbols))
  }

  lemma AssignedStep(h: Digest, symbols: seq<Symbol>, inst: Instance)
    requires inst.Valid() && symbols != []
    ensures multiset(Assigned(h, inst, symbols)) == multiset(Assigned(h, inst, symbols[1..]))
            + Only(symbols[0], Owner(h, symbols[0].securityId, inst.total) == inst.id)
  {
    hide Owner;
    var rest := Assigned(h, inst, symbols[1..]);
    if Owner(h, symbols[0].securityId, inst.total) == inst.id {
      assert Assigned(h, inst, symbols) == [symbols[0]] + rest;
    } else {
      assert Assigned(h, inst, symbols) == [] + rest == rest;
    }
  }

  function Only(symbol: Symbol, dealt: bool): multiset<Symbol> { if dealt then multiset{symbol} else multiset{} }

  lemma {:induction false} DealtStep(h: Digest, symbols: seq<Symbol>, n: nat, i: nat)
    requires i <= n && n >= 1 && symbols != []
    ensures Dealt(h, symbols, n, i)
         == Dealt(h, symbols[1..], n, i) + Only(symbols[0], Owner(h, symbols[0].securityId, n) <= i)
  {
    hide Assigned, Owner;
    if i == 0 {
    } else {
      var owner, tail := Owner(h, symbols[0].securityId, n), symbols[1..];
      DealtStep(h, symbols, n, i - 1);
      AssignedStep(h, symbols, Instance(i, n));
      hide Only;
      OnlyOnce(symbols[0], owner, i);
    }
  }

  lemma OnlyTrue(symbol: Symbol)
    ensures Only(symbol, true) == multiset{symbol}
  {
  }

  lemma OnlyOnce(symbol: Symbol, owner: nat, i: nat)
    requires i > 0
    ensures Only(symbol, owner <= i) == Only(symbol, owner <= i - 1) + Only(symbol, owner == i)
  {
  }

  /** Whatever the digest, every symbol is dealt to exactly one instance. */
  lemma {:induction false} HashingCovers(h: Digest, symbols: seq<Symbol>, n: nat)
    requires n >= 1
    ensures Dealt(h, symbols, n, n) == multiset(symbols)
  {
    hide *;
    if symbols == [] {
      NothingDealt(h, n, n);
    } else {
      HashingCovers(h, symbols[1..], n);
      DealtStep(h, symbols, n, n);
      assert Owner(h, symbols[0].securityId, n) <= n;
      OnlyTrue(symbols[0]);
      assert symbols == [symbols[0]] + symbols[1..];
    }
  }

  lemma {:induction false} NothingDealt(h: Digest, n: nat, i: nat)
    requires i <= n
    ensures Dealt(h, [], n, i) == multiset{}
  {
    if i == 0 {
    } else {
      NothingDealt(h, n, i - 1);
    }
  }
}
