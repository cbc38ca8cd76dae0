/** Boolean-mask indexing: gather reads the selected elements, scatter writes them back in order. */
module Masks {

  /** How many of the first `n` positions are selected. */
  function Rank(mask: seq<bool>, n: nat): nat
    requires n <= |mask|
  {
    if n == 0 then 0 else Rank(mask, n - 1) + if mask[n - 1] then 1 else 0
  }

  function Count(mask: seq<bool>): nat {
    Rank(mask, |mask|)
  }

  /** The selected ones among the first `n` positions. */
  function Positions(mask: seq<bool>, n: nat): (r: seq<nat>)
    requires n <= |mask|
    ensures |r| == Rank(mask, n)
  {
    if n == 0 then [] else Positions(mask, n - 1) + if mask[n - 1] then [n - 1] else []
  }

  /** Position and rank are inverse to each other on the selected elements. */
  lemma {:induction false} PositionOfRank(mask: seq<bool>, n: nat, i: nat)
    requires i < n <= |mask| && mask[i]
    ensures Rank(mask, i) < |Positions(mask, n)| && Positions(mask, n)[Rank(mask, i)] == i
  {
    if i < n - 1 {
      PositionOfRank(mask, n - 1, i);
    }
  }

  lemma {:induction false} RankOfPosition(mask: seq<bool>, n: nat, j: nat)
    requires n <= |mask| && j < Rank(mask, n)
    ensures Positions(mask, n)[j] < n && mask[Positions(mask, n)[j]] && Rank(mask, Positions(mask, n)[j]) == j
  {
    if j < Rank(mask, n - 1) {
      RankOfPosition(mask, n - 1, j);
    }
  }

  lemma {:induction false} RankBelow(mask: seq<bool>, i: nat)
    requires i < |mask| && mask[i]
    ensures Rank(mask, i) < Count(mask)
  {
    PositionOfRank(mask, |mask|, i);
  }

  /** `xs[mask]` */
  function Gather<T>(mask: seq<bool>, xs: seq<T>): (r: seq<T>)
    requires |mask| == |xs|
    ensures |r| == Count(mask)
  {
    seq(Count(mask), j requires 0 <= j < Count(mask) =>
      RankOfPosition(mask, |mask|, j);
      xs[Positions(mask, |mask|)[j]])
  }

  /** The array after `base[mask] = vals`. */
  function Scatter<T>(base: seq<T>, mask: seq<bool>, vals: seq<T>): (r: seq<T>)
    requires |mask| == |base| && |vals| == Count(mask)
    ensures |r| == |base|
  {
    seq(|base|, i requires 0 <= i < |base| =>
      if mask[i] then RankBelow(mask, i); vals[Rank(mask, i)] else base[i])
  }

  function Not(mask: seq<bool>): (r: seq<bool>)
    ensures |r| == |mask|
  {
    seq(|mask|, i requires 0 <= i < |mask| => !mask[i])
  }

  lemma GatherAt<T>(mask: seq<bool>, xs: seq<T>, i: nat)
    requires |mask| == |xs| && i < |mask| && mask[i]
    ensures Rank(mask, i) < |Gather(mask, xs)| && Gather(mask, xs)[Rank(mask, i)] == xs[i]
  {
    PositionOfRank(mask, |mask|, i);
  }

  lemma GatherAll<T>(mask: seq<bool>, xs: seq<T>)
    requires |mask| == |xs|
    ensures forall i | 0 <= i < |mask| && mask[i] ::
              Rank(mask, i) < Count(mask) && Gather(mask, xs)[Rank(mask, i)] == xs[i]
  {
    forall i | 0 <= i < |mask| && mask[i]
      ensures Rank(mask, i) < Count(mask) && Gather(mask, xs)[Rank(mask, i)] == xs[i]
    {
      GatherAt(mask, xs, i);
    }
  }

  /** Gathering picks only selected elements, so what holds of those holds of the result. */
  lemma GatherFrom<T>(mask: seq<bool>, xs: seq<T>, j: nat) returns (i: nat)
    requires |mask| == |xs| && j < Count(mask)
    ensures i < |mask| && mask[i] && Rank(mask, i) == j && Gather(mask, xs)[j] == xs[i]
  {
    RankOfPosition(mask, |mask|, j);
    i := Positions(mask, |mask|)[j];
  }

  /** NumPy's masked assignment. */
  method AssignWhere<T>(a: array<T>, mask: seq<bool>, vals: seq<T>)
    requires |mask| == a.Length && |vals| == Count(mask)
    modifies a
    ensures a[..] == Scatter(old(a[..]), mask, vals)
  {
    forall i | 0 <= i < a.Length && mask[i]
      ensures Rank(mask, i) < |vals|
    {
      RankBelow(mask, i);
    }
    forall i | 0 <= i < a.Length && mask[i] {
      a[i] := vals[Rank(mask, i)];
    }
  }
}
