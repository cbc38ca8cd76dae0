/** Exact real arithmetic shared by the pricing and finance models. */
module RealArith {

  function Max(a: real, b: real): real {
    if a >= b then a else b
  }

  /** Integer powers, as Python's `x ** n` for n >= 0. */
  function Pow(x: real, n: nat): real {
    if n == 0 then 1.0 else x * Pow(x, n - 1)
  }

  lemma {:induction false} PowPositive(x: real, n: nat)
    requires x > 0.0
    ensures Pow(x, n) > 0.0
  {
    if n == 0 {
    } else {
      PowPositive(x, n - 1);
    }
  }

  lemma {:induction false} PowAtLeastOne(x: real, n: nat)
    requires x >= 1.0
    ensures Pow(x, n) >= 1.0
    ensures x > 1.0 && n > 0 ==> Pow(x, n) >= x
  {
    if n == 0 {
    } else {
      PowAtLeastOne(x, n - 1);
      MulMono(x, 1.0, Pow(x, n - 1));
    }
  }

  lemma {:induction false} PowAtMostOne(x: real, n: nat)
    requires 0.0 <= x <= 1.0
    ensures 0.0 <= Pow(x, n) <= 1.0
    ensures n > 0 ==> Pow(x, n) <= x
  {
    if n == 0 {
    } else {
      PowAtMostOne(x, n - 1);
      var w := Pow(x, n - 1);
      assert Pow(x, n) == x * w;
      MulNonNegative(x, w);
      MulNonNegative(x, 1.0 - w);
      assert x * (1.0 - w) == x - x * w;
    }
  }

  lemma {:induction false} PowOfOne(n: nat)
    ensures Pow(1.0, n) == 1.0
  {
    if n == 0 {
    } else {
      PowOfOne(n - 1);
    }
  }

  lemma MulMono(a: real, x: real, y: real)
    requires a >= 0.0 && x <= y
    ensures a * x <= a * y
  {
  }

  lemma MulNonNegative(a: real, x: real)
    requires a >= 0.0 && x >= 0.0
    ensures a * x >= 0.0
  {
  }

  lemma MulPositive(a: real, x: real)
    requires a > 0.0 && x > 0.0
    ensures a * x > 0.0
  {
  }
}
