/** Division of whole numbers. */
module IntArith {

  /** Quotient and remainder are the only pair that fits. */
  lemma QuotientUnique(a: int, b: nat, q: int, r: int)
    requires 0 <= r < b && a == q * b + r
    ensures a / b == q && a % b == r
  {
    var e := a / b - q;
    assert e * b == r - a % b;
  }
}
