/** The tree value as a function of the asset price, and how it depends on price and strike. */
module AmericanOption {
  import opened RealArith
  import opened BinomialTree

  /** The value with `k` steps left at asset price `x`. */
  function American(m: Market, c: Contract, k: nat, x: real): real {
    if k == 0 then Payoff(c, x)
    else Max(HoldValue(m, American(m, c, k - 1, Up(m, x)), American(m, c, k - 1, Down(m, x))), Payoff(c, x))
  }

  /** The hold value with `k` steps left at asset price `x`. */
  function Continuation(m: Market, c: Contract, k: nat, x: real): real
    requires k > 0
  {
    HoldValue(m, American(m, c, k - 1, Up(m, x)), American(m, c, k - 1, Down(m, x)))
  }

  lemma ChildPrices(m: Market, spot: real, step: nat, i: nat)
    requires i <= step
    ensures AssetPrice(m, spot, step + 1, i) == Up(m, AssetPrice(m, spot, step, i))
    ensures AssetPrice(m, spot, step + 1, i + 1) == Down(m, AssetPrice(m, spot, step, i))
  {
    var up, down := Pow(m.u, step - i), Pow(m.d, i);
    assert Pow(m.u, step + 1 - i) == m.u * up;
    assert spot * (m.u * up) * down == spot * up * down * m.u;
    assert Pow(m.d, i + 1) == m.d * down;
    assert spot * up * (m.d * down) == spot * up * down * m.d;
  }

  /** The array recursion over (step, index) depends on the node only through its price and the steps left. */
  lemma {:induction false} NodeIsAmerican(m: Market, c: Contract, spot: real, steps: nat, step: nat, i: nat)
    requires i <= step <= steps
    ensures NodeValue(m, c, spot, steps, step, i) == American(m, c, steps - step, AssetPrice(m, spot, step, i))
    decreases steps - step
  {
    if step < steps {
      NodeIsAmerican(m, c, spot, steps, step + 1, i);
      NodeIsAmerican(m, c, spot, steps, step + 1, i + 1);
      ChildPrices(m, spot, step, i);
    }
  }

  lemma PriceIsAmerican(m: Market, c: Contract, spot: real, steps: nat)
    ensures NodeValue(m, c, spot, steps, 0, 0) == American(m, c, steps, spot)
  {
    NodeIsAmerican(m, c, spot, steps, 0, 0);
    assert AssetPrice(m, spot, 0, 0) == spot by {
      assert Pow(m.u, 0) == 1.0 && Pow(m.d, 0) == 1.0;
    }
  }

  // ---------- the one-step pricing rule as two state prices ----------

  function UpPrice(m: Market): real {
    m.discount * m.p
  }

  function DownPrice(m: Market): real {
    m.discount * (1.0 - m.p)
  }

  /** The two state prices are positive, reprice the asset exactly, and sum to the discount factor. */
  lemma StatePrices(m: Market)
    requires m.NoArbitrage()
    ensures UpPrice(m) > 0.0 && DownPrice(m) > 0.0
    ensures UpPrice(m) * m.u + DownPrice(m) * m.d == 1.0
    ensures UpPrice(m) + DownPrice(m) == m.discount
  {
    MulPositive(m.discount, m.p);
    MulPositive(m.discount, 1.0 - m.p);
    var a, p, q, u, d := m.discount, m.p, 1.0 - m.p, m.u, m.d;
    assert a * p * u + a * q * d == a * (p * u + q * d);
    assert a > 0.0 by {
      if a <= 0.0 {
        MulNonNegative(-a, m.growth);
      }
    }
  }

  lemma HoldForm(m: Market, up: real, down: real)
    ensures HoldValue(m, up, down) == UpPrice(m) * up + DownPrice(m) * down
  {
    assert m.discount * (m.p * up) == UpPrice(m) * up;
    assert m.discount * ((1.0 - m.p) * down) == DownPrice(m) * down;
  }

  lemma WeightedBound(a: real, b: real, u: real, d: real, up: real, down: real, up': real, down': real,
                      x: real, cash: real)
    requires a >= 0.0 && b >= 0.0 && a * u + b * d == 1.0
    requires up <= up' + x * u + cash && down <= down' + x * d + cash
    ensures a * up + b * down <= a * up' + b * down' + x + cash * (a + b)
  {
    MulMono(a, up, up' + x * u + cash);
    MulMono(b, down, down' + x * d + cash);
    assert a * (up' + x * u + cash) == a * up' + x * (a * u) + cash * a;
    assert b * (down' + x * d + cash) == b * down' + x * (b * d) + cash * b;
    assert x * (a * u) + x * (b * d) == x * (a * u + b * d);
  }

  lemma FactorBounds(m: Market)
    requires m.NoArbitrage()
    ensures 0.0 < m.d < 1.0
    ensures 0.0 < m.discount
    ensures m.growth >= 1.0 ==> m.discount <= 1.0
  {
    if m.d <= 0.0 {
      MulNonNegative(m.u, -m.d);
    }
    if m.d >= 1.0 {
      MulMono(m.d, 1.0, m.u);
    }
    if m.discount <= 0.0 {
      MulNonNegative(m.growth, -m.discount);
    }
    if m.growth >= 1.0 {
      MulMono(m.discount, 1.0, m.growth);
    }
  }

  lemma HoldMono(m: Market, up: real, down: real, up': real, down': real)
    requires m.NoArbitrage() && up <= up' && down <= down'
    ensures HoldValue(m, up, down) <= HoldValue(m, up', down')
  {
    HoldSurplus(m, up, down, up', down', 0.0, 0.0);
  }

  /** A surplus of at most one unit of an asset worth `x` now is worth at most `x` now. */
  lemma HoldAsset(m: Market, up: real, down: real, up': real, down': real, x: real)
    requires m.NoArbitrage() && up <= up' + Up(m, x) && down <= down' + Down(m, x)
    ensures HoldValue(m, up, down) <= HoldValue(m, up', down') + x
  {
    HoldSurplus(m, up, down, up', down', x, 0.0);
  }

  /** A later cash surplus is worth no more now when interest is not negative. */
  lemma HoldCash(m: Market, up: real, down: real, up': real, down': real, cash: real)
    requires m.NoArbitrage() && m.growth >= 1.0 && cash >= 0.0
    requires up <= up' + cash && down <= down' + cash
    ensures HoldValue(m, up, down) <= HoldValue(m, up', down') + cash
  {
    FactorBounds(m);
    HoldSurplus(m, up, down, up', down', 0.0, cash);
    MulMono(cash, m.discount, 1.0);
  }

  lemma HoldSurplus(m: Market, up: real, down: real, up': real, down': real, x: real, cash: real)
    requires m.NoArbitrage() && up <= up' + Up(m, x) + cash && down <= down' + Down(m, x) + cash
    ensures HoldValue(m, up, down) <= HoldValue(m, up', down') + x + cash * m.discount
  {
    StatePrices(m);
    HoldForm(m, up, down);
    HoldForm(m, up', down');
    WeightedBound(UpPrice(m), DownPrice(m), m.u, m.d, up, down, up', down', x, cash);
  }
}
