/** OptionPricer.binomial_tree: an American option on a recombining tree.

    The up factor `u` and the one-step growth `exp(r * dt)` are inputs, so that all
    arithmetic is exact; `exp(-r * dt)` is one over the growth. */
module BinomialTree {
  import opened RealArith

  datatype OptionType = CE | PE

  datatype Contract = Contract(kind: OptionType, strike: real)

  /** One step of the tree: up and down factors, `exp(r * dt)`, its inverse and the up probability. */
  datatype Market = Market(u: real, d: real, growth: real, discount: real, p: real) {

    /** What the early-exercise theory needs of the five numbers: `p` is a probability that makes the
        asset earn exactly `growth`. */
    predicate NoArbitrage() {
      && u > 1.0 && u * d == 1.0
      && growth > 0.0 && discount * growth == 1.0
      && 0.0 < p < 1.0 && p * u + (1.0 - p) * d == growth
    }
  }

  lemma UnequalMoves(u: real)
    requires u > 0.0 && u != 1.0
    ensures u - 1.0 / u != 0.0
  {
    assert u * (u - 1.0 / u) == u * u - 1.0 == (u - 1.0) * (u + 1.0);
  }

  /** The parameters the source derives from the up factor and the growth. */
  function Parameters(u: real, growth: real): Market
    requires u > 0.0 && u != 1.0 && growth > 0.0
  {
    UnequalMoves(u);
    var d := 1.0 / u;
    Market(u, d, growth, 1.0 / growth, (growth - d) / (u - d))
  }

  lemma Weights(u: real, d: real, g: real, p: real)
    requires d < u && p * (u - d) == g - d
    ensures p * u + (1.0 - p) * d == g
    ensures 0.0 < p < 1.0 <==> d < g < u
  {
    var w, q := u - d, 1.0 - p;
    assert p * u + q * d == p * w + d;
    assert q * w == w - p * w == u - g;
    SignOfProduct(p, w);
    SignOfProduct(q, w);
  }

  lemma SignOfProduct(a: real, w: real)
    requires w > 0.0
    ensures a > 0.0 <==> a * w > 0.0
  {
    if a <= 0.0 {
      MulNonNegative(-a, w);
    }
  }

  /** The derived `p` is a risk-neutral probability exactly when the growth lies between the moves. */
  lemma ParametersNoArbitrage(u: real, growth: real)
    requires u > 1.0 && growth > 0.0
    ensures Parameters(u, growth).NoArbitrage() <==> 1.0 / u < growth < u
  {
    var m := Parameters(u, growth);
    UnequalMoves(u);
    assert u * m.d == 1.0;
    assert m.d < u;
    Weights(u, m.d, growth, m.p);
    assert m.discount * growth == 1.0;
  }

  /** max(price - strike, 0) or max(strike - price, 0). */
  function Payoff(c: Contract, price: real): real {
    if c.kind == CE then Max(price - c.strike, 0.0) else Max(c.strike - price, 0.0)
  }

  /** spot * u ** (step - i) * d ** i: the price after `step` moves of which `i` were down. */
  function AssetPrice(m: Market, spot: real, step: nat, i: nat): real
    requires i <= step
  {
    spot * Pow(m.u, step - i) * Pow(m.d, i)
  }

  /** The asset price after one more move. */
  function Up(m: Market, x: real): real {
    x * m.u
  }

  function Down(m: Market, x: real): real {
    x * m.d
  }

  /** What holding the option one more step is worth, from its two successor values. */
  function HoldValue(m: Market, up: real, down: real): real {
    m.discount * (m.p * up + (1.0 - m.p) * down)
  }

  /** The value of the option at a node, by recursion towards expiry. */
  function NodeValue(m: Market, c: Contract, spot: real, steps: nat, step: nat, i: nat): real
    requires i <= step <= steps
    decreases steps - step
  {
    var exercise := Payoff(c, AssetPrice(m, spot, step, i));
    if step == steps then exercise
    else
      Max(HoldValue(m, NodeValue(m, c, spot, steps, step + 1, i), NodeValue(m, c, spot, steps, step + 1, i + 1)),
          exercise)
  }

  datatype Quote = Quote(theoreticalPrice: real, intrinsicValue: real, timeValue: real)

  datatype PricingResult = Priced(quote: Quote) | ArithmeticError

  /** The nested loops of the source over one array. Index `i` of a finished row is read once more,
      as a right neighbour, before the next row overwrites it; index `j` is last written in row `j`. */
  method InduceBackward(m: Market, c: Contract, spot: real, steps: nat, optionValues: array<real>)
    requires optionValues.Length == steps + 1
    requires forall i :: 0 <= i <= steps ==> optionValues[i] == Payoff(c, AssetPrice(m, spot, steps, i))
    modifies optionValues
    ensures forall j :: 0 <= j <= steps ==> optionValues[j] == NodeValue(m, c, spot, steps, j, j)
  {
    for step := steps downto 0
      invariant forall i :: 0 <= i <= step ==> optionValues[i] == NodeValue(m, c, spot, steps, step, i)
      invariant forall j :: step < j <= steps ==> optionValues[j] == NodeValue(m, c, spot, steps, j, j)
    {
      for i := 0 to step + 1
        invariant forall j :: 0 <= j < i ==> optionValues[j] == NodeValue(m, c, spot, steps, step, j)
        invariant forall j :: i <= j <= step + 1 ==> optionValues[j] == NodeValue(m, c, spot, steps, step + 1, j)
        invariant forall j :: step + 1 < j <= steps ==> optionValues[j] == NodeValue(m, c, spot, steps, j, j)
      {
        var hold := HoldValue(m, optionValues[i], optionValues[i + 1]);
        var assetPrice := AssetPrice(m, spot, step, i);
        var exercise := Payoff(c, assetPrice);
        optionValues[i] := Max(hold, exercise);
      }
    }
  }

  /** The two initialisation loops: prices at expiry, then payoffs at expiry. */
  method InitializeAtMaturity(m: Market, c: Contract, spot: real, steps: nat) returns (optionValues: array<real>)
    ensures fresh(optionValues) && optionValues.Length == steps + 1
    ensures forall i :: 0 <= i <= steps ==> optionValues[i] == Payoff(c, AssetPrice(m, spot, steps, i))
  {
    var assetPrices := new real[steps + 1];
    for i := 0 to steps + 1
      invariant forall j :: 0 <= j < i ==> assetPrices[j] == AssetPrice(m, spot, steps, j)
    {
      assetPrices[i] := AssetPrice(m, spot, steps, i);
    }
    optionValues := new real[steps + 1];
    for i := 0 to steps + 1
      invariant forall j :: 0 <= j <= steps ==> assetPrices[j] == AssetPrice(m, spot, steps, j)
      invariant forall j :: 0 <= j < i ==> optionValues[j] == Payoff(c, AssetPrice(m, spot, steps, j))
    {
      optionValues[i] := Payoff(c, assetPrices[i]);
    }
  }

  lemma RootFacts(m: Market, c: Contract, spot: real, steps: nat)
    requires steps > 0
    ensures AssetPrice(m, spot, 0, 0) == spot
    ensures NodeValue(m, c, spot, steps, 0, 0) >= Payoff(c, spot)
  {
    assert Pow(m.u, 0) == 1.0 && Pow(m.d, 0) == 1.0;
  }

  /** The time value needs no clamp: the early-exercise maximum at the root already covers it. */
  method PriceOption(spot: real, u: real, growth: real, c: Contract, steps: int) returns (r: PricingResult)
    requires u > 0.0 && growth > 0.0
    ensures r.ArithmeticError? <==> steps <= 0 || u == 1.0
    ensures r.Priced? ==>
              && r.quote.theoreticalPrice == NodeValue(Parameters(u, growth), c, spot, steps, 0, 0)
              && r.quote.intrinsicValue == (var gain := if c.kind == CE then spot - c.strike else c.strike - spot;
                                            if gain > 0.0 then gain else 0.0)
              && r.quote.theoreticalPrice >= r.quote.intrinsicValue
              && r.quote.timeValue == r.quote.theoreticalPrice - r.quote.intrinsicValue
  {
    if steps <= 0 || u == 1.0 {
      return ArithmeticError;
    }
    var m := Parameters(u, growth);
    var optionValues := InitializeAtMaturity(m, c, spot, steps);
    InduceBackward(m, c, spot, steps, optionValues);
    var price := optionValues[0];
    var intrinsic := Payoff(c, spot);
    RootFacts(m, c, spot, steps);
    return Priced(Quote(price, intrinsic, Max(price - intrinsic, 0.0)));
  }
}
