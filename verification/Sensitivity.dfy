/** How the American value moves with the asset price and with the strike. */
module Sensitivity {
  import opened RealArith
  import opened BinomialTree
  import opened AmericanOption

  lemma MovesAreLinear(m: Market, x: real, y: real)
    requires m.NoArbitrage()
    ensures Up(m, y - x) == Up(m, y) - Up(m, x) && Down(m, y - x) == Down(m, y) - Down(m, x)
    ensures x <= y ==> Up(m, x) <= Up(m, y) && Down(m, x) <= Down(m, y)
  {
    FactorBounds(m);
    if x <= y {
      MulMono(m.u, x, y);
      MulMono(m.d, x, y);
    }
  }

  /** A higher asset price never raises a put and never lowers a call, and moves either by at most as much. */
  lemma {:induction false} PriceSensitivity(m: Market, c: Contract, k: nat, x: real, y: real)
    requires m.NoArbitrage() && x <= y
    ensures c.kind == PE ==> 0.0 <= American(m, c, k, x) - American(m, c, k, y) <= y - x
    ensures c.kind == CE ==> 0.0 <= American(m, c, k, y) - American(m, c, k, x) <= y - x
    decreases k, 1
  {
    if k > 0 {
      hide HoldValue, Up, Down;
      ContinuationSensitivity(m, c, k, x, y);
    }
  }

  lemma {:induction false} ContinuationSensitivity(m: Market, c: Contract, k: nat, x: real, y: real)
    requires m.NoArbitrage() && x <= y && k > 0
    ensures c.kind == PE ==> 0.0 <= Continuation(m, c, k, x) - Continuation(m, c, k, y) <= y - x
    ensures c.kind == CE ==> 0.0 <= Continuation(m, c, k, y) - Continuation(m, c, k, x) <= y - x
    decreases k, 0
  {
    MovesAreLinear(m, x, y);
    PriceSensitivity(m, c, k - 1, Up(m, x), Up(m, y));
    PriceSensitivity(m, c, k - 1, Down(m, x), Down(m, y));
    hide HoldValue, Up, Down;
    var upX, downX := American(m, c, k - 1, Up(m, x)), American(m, c, k - 1, Down(m, x));
    var upY, downY := American(m, c, k - 1, Up(m, y)), American(m, c, k - 1, Down(m, y));
    if c.kind == PE {
      HoldAsset(m, upX, downX, upY, downY, y - x);
      HoldMono(m, upY, downY, upX, downX);
    } else {
      HoldAsset(m, upY, downY, upX, downX, y - x);
      HoldMono(m, upX, downX, upY, downY);
    }
  }

  /** The point a share `t` of the way from `y` to `x`. */
  function Mix(t: real, x: real, y: real): real {
    t * x + (1.0 - t) * y
  }

  lemma MixMono(t: real, x: real, y: real, x': real, y': real)
    requires 0.0 <= t <= 1.0 && x <= x' && y <= y'
    ensures Mix(t, x, y) <= Mix(t, x', y')
  {
    var q := 1.0 - t;
    MulNonNegative(t, x' - x);
    MulNonNegative(q, y' - y);
    assert Mix(t, x', y') - Mix(t, x, y) == t * (x' - x) + q * (y' - y);
  }

  lemma MixScale(t: real, x: real, y: real, f: real)
    ensures Mix(t, x, y) * f == Mix(t, x * f, y * f)
  {
    assert (t * x) * f == t * (x * f) && ((1.0 - t) * y) * f == (1.0 - t) * (y * f);
  }

  lemma MixMoves(m: Market, t: real, x: real, y: real)
    ensures Up(m, Mix(t, x, y)) == Mix(t, Up(m, x), Up(m, y))
    ensures Down(m, Mix(t, x, y)) == Mix(t, Down(m, x), Down(m, y))
  {
    MixScale(t, x, y, m.u);
    MixScale(t, x, y, m.d);
  }

  lemma MixHold(m: Market, t: real, up: real, down: real, up': real, down': real)
    ensures HoldValue(m, Mix(t, up, up'), Mix(t, down, down'))
            == Mix(t, HoldValue(m, up, down), HoldValue(m, up', down'))
  {
    HoldForm(m, Mix(t, up, up'), Mix(t, down, down'));
    HoldForm(m, up, down);
    HoldForm(m, up', down');
    var a, b := UpPrice(m), DownPrice(m);
    MixScale(t, up, up', a);
    MixScale(t, down, down', b);
    MixSum(t, up * a, up' * a, down * b, down' * b);
  }

  lemma MixSum(t: real, x: real, y: real, x': real, y': real)
    ensures Mix(t, x, y) + Mix(t, x', y') == Mix(t, x + x', y + y')
  {
  }

  lemma MixMax(t: real, x: real, x': real, y: real, y': real)
    requires 0.0 <= t <= 1.0
    ensures Mix(t, x, y) <= Mix(t, Max(x, x'), Max(y, y')) && Mix(t, x', y') <= Mix(t, Max(x, x'), Max(y, y'))
  {
    MixMono(t, x, y, Max(x, x'), Max(y, y'));
    MixMono(t, x', y', Max(x, x'), Max(y, y'));
  }

  lemma PayoffConvex(c: Contract, t: real, x: real, y: real)
    requires 0.0 <= t <= 1.0
    ensures Payoff(c, Mix(t, x, y)) <= Mix(t, Payoff(c, x), Payoff(c, y))
  {
    var s := if c.kind == CE then 1.0 else -1.0;
    MixMono(t, 0.0, 0.0, Payoff(c, x), Payoff(c, y));
    MixMono(t, s * (x - c.strike), s * (y - c.strike), Payoff(c, x), Payoff(c, y));
    assert Mix(t, s * (x - c.strike), s * (y - c.strike)) == s * (Mix(t, x, y) - c.strike);
  }

  /** The value is convex in the asset price, for puts and calls alike. */
  lemma {:induction false} PriceConvexity(m: Market, c: Contract, k: nat, t: real, x: real, y: real)
    requires m.NoArbitrage() && 0.0 <= t <= 1.0
    ensures American(m, c, k, Mix(t, x, y)) <= Mix(t, American(m, c, k, x), American(m, c, k, y))
  {
    hide HoldValue, Up, Down, Mix, Payoff;
    PayoffConvex(c, t, x, y);
    if k == 0 {
    } else {
      var z := Mix(t, x, y);
      MixMoves(m, t, x, y);
      PriceConvexity(m, c, k - 1, t, Up(m, x), Up(m, y));
      PriceConvexity(m, c, k - 1, t, Down(m, x), Down(m, y));
      var upX, downX := American(m, c, k - 1, Up(m, x)), American(m, c, k - 1, Down(m, x));
      var upY, downY := American(m, c, k - 1, Up(m, y)), American(m, c, k - 1, Down(m, y));
      HoldMono(m, American(m, c, k - 1, Up(m, z)), American(m, c, k - 1, Down(m, z)),
               Mix(t, upX, upY), Mix(t, downX, downY));
      MixHold(m, t, upX, downX, upY, downY);
      MixMax(t, HoldValue(m, upX, downX), Payoff(c, x), HoldValue(m, upY, downY), Payoff(c, y));
    }
  }

  // ---------- the strike ----------

  lemma PayoffConvexInStrike(kind: OptionType, t: real, a: real, b: real, x: real)
    requires 0.0 <= t <= 1.0
    ensures Payoff(Contract(kind, Mix(t, a, b)), x)
            <= Mix(t, Payoff(Contract(kind, a), x), Payoff(Contract(kind, b), x))
  {
    var s := if kind == CE then -1.0 else 1.0;
    MixMono(t, 0.0, 0.0, Payoff(Contract(kind, a), x), Payoff(Contract(kind, b), x));
    MixMono(t, s * (a - x), s * (b - x), Payoff(Contract(kind, a), x), Payoff(Contract(kind, b), x));
    assert Mix(t, s * (a - x), s * (b - x)) == s * (Mix(t, a, b) - x);
  }

  /** The value is convex in the strike, for puts and calls alike. */
  lemma {:induction false} StrikeConvexity(m: Market, kind: OptionType, k: nat, t: real, a: real, b: real, x: real)
    requires m.NoArbitrage() && 0.0 <= t <= 1.0
    ensures American(m, Contract(kind, Mix(t, a, b)), k, x)
            <= Mix(t, American(m, Contract(kind, a), k, x), American(m, Contract(kind, b), k, x))
  {
    hide HoldValue, Up, Down, Mix, Payoff;
    PayoffConvexInStrike(kind, t, a, b, x);
    if k == 0 {
    } else {
      var c, cA, cB := Contract(kind, Mix(t, a, b)), Contract(kind, a), Contract(kind, b);
      StrikeConvexity(m, kind, k - 1, t, a, b, Up(m, x));
      StrikeConvexity(m, kind, k - 1, t, a, b, Down(m, x));
      var upA, downA := American(m, cA, k - 1, Up(m, x)), American(m, cA, k - 1, Down(m, x));
      var upB, downB := American(m, cB, k - 1, Up(m, x)), American(m, cB, k - 1, Down(m, x));
      HoldMono(m, American(m, c, k - 1, Up(m, x)), American(m, c, k - 1, Down(m, x)),
               Mix(t, upA, upB), Mix(t, downA, downB));
      MixHold(m, t, upA, downA, upB, downB);
      MixMax(t, HoldValue(m, upA, downA), Payoff(cA, x), HoldValue(m, upB, downB), Payoff(cB, x));
    }
  }

  /** An amount, or with negative interest the amount grown back over the steps left. */
  function GrownBack(m: Market, amount: real, k: nat): real {
    Max(1.0, Pow(m.discount, k)) * amount
  }

  /**
   * Raising the strike raises a put and lowers a call: by at most the change in strike when interest is not negative,
   * and in any case by at most that change grown back.
   */
  lemma {:induction false} StrikeSensitivity(m: Market, kind: OptionType, k: nat, x: real, low: real, high: real)
    requires m.NoArbitrage() && low <= high
    ensures var vLow, vHigh := American(m, Contract(kind, low), k, x), American(m, Contract(kind, high), k, x);
            && (kind == PE ==> 0.0 <= vHigh - vLow <= GrownBack(m, high - low, k))
            && (kind == CE ==> 0.0 <= vLow - vHigh <= GrownBack(m, high - low, k))
    ensures m.growth >= 1.0 ==> GrownBack(m, high - low, k) == high - low
  {
    NoGrowingBack(m, high - low, k);
    if k == 0 {
      assert GrownBack(m, high - low, k) == high - low by { NothingGrown(m, high - low); }
    } else {
      var cLow, cHigh := Contract(kind, low), Contract(kind, high);
      hide HoldValue, Up, Down, GrownBack, Market.NoArbitrage;
      StrikeSensitivity(m, kind, k - 1, Up(m, x), low, high);
      StrikeSensitivity(m, kind, k - 1, Down(m, x), low, high);
      var upLow, downLow := American(m, cLow, k - 1, Up(m, x)), American(m, cLow, k - 1, Down(m, x));
      var upHigh, downHigh := American(m, cHigh, k - 1, Up(m, x)), American(m, cHigh, k - 1, Down(m, x));
      if kind == PE {
        HoldGap(m, high - low, k, upHigh, downHigh, upLow, downLow);
        HoldMono(m, upLow, downLow, upHigh, downHigh);
      } else {
        HoldGap(m, high - low, k, upLow, downLow, upHigh, downHigh);
        HoldMono(m, upHigh, downHigh, upLow, downLow);
      }
    }
  }

  /** Intrinsic value below, and the asset price above a call, whatever the interest. */
  lemma {:induction false} PriceBounds(m: Market, c: Contract, k: nat, x: real)
    requires m.NoArbitrage() && x >= 0.0
    ensures Payoff(c, x) <= American(m, c, k, x)
    ensures c.kind == CE && c.strike >= 0.0 ==> American(m, c, k, x) <= x
  {
    if k == 0 {
    } else {
      hide HoldValue, Up, Down;
      NonNegativeMoves(m, x);
      PriceBounds(m, c, k - 1, Up(m, x));
      PriceBounds(m, c, k - 1, Down(m, x));
      if c.kind == CE && c.strike >= 0.0 {
        HoldAsset(m, American(m, c, k - 1, Up(m, x)), American(m, c, k - 1, Down(m, x)), 0.0, 0.0, x);
      }
    }
  }

  /** A put is worth at most its strike when interest is not negative, and in any case at most the strike grown back. */
  lemma {:induction false} PutBelowStrike(m: Market, c: Contract, k: nat, x: real)
    requires m.NoArbitrage() && c.kind == PE && c.strike >= 0.0 && x >= 0.0
    ensures American(m, c, k, x) <= GrownBack(m, c.strike, k)
    ensures m.growth >= 1.0 ==> American(m, c, k, x) <= c.strike
  {
    NoGrowingBack(m, c.strike, k);
    if k == 0 {
      NothingGrown(m, c.strike);
    } else {
      hide HoldValue, Up, Down, GrownBack, Market.NoArbitrage;
      NonNegativeMoves(m, x);
      PutBelowStrike(m, c, k - 1, Up(m, x));
      PutBelowStrike(m, c, k - 1, Down(m, x));
      HoldGap(m, c.strike, k, American(m, c, k - 1, Up(m, x)), American(m, c, k - 1, Down(m, x)), 0.0, 0.0);
    }
  }

  lemma NothingGrown(m: Market, amount: real)
    ensures GrownBack(m, amount, 0) == amount
  {
    assert Pow(m.discount, 0) == 1.0;
  }

  lemma NoGrowingBack(m: Market, amount: real, k: nat)
    requires m.NoArbitrage()
    ensures m.growth >= 1.0 ==> GrownBack(m, amount, k) == amount
  {
    FactorBounds(m);
    if m.growth >= 1.0 {
      PowAtMostOne(m.discount, k);
    }
  }

  /** Successors that differ by at most the amount grown back over one step less. */
  lemma HoldGap(m: Market, amount: real, k: nat, up: real, down: real, up': real, down': real)
    requires m.NoArbitrage() && k > 0 && amount >= 0.0
    requires up <= up' + GrownBack(m, amount, k - 1) && down <= down' + GrownBack(m, amount, k - 1)
    ensures HoldValue(m, up, down) <= HoldValue(m, up', down') + GrownBack(m, amount, k)
    ensures amount <= GrownBack(m, amount, k)
  {
    FactorBounds(m);
    NonNegativeMoves(m, 0.0);
    BoundStep(m, amount, k);
    HoldSurplus(m, up, down, up', down', 0.0, GrownBack(m, amount, k - 1));
    hide *;
  }

  lemma NonNegativeMoves(m: Market, x: real)
    requires m.NoArbitrage() && x >= 0.0
    ensures Up(m, x) >= 0.0 && Down(m, x) >= 0.0
    ensures Up(m, 0.0) == 0.0 && Down(m, 0.0) == 0.0 && HoldValue(m, 0.0, 0.0) == 0.0
  {
    FactorBounds(m);
    MulNonNegative(m.u, x);
    MulNonNegative(m.d, x);
  }

  lemma BoundStep(m: Market, amount: real, k: nat)
    requires m.discount > 0.0 && k > 0 && amount >= 0.0
    ensures 0.0 <= GrownBack(m, amount, k - 1) && GrownBack(m, amount, k - 1) * m.discount <= GrownBack(m, amount, k)
    ensures amount <= GrownBack(m, amount, k)
  {
    DiscountedFactor(m.discount, k);
    hide Pow;
    ScaledBound(Max(1.0, Pow(m.discount, k - 1)), Max(1.0, Pow(m.discount, k)), m.discount, amount,
                GrownBack(m, amount, k - 1), GrownBack(m, amount, k));
  }

  lemma ScaledBound(f: real, f': real, d: real, strike: real, bound: real, bound': real)
    requires f >= 1.0 && f' >= 1.0 && f * d <= f' && strike >= 0.0
    requires bound == f * strike && bound' == f' * strike
    ensures 0.0 <= bound && bound * d <= bound' && strike <= bound'
  {
    MulNonNegative(f, strike);
    MulMono(strike, f * d, f');
    MulMono(strike, 1.0, f');
    assert bound * d == strike * (f * d);
  }

  lemma DiscountedFactor(d: real, k: nat)
    requires d > 0.0 && k > 0
    ensures Max(1.0, Pow(d, k - 1)) * d <= Max(1.0, Pow(d, k))
  {
    if d > 1.0 {
      PowAtLeastOne(d, k - 1);
    } else {
      PowAtMostOne(d, k - 1);
    }
  }

  /** More steps left never lower the value. */
  lemma {:induction false} StepsSensitivity(m: Market, c: Contract, k: nat, x: real)
    requires m.NoArbitrage()
    ensures American(m, c, k, x) <= American(m, c, k + 1, x)
  {
    if k == 0 {
    } else {
      hide HoldValue, Up, Down;
      StepsSensitivity(m, c, k - 1, Up(m, x));
      StepsSensitivity(m, c, k - 1, Down(m, x));
      HoldMono(m, American(m, c, k - 1, Up(m, x)), American(m, c, k - 1, Down(m, x)),
               American(m, c, k, Up(m, x)), American(m, c, k, Down(m, x)));
    }
  }
}
