/** Where exercising an American put is optimal: the early-exercise boundary, and its one exception. */
module PutBoundary {
  import opened RealArith
  import opened BinomialTree
  import opened AmericanOption
  import opened Sensitivity

  /** Exercising now is worth at least as much as holding. */
  ghost predicate ExerciseOptimal(m: Market, c: Contract, k: nat, x: real)
    requires k > 0
  {
    Payoff(c, x) >= Continuation(m, c, k, x)
  }

  /** The exercise region, of puts and calls, only grows towards expiry. */
  lemma ExerciseGrows(m: Market, c: Contract, k: nat, x: real)
    requires m.NoArbitrage() && k > 0
    ensures ExerciseOptimal(m, c, k + 1, x) ==> ExerciseOptimal(m, c, k, x)
  {
    hide HoldValue, Up, Down;
    StepsSensitivity(m, c, k - 1, Up(m, x));
    StepsSensitivity(m, c, k - 1, Down(m, x));
    HoldMono(m, American(m, c, k - 1, Up(m, x)), American(m, c, k - 1, Down(m, x)),
             American(m, c, k, Up(m, x)), American(m, c, k, Down(m, x)));
  }

  /** Not even `k` down moves bring a put in the money. */
  ghost predicate Worthless(m: Market, c: Contract, k: nat, x: real) {
    c.strike <= x * Pow(m.d, k)
  }

  lemma WorthlessSteps(m: Market, c: Contract, k: nat, x: real)
    requires m.NoArbitrage() && x > 0.0 && k > 0
    ensures Up(m, x) > 0.0 && Down(m, x) > 0.0
    ensures Worthless(m, c, k, x) <==> Worthless(m, c, k - 1, Down(m, x))
    ensures Worthless(m, c, k, x) ==> Worthless(m, c, k - 1, Up(m, x)) && Payoff(Contract(PE, c.strike), x) == 0.0
  {
    FactorBounds(m);
    PowPositive(m.d, k - 1);
    PowAtMostOne(m.d, k);
    MovesOrdered(m, x);
    WorthlessDown(m, c, k, x);
    if Worthless(m, c, k, x) {
      OutOfTheMoney(c, x, Pow(m.d, k));
      hide Up, Down, Pow, Worthless;
      WorthlessUp(m, c, k - 1, Down(m, x), Up(m, x));
    }
  }

  lemma MovesOrdered(m: Market, x: real)
    requires x > 0.0 && 0.0 < m.d < m.u
    ensures 0.0 < Down(m, x) <= Up(m, x)
  {
    MulPositive(x, m.d);
    MulMono(x, m.d, m.u);
  }

  lemma WorthlessDown(m: Market, c: Contract, k: nat, x: real)
    requires k > 0
    ensures Worthless(m, c, k, x) <==> Worthless(m, c, k - 1, Down(m, x))
  {
    var tail := Pow(m.d, k - 1);
    assert x * (m.d * tail) == Down(m, x) * tail;
  }

  lemma OutOfTheMoney(c: Contract, x: real, w: real)
    requires x > 0.0 && w <= 1.0 && c.strike <= x * w
    ensures Payoff(Contract(PE, c.strike), x) == 0.0
  {
    MulMono(x, w, 1.0);
  }

  lemma HoldZero(m: Market, up: real, down: real)
    requires m.NoArbitrage() && up >= 0.0 && down >= 0.0
    ensures HoldValue(m, up, down) >= 0.0
    ensures HoldValue(m, up, down) == 0.0 <==> up == 0.0 && down == 0.0
  {
    StatePrices(m);
    HoldForm(m, up, down);
    MulNonNegative(UpPrice(m), up);
    MulNonNegative(DownPrice(m), down);
    if up > 0.0 {
      MulPositive(UpPrice(m), up);
    }
    if down > 0.0 {
      MulPositive(DownPrice(m), down);
    }
  }

  /** A put is worth nothing exactly at the worthless prices. */
  lemma {:induction false} PutZero(m: Market, c: Contract, k: nat, x: real)
    requires m.NoArbitrage() && c.kind == PE && x > 0.0
    ensures American(m, c, k, x) >= 0.0
    ensures American(m, c, k, x) == 0.0 <==> Worthless(m, c, k, x)
    ensures k > 0 ==> Continuation(m, c, k, x) >= 0.0
    ensures k > 0 && Worthless(m, c, k, x) ==> Continuation(m, c, k, x) == 0.0
  {
    if k == 0 {
      assert Pow(m.d, 0) == 1.0;
    } else {
      hide HoldValue, Up, Down;
      WorthlessSteps(m, c, k, x);
      hide Worthless;
      PutZero(m, c, k - 1, Up(m, x));
      PutZero(m, c, k - 1, Down(m, x));
      HoldZero(m, American(m, c, k - 1, Up(m, x)), American(m, c, k - 1, Down(m, x)));
    }
  }

  /** Once exercising a put that can still pay is optimal, it is optimal at every lower price. */
  lemma ExerciseBelow(m: Market, c: Contract, k: nat, x: real, y: real)
    requires m.NoArbitrage() && c.kind == PE && k > 0 && x > 0.0 && y <= x
    requires ExerciseOptimal(m, c, k, x) && !Worthless(m, c, k, x)
    ensures ExerciseOptimal(m, c, k, y)
  {
    hide HoldValue, Up, Down, Worthless;
    PutZero(m, c, k, x);
    ContinuationSensitivity(m, c, k, y, x);
  }

  lemma AtTheMoney(m: Market, c: Contract, k: nat)
    requires m.NoArbitrage() && c.kind == PE && k > 0 && c.strike > 0.0
    ensures !ExerciseOptimal(m, c, k, c.strike)
  {
    FactorBounds(m);
    PowAtMostOne(m.d, k);
    var x, w := c.strike, Pow(m.d, k);
    MulPositive(x, 1.0 - w);
    assert x - x * w == x * (1.0 - w) > 0.0;
    assert !Worthless(m, c, k, x) && Payoff(c, x) == 0.0;
    hide HoldValue, Up, Down, Worthless;
    PutZero(m, c, k, x);
    assert American(m, c, k, x) == Max(Continuation(m, c, k, x), Payoff(c, x));
  }

  /** The exercise region reaches down from an optimal price exactly when the put can still pay there:
      at a worthless price exercising is a tie at zero, while at the money it is a mistake. */
  lemma PutBoundaryExact(m: Market, c: Contract, k: nat, x: real)
    requires m.NoArbitrage() && c.kind == PE && k > 0 && x > 0.0
    ensures ExerciseOptimal(m, c, k, x) ==>
              ((forall y | 0.0 < y <= x :: ExerciseOptimal(m, c, k, y))
               <==> (!Worthless(m, c, k, x) || c.strike <= 0.0))
  {
    if !ExerciseOptimal(m, c, k, x) {
      return;
    }
    if !Worthless(m, c, k, x) {
      forall y | 0.0 < y <= x
        ensures ExerciseOptimal(m, c, k, y)
      {
        ExerciseBelow(m, c, k, x, y);
      }
    } else if c.strike > 0.0 {
      AtTheMoney(m, c, k);
      WorthlessSteps(m, c, k, x);
      assert c.strike <= x;
    } else {
      FactorBounds(m);
      PowPositive(m.d, k);
      forall y | 0.0 < y <= x
        ensures ExerciseOptimal(m, c, k, y)
      {
        MulPositive(y, Pow(m.d, k));
        PutZero(m, c, k, y);
      }
    }
  }

  // ---------- the same on one row of the tree, where a larger index is a lower price ----------

  /** The comparison of the source's inner loop at (step, i). */
  ghost predicate NodeExercised(m: Market, c: Contract, spot: real, steps: nat, step: nat, i: nat)
    requires i <= step < steps
  {
    Payoff(c, AssetPrice(m, spot, step, i))
    >= HoldValue(m, NodeValue(m, c, spot, steps, step + 1, i), NodeValue(m, c, spot, steps, step + 1, i + 1))
  }

  ghost predicate NodeWorthless(m: Market, c: Contract, spot: real, steps: nat, step: nat, i: nat)
    requires i <= step < steps
  {
    Worthless(m, c, steps - step, AssetPrice(m, spot, step, i))
  }

  lemma NodeExercise(m: Market, c: Contract, spot: real, steps: nat, step: nat, i: nat)
    requires i <= step < steps
    ensures NodeExercised(m, c, spot, steps, step, i)
            <==> ExerciseOptimal(m, c, steps - step, AssetPrice(m, spot, step, i))
  {
    hide HoldValue, Payoff, AssetPrice, Up, Down;
    NodeIsAmerican(m, c, spot, steps, step + 1, i);
    NodeIsAmerican(m, c, spot, steps, step + 1, i + 1);
    ChildPrices(m, spot, step, i);
  }

  lemma PricePositive(m: Market, spot: real, step: nat, i: nat)
    requires m.NoArbitrage() && spot > 0.0 && i <= step
    ensures AssetPrice(m, spot, step, i) > 0.0
  {
    FactorBounds(m);
    PowPositive(m.u, step - i);
    PowPositive(m.d, i);
    MulPositive(spot, Pow(m.u, step - i));
    MulPositive(spot * Pow(m.u, step - i), Pow(m.d, i));
  }

  lemma NextPrice(m: Market, spot: real, step: nat, i: nat)
    requires m.NoArbitrage() && spot > 0.0 && i < step
    ensures AssetPrice(m, spot, step, i + 1) == Down(m, Down(m, AssetPrice(m, spot, step, i)))
    ensures 0.0 < AssetPrice(m, spot, step, i + 1) < AssetPrice(m, spot, step, i)
  {
    PricePositive(m, spot, step, i);
    PricePositive(m, spot, step, i + 1);
    TwoDowns(m, spot, Pow(m.u, step - i - 1), Pow(m.d, i));
    FactorBounds(m);
    DownBelow(m, AssetPrice(m, spot, step, i));
    DownBelow(m, Down(m, AssetPrice(m, spot, step, i)));
  }

  lemma DownPositive(m: Market, x: real)
    requires x > 0.0 && m.d > 0.0
    ensures Down(m, x) > 0.0
  {
    MulPositive(x, m.d);
  }

  lemma Shrinks(x: real, f: real)
    requires x > 0.0 && f < 1.0
    ensures x * f < x
  {
    if x * f >= x {
      MulPositive(x, 1.0 - f);
    }
  }

  lemma DownShrinks(m: Market, x: real)
    requires x > 0.0 && m.d < 1.0
    ensures Down(m, x) < x
  {
    Shrinks(x, m.d);
  }

  lemma DownBelow(m: Market, x: real)
    requires m.NoArbitrage() && x > 0.0
    ensures 0.0 < Down(m, x) < x
  {
    hide Down;
    FactorBounds(m);
    DownPositive(m, x);
    DownShrinks(m, x);
  }

  lemma TwoDowns(m: Market, spot: real, up: real, down: real)
    requires m.u * m.d == 1.0
    ensures spot * up * (m.d * down) == spot * (m.u * up) * down * m.d * m.d
  {
    assert spot * (m.u * up) * down * m.d * m.d == spot * up * (m.d * down) * (m.u * m.d);
  }

  lemma {:induction false} RowPrices(m: Market, spot: real, step: nat, i: nat, j: nat)
    requires m.NoArbitrage() && spot > 0.0 && i <= j <= step
    ensures AssetPrice(m, spot, step, j) <= AssetPrice(m, spot, step, i)
    decreases j - i
  {
    hide AssetPrice;
    if i < j {
      NextPrice(m, spot, step, i);
      RowPrices(m, spot, step, i + 1, j);
    }
  }

  /** Along a row: once a put that can still pay is exercised, it is exercised at every lower price. */
  lemma RowBoundary(m: Market, c: Contract, spot: real, steps: nat, step: nat, i: nat, j: nat)
    requires m.NoArbitrage() && c.kind == PE && spot > 0.0 && i <= j <= step < steps
    requires NodeExercised(m, c, spot, steps, step, i) && !NodeWorthless(m, c, spot, steps, step, i)
    ensures NodeExercised(m, c, spot, steps, step, j)
  {
    NodeExercise(m, c, spot, steps, step, i);
    NodeExercise(m, c, spot, steps, step, j);
    RowPrices(m, spot, step, i, j);
    PricePositive(m, spot, step, i);
    hide *;
    ExerciseBelow(m, c, steps - step, AssetPrice(m, spot, step, i), AssetPrice(m, spot, step, j));
  }

  lemma WorthlessUp(m: Market, c: Contract, k: nat, x: real, y: real)
    requires x <= y && Worthless(m, c, k, x) && Pow(m.d, k) >= 0.0
    ensures Worthless(m, c, k, y)
  {
    var w := Pow(m.d, k);
    MulMono(w, x, y);
    assert w * x == x * w && w * y == y * w;
  }

  lemma WorthlessAbove(m: Market, c: Contract, k: nat, x: real, y: real)
    requires m.NoArbitrage() && c.kind == PE && k > 0 && 0.0 < x <= y && Worthless(m, c, k, x)
    ensures Worthless(m, c, k, y) && ExerciseOptimal(m, c, k, y)
  {
    FactorBounds(m);
    PowPositive(m.d, k);
    hide HoldValue, Up, Down, Pow, Worthless;
    WorthlessUp(m, c, k, x, y);
    PutZero(m, c, k, y);
  }

  /** Two down moves below a worthless price a put with two steps left is still not in the money. */
  lemma NotYetExercised(m: Market, c: Contract, k: nat, x: real)
    requires m.NoArbitrage() && c.kind == PE && k >= 2 && x > 0.0
    ensures Worthless(m, c, k, x) && !Worthless(m, c, k, Down(m, Down(m, x))) ==>
              !ExerciseOptimal(m, c, k, Down(m, Down(m, x)))
  {
    WorthlessSteps(m, c, k, x);
    WorthlessSteps(m, c, k - 1, Down(m, x));
    var y := Down(m, Down(m, x));
    hide HoldValue, Up, Down, Worthless;
    PutZero(m, c, k, y);
    if k == 2 {
      PutZero(m, c, 0, y);
    } else {
      WorthlessSteps(m, c, k - 2, y);
    }
  }

  lemma {:induction false} FirstLiveNode(m: Market, c: Contract, spot: real, steps: nat, step: nat, i: nat)
      returns (j: nat)
    requires m.NoArbitrage() && c.kind == PE && spot > 0.0 && i <= step && step + 2 <= steps
    requires NodeWorthless(m, c, spot, steps, step, i) && !NodeWorthless(m, c, spot, steps, step, step)
    ensures i < j <= step && !NodeExercised(m, c, spot, steps, step, j)
    decreases step - i
  {
    if NodeWorthless(m, c, spot, steps, step, i + 1) {
      j := FirstLiveNode(m, c, spot, steps, step, i + 1);
    } else {
      j := i + 1;
      PricePositive(m, spot, step, i);
      NextPrice(m, spot, step, i);
      NodeExercise(m, c, spot, steps, step, j);
      hide Worthless, ExerciseOptimal, AssetPrice, NodeExercised;
      NotYetExercised(m, c, steps - step, AssetPrice(m, spot, step, i));
    }
  }

  /** With at least two steps left, the whole row below an exercised node is exercised exactly when
      that node can still pay, or no node of the row can. */
  lemma RowBoundaryExact(m: Market, c: Contract, spot: real, steps: nat, step: nat, i: nat)
    requires m.NoArbitrage() && c.kind == PE && spot > 0.0 && i <= step && step + 2 <= steps
    requires NodeExercised(m, c, spot, steps, step, i)
    ensures (forall j | i <= j <= step :: NodeExercised(m, c, spot, steps, step, j))
            <==> (!NodeWorthless(m, c, spot, steps, step, i) || NodeWorthless(m, c, spot, steps, step, step))
  {
    if !NodeWorthless(m, c, spot, steps, step, i) {
      forall j | i <= j <= step
        ensures NodeExercised(m, c, spot, steps, step, j)
      {
        RowBoundary(m, c, spot, steps, step, i, j);
      }
    } else if NodeWorthless(m, c, spot, steps, step, step) {
      forall j | i <= j <= step
        ensures NodeExercised(m, c, spot, steps, step, j)
      {
        RowPrices(m, spot, step, j, step);
        PricePositive(m, spot, step, step);
        WorthlessAbove(m, c, steps - step, AssetPrice(m, spot, step, step), AssetPrice(m, spot, step, j));
        NodeExercise(m, c, spot, steps, step, j);
      }
    } else {
      var j := FirstLiveNode(m, c, spot, steps, step, i);
    }
  }

  // ---------- the last row before expiry ----------

  /** Exercising now beats one more step: the strike saved outweighs the chance of a rise above it. */
  ghost predicate LastStepExercise(m: Market, c: Contract, y: real) {
    c.strike * (1.0 - DownPrice(m)) >= UpPrice(m) * Up(m, y)
  }

  lemma LastHold(m: Market, c: Contract, y: real)
    requires m.NoArbitrage() && c.kind == PE && y > 0.0 && c.strike <= Up(m, y) && c.strike > Down(m, y)
    ensures Continuation(m, c, 1, y) == DownPrice(m) * c.strike - y + UpPrice(m) * Up(m, y) > 0.0
  {
    StatePrices(m);
    var a, b, k := UpPrice(m), DownPrice(m), c.strike;
    assert American(m, c, 0, Up(m, y)) == 0.0 && American(m, c, 0, Down(m, y)) == k - Down(m, y);
    HoldForm(m, 0.0, k - Down(m, y));
    hide HoldValue, UpPrice, DownPrice;
    MulPositive(b, k - Down(m, y));
    assert b * (k - Down(m, y)) == b * k - y * (b * m.d);
    assert y * (a * m.u + b * m.d) == a * Up(m, y) + y * (b * m.d);
  }

  /** One step from expiry, at a price whose up move would leave the put worthless. */
  lemma LastStep(m: Market, c: Contract, y: real)
    requires m.NoArbitrage() && c.kind == PE && y > 0.0 && c.strike <= Up(m, y) && c.strike > Down(m, y)
    ensures ExerciseOptimal(m, c, 1, y) <==> LastStepExercise(m, c, y)
  {
    LastHold(m, c, y);
    var k, b := c.strike, DownPrice(m);
    hide HoldValue, UpPrice, DownPrice, Up, Down, Continuation;
    assert k * (1.0 - b) == k - b * k;
  }

  lemma BelowWorthless(m: Market, c: Contract, x: real, y: real)
    requires m.NoArbitrage() && y == Down(m, Down(m, x))
    ensures Worthless(m, c, 1, x) && !Worthless(m, c, 1, y) ==> Down(m, y) < c.strike <= Up(m, y)
  {
    assert Pow(m.d, 1) == m.d * Pow(m.d, 0) == m.d;
    var z, one := Down(m, x), m.d * m.u;
    assert Up(m, y) == z * one && one == 1.0;
  }

  /** The node at `j` is the first of its row that can still pay, after one that cannot. */
  ghost predicate FirstLive(m: Market, c: Contract, spot: real, steps: nat, step: nat, j: nat)
    requires j <= step < steps
  {
    j > 0 && NodeWorthless(m, c, spot, steps, step, j - 1) && !NodeWorthless(m, c, spot, steps, step, j)
  }

  lemma FirstLiveDecides(m: Market, c: Contract, spot: real, steps: nat, step: nat, j: nat)
    requires m.NoArbitrage() && c.kind == PE && spot > 0.0 && j <= step && step + 1 == steps
    requires FirstLive(m, c, spot, steps, step, j)
    ensures NodeExercised(m, c, spot, steps, step, j) <==> LastStepExercise(m, c, AssetPrice(m, spot, step, j))
  {
    PricePositive(m, spot, step, j - 1);
    NextPrice(m, spot, step, j - 1);
    NodeExercise(m, c, spot, steps, step, j);
    hide AssetPrice, Worthless, ExerciseOptimal, LastStepExercise, NodeExercised;
    BelowWorthless(m, c, AssetPrice(m, spot, step, j - 1), AssetPrice(m, spot, step, j));
    LastStep(m, c, AssetPrice(m, spot, step, j));
  }

  lemma WorthlessExercised(m: Market, c: Contract, spot: real, steps: nat, step: nat, i: nat, j: nat)
    requires m.NoArbitrage() && c.kind == PE && spot > 0.0 && i <= j <= step < steps
    requires NodeWorthless(m, c, spot, steps, step, j)
    ensures NodeWorthless(m, c, spot, steps, step, i) && NodeExercised(m, c, spot, steps, step, i)
  {
    RowPrices(m, spot, step, i, j);
    PricePositive(m, spot, step, j);
    NodeExercise(m, c, spot, steps, step, i);
    hide AssetPrice, Worthless, ExerciseOptimal, NodeExercised;
    WorthlessAbove(m, c, steps - step, AssetPrice(m, spot, step, j), AssetPrice(m, spot, step, i));
  }

  /** One step from expiry: from a node on, a whole row is exercised exactly when that node is, and so is, by an
      explicit inequality, the first node further down that can still pay, if there is one. */
  lemma {:induction false} LastRowBoundaryExact(m: Market, c: Contract, spot: real, steps: nat, step: nat, i: nat)
    requires m.NoArbitrage() && c.kind == PE && spot > 0.0 && i <= step && step + 1 == steps
    ensures (forall n | i <= n <= step :: NodeExercised(m, c, spot, steps, step, n))
            <==> && NodeExercised(m, c, spot, steps, step, i)
                 && forall j | i < j <= step && FirstLive(m, c, spot, steps, step, j) ::
                      LastStepExercise(m, c, AssetPrice(m, spot, step, j))
    decreases step - i
  {
    hide NodeExercised, NodeWorthless, LastStepExercise, AssetPrice;
    forall j | i < j <= step && FirstLive(m, c, spot, steps, step, j)
      ensures NodeExercised(m, c, spot, steps, step, j) <==> LastStepExercise(m, c, AssetPrice(m, spot, step, j))
    {
      FirstLiveDecides(m, c, spot, steps, step, j);
    }
    if i == step {
    } else if NodeWorthless(m, c, spot, steps, step, i + 1) {
      WorthlessExercised(m, c, spot, steps, step, i, i + 1);
      WorthlessExercised(m, c, spot, steps, step, i + 1, i + 1);
      LastRowBoundaryExact(m, c, spot, steps, step, i + 1);
    } else {
      forall j | i + 1 < j <= step ensures !FirstLive(m, c, spot, steps, step, j) {
        if NodeWorthless(m, c, spot, steps, step, j - 1) {
          WorthlessExercised(m, c, spot, steps, step, i + 1, j - 1);
        }
      }
      if NodeExercised(m, c, spot, steps, step, i + 1) {
        forall n | i < n <= step ensures NodeExercised(m, c, spot, steps, step, n) {
          RowBoundary(m, c, spot, steps, step, i + 1, n);
        }
      }
      if NodeExercised(m, c, spot, steps, step, i) && !NodeWorthless(m, c, spot, steps, step, i) {
        RowBoundary(m, c, spot, steps, step, i, i + 1);
      }
    }
  }

  /** Three steps, doubling or halving, no interest, strike 1, spot 2: after one up move the put is
      worthless and "exercised" at zero, yet one row entry lower it is worth holding. */
  lemma RowBoundaryCounterexample(m: Market, c: Contract, spot: real, steps: nat, step: nat)
    requires m.u == 2.0 && m.d == 0.5 && m.growth == 1.0 && m.discount == 1.0 && 3.0 * m.p == 1.0
    requires c == Contract(PE, 1.0) && spot == 2.0 && step == 1 && steps == step + 2
    ensures m.NoArbitrage()
    ensures NodeExercised(m, c, spot, steps, step, 0) && !NodeExercised(m, c, spot, steps, step, 1)
  {
    DoubleOrHalve(m, spot, step);
    assert m.NoArbitrage();
    hide *;
    var x, y := AssetPrice(m, spot, step, 0), AssetPrice(m, spot, step, 1);
    WorthlessAbove(m, c, steps - step, x, x);
    AtTheMoney(m, c, steps - step);
    NodeExercise(m, c, spot, steps, step, 0);
    NodeExercise(m, c, spot, steps, step, 1);
  }

  lemma DoubleOrHalve(m: Market, spot: real, step: nat)
    requires m.u == 2.0 && m.d == 0.5 && spot == 2.0 && step == 1
    ensures Worthless(m, Contract(PE, 1.0), step + 1, 4.0)
    ensures AssetPrice(m, spot, step, 0) == 4.0 && AssetPrice(m, spot, step, 1) == 1.0
  {
    assert Pow(m.d, step) == m.d * Pow(m.d, step - 1);
    assert Pow(m.u, step) == m.u * Pow(m.u, step - 1);
    assert Pow(m.d, step + 1) == m.d * Pow(m.d, step);
  }
}
