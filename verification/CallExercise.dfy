/** When an American call is never exercised early, and what it is then worth in closed form. */
module CallExercise {
  import opened RealArith
  import opened BinomialTree
  import opened AmericanOption
  import opened Sensitivity
  import opened PutBoundary

  // ---------- never exercised early ----------

  /** The strike's interest is not negative: with a positive strike, that the growth is at least one. */
  ghost predicate StrikeEarnsInterest(m: Market, c: Contract) {
    DiscountedStrike(m, c) <= c.strike
  }

  function DiscountedStrike(m: Market, c: Contract): real {
    c.strike * m.discount
  }

  lemma InterestSign(m: Market, c: Contract)
    requires m.NoArbitrage()
    ensures StrikeEarnsInterest(m, c) <==> c.strike * (m.growth - 1.0) >= 0.0
  {
    FactorBounds(m);
    var strike, g := c.strike, m.growth;
    var paid := strike * m.discount;
    assert paid * g == strike by {
      var one := m.discount * g;
      assert one == 1.0;
      assert strike * one == strike;
    }
    assert (paid - strike) * g == paid * g - strike * g == -(strike * (g - 1.0));
    SignOfProduct(paid - strike, g);
  }

  /** What holding a sure exercise at the next step is worth now. */
  function Forward(m: Market, c: Contract, x: real): real {
    HoldValue(m, Up(m, x) - c.strike, Down(m, x) - c.strike)
  }

  lemma ForwardValue(m: Market, c: Contract, x: real)
    requires m.NoArbitrage()
    ensures Forward(m, c, x) == x - DiscountedStrike(m, c)
  {
    StatePrices(m);
    HoldForm(m, Up(m, x) - c.strike, Down(m, x) - c.strike);
    var a, b, strike := UpPrice(m), DownPrice(m), c.strike;
    assert a * (Up(m, x) - strike) == x * (a * m.u) - strike * a;
    assert b * (Down(m, x) - strike) == x * (b * m.d) - strike * b;
    assert x * (a * m.u) + x * (b * m.d) == x * (a * m.u + b * m.d);
    assert strike * a + strike * b == strike * (a + b);
  }

  lemma ForwardSign(m: Market, c: Contract, x: real)
    requires m.NoArbitrage()
    ensures Forward(m, c, x) >= x - c.strike <==> StrikeEarnsInterest(m, c)
  {
    hide Forward, DiscountedStrike;
    ForwardValue(m, c, x);
  }

  lemma CallHeld(m: Market, c: Contract, k: nat, x: real)
    requires m.NoArbitrage() && c.kind == CE && k > 0 && StrikeEarnsInterest(m, c)
    ensures Continuation(m, c, k, x) >= Payoff(c, x)
  {
    hide HoldValue, Up, Down;
    ForwardSign(m, c, x);
    var up, down := American(m, c, k - 1, Up(m, x)), American(m, c, k - 1, Down(m, x));
    HoldMono(m, Up(m, x) - c.strike, Down(m, x) - c.strike, up, down);
    HoldZero(m, up, down);
  }

  // ---------- the call that cannot pay ----------

  /** Not even `k` up moves bring a call in the money. */
  ghost predicate OutOfReach(m: Market, c: Contract, k: nat, x: real) {
    x * Pow(m.u, k) <= c.strike
  }

  lemma ReachSteps(m: Market, c: Contract, k: nat, x: real)
    requires m.NoArbitrage() && x >= 0.0 && k > 0
    ensures Up(m, x) >= 0.0 && Down(m, x) >= 0.0
    ensures OutOfReach(m, c, k, x) <==> OutOfReach(m, c, k - 1, Up(m, x))
    ensures OutOfReach(m, c, k, x) ==> OutOfReach(m, c, k - 1, Down(m, x)) && x <= c.strike
  {
    FactorBounds(m);
    PowPositive(m.u, k - 1);
    PowAtLeastOne(m.u, k);
    var tail, w := Pow(m.u, k - 1), Pow(m.u, k);
    ReachUp(m, x, tail, w);
    hide Pow;
    ReachDown(m, x, tail);
    MulMono(x, 1.0, w);
    assert OutOfReach(m, c, k, x) <==> x * w <= c.strike;
  }

  lemma ReachUp(m: Market, x: real, tail: real, w: real)
    requires w == m.u * tail
    ensures x * w == Up(m, x) * tail
  {
  }

  lemma ReachDown(m: Market, x: real, tail: real)
    requires x >= 0.0 && 0.0 < m.d < m.u && tail > 0.0
    ensures 0.0 <= Down(m, x) <= Up(m, x) && Down(m, x) * tail <= Up(m, x) * tail
  {
    MulNonNegative(x, m.d);
    MulMono(x, m.d, m.u);
    MulMono(tail, Down(m, x), Up(m, x));
    assert tail * Down(m, x) == Down(m, x) * tail && tail * Up(m, x) == Up(m, x) * tail;
  }

  /** A call is worth nothing exactly at the prices that cannot reach its strike. */
  lemma {:induction false} CallZero(m: Market, c: Contract, k: nat, x: real)
    requires m.NoArbitrage() && c.kind == CE && x >= 0.0
    ensures American(m, c, k, x) >= 0.0
    ensures American(m, c, k, x) == 0.0 <==> OutOfReach(m, c, k, x)
  {
    if k == 0 {
      assert Pow(m.u, 0) == 1.0;
    } else {
      hide HoldValue, Up, Down;
      ReachSteps(m, c, k, x);
      hide OutOfReach;
      CallZero(m, c, k - 1, Up(m, x));
      CallZero(m, c, k - 1, Down(m, x));
      HoldZero(m, American(m, c, k - 1, Up(m, x)), American(m, c, k - 1, Down(m, x)));
    }
  }

  /** In the money, now and after any number of down moves still to come. */
  ghost predicate DeepInTheMoney(m: Market, c: Contract, k: nat, x: real) {
    0.0 <= x && c.strike <= x && (k > 0 ==> DeepInTheMoney(m, c, k - 1, Down(m, x)))
  }

  lemma OrderedMoves(m: Market, x: real, y: real)
    requires m.NoArbitrage() && 0.0 <= x <= y
    ensures Down(m, x) <= Down(m, y) && Down(m, x) <= Up(m, x)
    ensures Down(m, Up(m, x)) == x && x <= Up(m, x)
  {
    FactorBounds(m);
    MovesAreLinear(m, x, y);
    MulMono(x, m.d, m.u);
    MulMono(x, 1.0, m.u);
    var one := m.u * m.d;
    assert one == 1.0 && x * one == x;
  }

  lemma {:induction false} DeepMono(m: Market, c: Contract, k: nat, x: real, y: real)
    requires m.NoArbitrage() && x <= y && DeepInTheMoney(m, c, k, x)
    ensures DeepInTheMoney(m, c, k, y)
  {
    if k == 0 {
    } else {
      OrderedMoves(m, x, y);
      DeepMono(m, c, k - 1, Down(m, x), Down(m, y));
    }
  }

  /** When the strike costs interest, a deep call is worth no more than its exercise value. */
  lemma {:induction false} DeepCallExercised(m: Market, c: Contract, k: nat, x: real)
    requires m.NoArbitrage() && c.kind == CE && !StrikeEarnsInterest(m, c)
    requires DeepInTheMoney(m, c, k, x)
    ensures American(m, c, k, x) == x - c.strike
    ensures k > 0 ==> Continuation(m, c, k, x) < Payoff(c, x)
  {
    if k == 0 {
    } else {
      hide HoldValue, Up, Down, StrikeEarnsInterest;
      OrderedMoves(m, x, x);
      ForwardSign(m, c, x);
      DeepMono(m, c, k - 1, Down(m, x), Up(m, x));
      DeepCallExercised(m, c, k - 1, Up(m, x));
      DeepCallExercised(m, c, k - 1, Down(m, x));
    }
  }

  lemma {:induction false} DeepPrice(m: Market, c: Contract, k: nat) returns (x: real)
    requires m.NoArbitrage()
    ensures x > 0.0 && DeepInTheMoney(m, c, k, x)
  {
    if k == 0 {
      x := Max(c.strike, 1.0);
    } else {
      var y := DeepPrice(m, c, k - 1);
      x := Up(m, y);
      OrderedMoves(m, y, y);
    }
  }

  /** A call with steps left is held at every price exactly when its strike earns interest. */
  lemma CallNeverExercised(m: Market, c: Contract, k: nat)
    requires m.NoArbitrage() && c.kind == CE && k > 0
    ensures (forall x | x > 0.0 :: Continuation(m, c, k, x) >= Payoff(c, x)) <==> c.strike * (m.growth - 1.0) >= 0.0
  {
    InterestSign(m, c);
    if StrikeEarnsInterest(m, c) {
      forall x | x > 0.0
        ensures Continuation(m, c, k, x) >= Payoff(c, x)
      {
        CallHeld(m, c, k, x);
      }
    } else {
      var x := DeepPrice(m, c, k);
      DeepCallExercised(m, c, k, x);
    }
  }

  // ---------- the European value ----------

  /** The tree recursion without the early-exercise maximum. */
  function EuropeanNode(m: Market, c: Contract, spot: real, steps: nat, step: nat, i: nat): real
    requires i <= step <= steps
    decreases steps - step
  {
    if step == steps then Payoff(c, AssetPrice(m, spot, step, i))
    else HoldValue(m, EuropeanNode(m, c, spot, steps, step + 1, i), EuropeanNode(m, c, spot, steps, step + 1, i + 1))
  }

  /** Put-call parity: without early exercise a call less a put is the asset less the discounted strike, at any node. */
  lemma {:induction false} PutCallParity(m: Market, strike: real, spot: real, steps: nat, step: nat, i: nat)
    requires m.NoArbitrage() && i <= step <= steps
    ensures EuropeanNode(m, Contract(CE, strike), spot, steps, step, i)
            - EuropeanNode(m, Contract(PE, strike), spot, steps, step, i)
            == AssetPrice(m, spot, step, i) - Discounted(m, steps - step, strike)
    decreases steps - step
  {
    if step == steps {
      assert Pow(m.discount, 0) == 1.0;
    } else {
      hide HoldValue, AssetPrice, Payoff, Discounted, Up, Down, Market.NoArbitrage;
      PutCallParity(m, strike, spot, steps, step + 1, i);
      PutCallParity(m, strike, spot, steps, step + 1, i + 1);
      ChildPrices(m, spot, step, i);
      DiscountOnce(m, steps - step, strike);
      var call, put := Contract(CE, strike), Contract(PE, strike);
      ParityStep(m, AssetPrice(m, spot, step, i), Discounted(m, steps - step - 1, strike),
                 Discounted(m, steps - step, strike),
                 EuropeanNode(m, call, spot, steps, step + 1, i), EuropeanNode(m, call, spot, steps, step + 1, i + 1),
                 EuropeanNode(m, put, spot, steps, step + 1, i), EuropeanNode(m, put, spot, steps, step + 1, i + 1));
    }
  }

  lemma DiscountOnce(m: Market, k: nat, x: real)
    requires k > 0
    ensures Discounted(m, k, x) == m.discount * Discounted(m, k - 1, x)
  {
    var later := Pow(m.discount, k - 1);
    assert (m.discount * later) * x == m.discount * (later * x);
  }

  lemma ParityStep(m: Market, x: real, later: real, now: real,
                   callUp: real, callDown: real, putUp: real, putDown: real)
    requires m.NoArbitrage() && now == m.discount * later
    requires callUp - putUp == Up(m, x) - later && callDown - putDown == Down(m, x) - later
    ensures HoldValue(m, callUp, callDown) - HoldValue(m, putUp, putDown) == x - now
  {
    StatePrices(m);
    HoldForm(m, callUp, callDown);
    HoldForm(m, putUp, putDown);
    hide HoldValue, UpPrice, DownPrice, Market.NoArbitrage;
    Replicate(UpPrice(m), DownPrice(m), m.u, m.d, m.discount, x, later, callUp - putUp, callDown - putDown);
    assert UpPrice(m) * (callUp - putUp) == UpPrice(m) * callUp - UpPrice(m) * putUp;
    assert DownPrice(m) * (callDown - putDown) == DownPrice(m) * callDown - DownPrice(m) * putDown;
  }

  lemma Replicate(a: real, b: real, u: real, d: real, discount: real, x: real, later: real, up: real, down: real)
    requires a * u + b * d == 1.0 && a + b == discount
    requires up == x * u - later && down == x * d - later
    ensures a * up + b * down == x - discount * later
  {
    assert a * up == x * (a * u) - later * a;
    assert b * down == x * (b * d) - later * b;
    assert x * (a * u) + x * (b * d) == x * (a * u + b * d);
    assert later * a + later * b == later * (a + b);
  }

  /** Early exercise adds nothing to a call whose strike earns interest, at any node. */
  lemma {:induction false} CallIsEuropean(m: Market, c: Contract, spot: real, steps: nat, step: nat, i: nat)
    requires m.NoArbitrage() && c.kind == CE && i <= step <= steps && c.strike * (m.growth - 1.0) >= 0.0
    ensures NodeValue(m, c, spot, steps, step, i) == EuropeanNode(m, c, spot, steps, step, i)
    decreases steps - step
  {
    if step < steps {
      hide HoldValue, AssetPrice, Payoff;
      CallIsEuropean(m, c, spot, steps, step + 1, i);
      CallIsEuropean(m, c, spot, steps, step + 1, i + 1);
      InterestSign(m, c);
      CallHeld(m, c, steps - step, AssetPrice(m, spot, step, i));
      NodeExerciseValue(m, c, spot, steps, step, i);
    }
  }

  lemma NodeExerciseValue(m: Market, c: Contract, spot: real, steps: nat, step: nat, i: nat)
    requires i <= step < steps
    ensures HoldValue(m, NodeValue(m, c, spot, steps, step + 1, i), NodeValue(m, c, spot, steps, step + 1, i + 1))
            == Continuation(m, c, steps - step, AssetPrice(m, spot, step, i))
  {
    hide HoldValue, Payoff, AssetPrice, Up, Down;
    NodeIsAmerican(m, c, spot, steps, step + 1, i);
    NodeIsAmerican(m, c, spot, steps, step + 1, i + 1);
    ChildPrices(m, spot, step, i);
  }

  // ---------- the closed form ----------

  function Choose(n: nat, k: nat): nat {
    if k == 0 then 1 else if n == 0 then 0 else Choose(n - 1, k - 1) + Choose(n - 1, k)
  }

  lemma {:induction false} ChooseBeyond(n: nat, k: nat)
    requires k > n
    ensures Choose(n, k) == 0
  {
    if n == 0 {
    } else {
      ChooseBeyond(n - 1, k - 1);
      ChooseBeyond(n - 1, k);
    }
  }

  /** The probability of exactly `j` down moves in `k`. */
  function Weight(m: Market, k: nat, j: nat): real
    requires j <= k
  {
    Choose(k, j) as real * (Pow(m.p, k - j) * Pow(1.0 - m.p, j))
  }

  lemma PascalArith(left: real, right: real, p: real, q: real, up: real, down: real)
    ensures (left + right) * ((p * up) * (q * down))
            == p * (right * (up * (q * down))) + q * (left * ((p * up) * down))
    ensures left * (up * (q * down)) == q * (left * (up * down))
    ensures left * ((p * up) * down) == p * (left * (up * down))
  {
  }

  lemma WeightInside(m: Market, k: nat, j: nat)
    requires 0 < j < k
    ensures Weight(m, k, j) == m.p * Weight(m, k - 1, j) + (1.0 - m.p) * Weight(m, k - 1, j - 1)
  {
    var p, q := m.p, 1.0 - m.p;
    var up, down := Pow(p, k - 1 - j), Pow(q, j - 1);
    var left, right := Choose(k - 1, j - 1) as real, Choose(k - 1, j) as real;
    PascalArith(left, right, p, q, up, down);
    assert Pow(p, k - j) == p * up && Pow(q, j) == q * down;
    assert Weight(m, k, j) == (left + right) * ((p * up) * (q * down));
    assert Weight(m, k - 1, j) == right * (up * (q * down));
    assert k - 1 - (j - 1) == k - j;
    assert Weight(m, k - 1, j - 1) == left * ((p * up) * down);
  }

  lemma WeightEnds(m: Market, k: nat)
    requires k > 0
    ensures Weight(m, k, 0) == m.p * Weight(m, k - 1, 0)
    ensures Weight(m, k, k) == (1.0 - m.p) * Weight(m, k - 1, k - 1)
  {
    WeightTop(m, k);
    WeightBottom(m, k);
  }

  lemma WeightTop(m: Market, k: nat)
    requires k > 0
    ensures Weight(m, k, 0) == m.p * Weight(m, k - 1, 0)
  {
    var p, q := m.p, 1.0 - m.p;
    PascalArith(1.0, 0.0, p, q, Pow(p, k - 1), Pow(q, 0));
    assert Pow(p, k) == p * Pow(p, k - 1);
    assert Weight(m, k, 0) == 1.0 * ((p * Pow(p, k - 1)) * Pow(q, 0));
    assert Weight(m, k - 1, 0) == 1.0 * (Pow(p, k - 1) * Pow(q, 0));
  }

  lemma WeightBottom(m: Market, k: nat)
    requires k > 0
    ensures Weight(m, k, k) == (1.0 - m.p) * Weight(m, k - 1, k - 1)
  {
    var p, q := m.p, 1.0 - m.p;
    var left := Choose(k - 1, k - 1) as real;
    ChooseBeyond(k - 1, k);
    PascalArith(left, 0.0, p, q, Pow(p, 0), Pow(q, k - 1));
    assert Pow(q, k) == q * Pow(q, k - 1);
    assert Weight(m, k, k) == left * (Pow(p, 0) * (q * Pow(q, k - 1)));
    assert Weight(m, k - 1, k - 1) == left * (Pow(p, 0) * Pow(q, k - 1));
  }

  /** The payoff after `j` down moves out of all `steps`. */
  function FinalPayoff(m: Market, c: Contract, spot: real, steps: nat, j: nat): real
    requires j <= steps
  {
    Payoff(c, AssetPrice(m, spot, steps, j))
  }

  function Term(m: Market, c: Contract, spot: real, steps: nat, k: nat, i: nat, j: nat): real
    requires i + k <= steps && j <= k
  {
    Weight(m, k, j) * FinalPayoff(m, c, spot, steps, i + j)
  }

  lemma TermFactors(m: Market, c: Contract, spot: real, steps: nat, k: nat, i: nat, j: nat, f: real)
    requires i + k <= steps && j <= k && f == FinalPayoff(m, c, spot, steps, i + j)
    ensures Term(m, c, spot, steps, k, i, j) == Weight(m, k, j) * f
  {
    hide Weight, FinalPayoff;
  }

  lemma TermStep(m: Market, c: Contract, spot: real, steps: nat, k: nat, i: nat, j: nat)
    requires k > 0 && i + k <= steps && j <= k
    ensures Term(m, c, spot, steps, k, i, j)
            == (if j < k then m.p * Term(m, c, spot, steps, k - 1, i, j) else 0.0)
               + (if j > 0 then (1.0 - m.p) * Term(m, c, spot, steps, k - 1, i + 1, j - 1) else 0.0)
  {
    hide Weight, FinalPayoff, Term;
    WeightEnds(m, k);
    var p, q, f := m.p, 1.0 - m.p, FinalPayoff(m, c, spot, steps, i + j);
    TermFactors(m, c, spot, steps, k, i, j, f);
    if j < k {
      TermFactors(m, c, spot, steps, k - 1, i, j, f);
    }
    if j > 0 {
      assert i + 1 + (j - 1) == i + j;
      TermFactors(m, c, spot, steps, k - 1, i + 1, j - 1, f);
    }
    if j == 0 {
      Distribute(p, Weight(m, k - 1, j), Term(m, c, spot, steps, k - 1, i, j), q, 0.0, 0.0, f);
    } else if j == k {
      Distribute(p, 0.0, 0.0, q, Weight(m, k - 1, j - 1), Term(m, c, spot, steps, k - 1, i + 1, j - 1), f);
    } else {
      WeightInside(m, k, j);
      Distribute(p, Weight(m, k - 1, j), Term(m, c, spot, steps, k - 1, i, j),
                 q, Weight(m, k - 1, j - 1), Term(m, c, spot, steps, k - 1, i + 1, j - 1), f);
    }
  }

  lemma TimesOne(one: real, x: real)
    requires one == 1.0
    ensures one * x == x
  {
  }

  lemma Distribute(p: real, up: real, upTerm: real, q: real, down: real, downTerm: real, f: real)
    requires upTerm == up * f && downTerm == down * f
    ensures (p * up + q * down) * f == p * upTerm + q * downTerm
  {
  }

  /** The first `n` terms of the expected final payoff from node (steps - k, i). */
  function WeightedPayoffs(m: Market, c: Contract, spot: real, steps: nat, k: nat, i: nat, n: nat): real
    requires i + k <= steps && n <= k + 1
  {
    if n == 0 then 0.0
    else WeightedPayoffs(m, c, spot, steps, k, i, n - 1) + Term(m, c, spot, steps, k, i, n - 1)
  }

  lemma {:induction false} WeightedPayoffsStep(m: Market, c: Contract, spot: real, steps: nat, k: nat, i: nat, n: nat)
    requires k > 0 && i + k <= steps && 0 < n <= k + 1
    ensures WeightedPayoffs(m, c, spot, steps, k, i, n)
            == m.p * WeightedPayoffs(m, c, spot, steps, k - 1, i, if n <= k then n else k)
               + (1.0 - m.p) * WeightedPayoffs(m, c, spot, steps, k - 1, i + 1, n - 1)
  {
    hide Term;
    var j := n - 1;
    TermStep(m, c, spot, steps, k, i, j);
    if j == 0 {
    } else {
      WeightedPayoffsStep(m, c, spot, steps, k, i, j);
    }
  }

  /** `x` paid `k` steps from now: x / growth ** k. */
  function Discounted(m: Market, k: nat, x: real): real {
    Pow(m.discount, k) * x
  }

  lemma DiscountedStep(m: Market, k: nat, up: real, down: real, x: real)
    requires k > 0 && x == m.p * up + (1.0 - m.p) * down
    ensures HoldValue(m, Discounted(m, k - 1, up), Discounted(m, k - 1, down)) == Discounted(m, k, x)
  {
    var factor := Pow(m.discount, k - 1);
    assert m.discount * (m.p * (factor * up) + (1.0 - m.p) * (factor * down))
        == (m.discount * factor) * (m.p * up + (1.0 - m.p) * down);
  }

  lemma OneTerm(m: Market, c: Contract, spot: real, steps: nat, k: nat, i: nat)
    requires k == 0 && i <= steps
    ensures Discounted(m, k, WeightedPayoffs(m, c, spot, steps, k, i, k + 1))
            == Payoff(c, AssetPrice(m, spot, steps, i))
  {
    assert Pow(m.p, 0) == 1.0 && Pow(1.0 - m.p, 0) == 1.0;
    TimesOne(Weight(m, k, 0), FinalPayoff(m, c, spot, steps, i));
    TimesOne(Pow(m.discount, k), FinalPayoff(m, c, spot, steps, i));
    hide Payoff, AssetPrice, Weight;
    assert Term(m, c, spot, steps, k, i, 0) == FinalPayoff(m, c, spot, steps, i);
    assert WeightedPayoffs(m, c, spot, steps, k, i, k) == 0.0;
  }

  /** Discounted over `k` steps, the binomial expectation of the final payoff. */
  lemma {:induction false} EuropeanClosedForm(m: Market, c: Contract, spot: real, steps: nat, step: nat, i: nat)
    requires i <= step <= steps
    ensures var k := steps - step;
            EuropeanNode(m, c, spot, steps, step, i)
            == Discounted(m, k, WeightedPayoffs(m, c, spot, steps, k, i, k + 1))
    decreases steps - step
  {
    var k := steps - step;
    hide HoldValue, Discounted, WeightedPayoffs, AssetPrice, Payoff, Weight, Term, Pow, Choose;
    if k == 0 {
      OneTerm(m, c, spot, steps, k, i);
    } else {
      EuropeanClosedForm(m, c, spot, steps, step + 1, i);
      EuropeanClosedForm(m, c, spot, steps, step + 1, i + 1);
      WeightedPayoffsStep(m, c, spot, steps, k, i, k + 1);
      var up := WeightedPayoffs(m, c, spot, steps, k - 1, i, k);
      var down := WeightedPayoffs(m, c, spot, steps, k - 1, i + 1, k);
      assert steps - (step + 1) == k - 1;
      DiscountedStep(m, k, up, down, WeightedPayoffs(m, c, spot, steps, k, i, k + 1));
    }
  }

  /** The returned price of a call whose strike earns interest, in closed form. */
  lemma CallClosedForm(m: Market, c: Contract, spot: real, steps: nat)
    requires m.NoArbitrage() && c.kind == CE && c.strike * (m.growth - 1.0) >= 0.0
    ensures NodeValue(m, c, spot, steps, 0, 0)
            == Discounted(m, steps, WeightedPayoffs(m, c, spot, steps, steps, 0, steps + 1))
  {
    hide *;
    CallIsEuropean(m, c, spot, steps, 0, 0);
    EuropeanClosedForm(m, c, spot, steps, 0, 0);
  }
}
