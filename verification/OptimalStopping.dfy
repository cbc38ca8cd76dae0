/** The tree price is the best discounted expected payoff over all early-exercise rules. */
module OptimalStopping {
  import opened RealArith
  import opened BinomialTree
  import opened AmericanOption
  import opened CallExercise
  import opened PutBoundary

  /** The moves so far, oldest first; true is up. */
  type Path = seq<bool>

  /** Whether to exercise after the moves seen so far. At expiry every rule is paid. */
  type Rule = Path -> bool

  function PriceAt(m: Market, spot: real, w: Path): real {
    if w == [] then spot
    else
      var before := PriceAt(m, spot, w[..|w| - 1]);
      if w[|w| - 1] then Up(m, before) else Down(m, before)
  }

  function Probability(m: Market, w: Path): real {
    if w == [] then 1.0
    else (if w[|w| - 1] then m.p else 1.0 - m.p) * Probability(m, w[..|w| - 1])
  }

  /** The first time from `t` on at which the rule exercises along `w`, or the end of `w`. */
  function StopTime(rule: Rule, w: Path, t: nat): (stop: nat)
    requires t <= |w|
    ensures t <= stop <= |w|
    decreases |w| - t
  {
    if t == |w| || rule(w[..t]) then t else StopTime(rule, w, t + 1)
  }

  /** What the rule collects along the complete path `w`, discounted to the start. */
  function PathPayoff(m: Market, c: Contract, spot: real, rule: Rule, w: Path): real {
    var stop := StopTime(rule, w, 0);
    Discounted(m, stop, Payoff(c, PriceAt(m, spot, w[..stop])))
  }

  /** The sum over all complete paths of `steps` moves that extend `w`, weighted by probability. */
  function ExpectedPayoff(m: Market, c: Contract, spot: real, steps: nat, rule: Rule, w: Path): real
    requires |w| <= steps
    decreases steps - |w|
  {
    if |w| == steps then Likely(m, w, PathPayoff(m, c, spot, rule, w))
    else
      ExpectedPayoff(m, c, spot, steps, rule, w + [true]) + ExpectedPayoff(m, c, spot, steps, rule, w + [false])
  }

  function Likely(m: Market, w: Path, x: real): real {
    Probability(m, w) * x
  }

  /** The value of following the rule from `w` on, by backward recursion. */
  function RuleValue(m: Market, c: Contract, spot: real, steps: nat, rule: Rule, w: Path): real
    requires |w| <= steps
    decreases steps - |w|
  {
    if |w| == steps || rule(w) then Payoff(c, PriceAt(m, spot, w))
    else
      HoldValue(m, RuleValue(m, c, spot, steps, rule, w + [true]), RuleValue(m, c, spot, steps, rule, w + [false]))
  }

  // ---------- one more move ----------

  lemma Extend(m: Market, spot: real, w: Path)
    ensures PriceAt(m, spot, w + [true]) == Up(m, PriceAt(m, spot, w))
    ensures PriceAt(m, spot, w + [false]) == Down(m, PriceAt(m, spot, w))
  {
    assert (w + [true])[..|w|] == w && (w + [false])[..|w|] == w;
  }

  lemma SplitLikely(m: Market, w: Path, x: real)
    ensures Likely(m, w + [true], x) + Likely(m, w + [false], x) == Likely(m, w, x)
  {
    LikelySum(m, w, x, x);
    assert m.p * x + (1.0 - m.p) * x == x;
  }

  lemma LikelySum(m: Market, w: Path, up: real, down: real)
    ensures Likely(m, w + [true], up) + Likely(m, w + [false], down) == Likely(m, w, m.p * up + (1.0 - m.p) * down)
  {
    assert (w + [true])[..|w|] == w && (w + [false])[..|w|] == w;
    var pw := Probability(m, w);
    assert (m.p * pw) * up + ((1.0 - m.p) * pw) * down == pw * (m.p * up + (1.0 - m.p) * down);
  }

  lemma DiscountedSum(m: Market, k: nat, up: real, down: real)
    ensures m.p * Discounted(m, k + 1, up) + (1.0 - m.p) * Discounted(m, k + 1, down)
            == Discounted(m, k, HoldValue(m, up, down))
  {
    var factor := Pow(m.discount, k);
    assert Pow(m.discount, k + 1) == m.discount * factor;
    DiscountArith(m, factor, up, down);
  }

  lemma DiscountArith(m: Market, factor: real, up: real, down: real)
    ensures m.p * ((m.discount * factor) * up) + (1.0 - m.p) * ((m.discount * factor) * down)
            == factor * (m.discount * (m.p * up + (1.0 - m.p) * down))
  {
  }

  lemma LikelyHold(m: Market, w: Path, up: real, down: real)
    ensures Likely(m, w + [true], Discounted(m, |w| + 1, up)) + Likely(m, w + [false], Discounted(m, |w| + 1, down))
            == Likely(m, w, Discounted(m, |w|, HoldValue(m, up, down)))
  {
    LikelySum(m, w, Discounted(m, |w| + 1, up), Discounted(m, |w| + 1, down));
    DiscountedSum(m, |w|, up, down);
  }

  // ---------- the path sum against the recursion ----------

  ghost predicate RunsThrough(rule: Rule, w: Path, t: nat)
    requires t <= |w|
  {
    forall s | 0 <= s < t :: !rule(w[..s])
  }

  lemma {:induction false} StopTimeIs(rule: Rule, w: Path, s: nat, t: nat)
    requires s <= t <= |w| && RunsThrough(rule, w, t) && (t == |w| || rule(w[..t]))
    ensures StopTime(rule, w, s) == t
    decreases t - s
  {
    if s < t {
      StopTimeIs(rule, w, s + 1, t);
    }
  }

  lemma RunsThroughLonger(rule: Rule, w: Path, b: bool, t: nat)
    requires t <= |w| && RunsThrough(rule, w, t)
    ensures RunsThrough(rule, w + [b], t) && (w + [b])[..t] == w[..t]
  {
    forall s | 0 <= s < t
      ensures !rule((w + [b])[..s])
    {
      assert (w + [b])[..s] == w[..s];
    }
    assert (w + [b])[..t] == w[..t];
  }

  /** Once the rule has exercised, all later paths collect the same. */
  lemma {:induction false} StoppedSum(m: Market, c: Contract, spot: real, steps: nat, rule: Rule, w: Path, t: nat)
    requires t <= |w| <= steps && RunsThrough(rule, w, t) && rule(w[..t])
    ensures ExpectedPayoff(m, c, spot, steps, rule, w)
            == Likely(m, w, Discounted(m, t, Payoff(c, PriceAt(m, spot, w[..t]))))
    decreases steps - |w|
  {
    hide Likely, Discounted, Payoff, PriceAt;
    if |w| == steps {
      StopTimeIs(rule, w, 0, t);
    } else {
      RunsThroughLonger(rule, w, true, t);
      RunsThroughLonger(rule, w, false, t);
      StoppedSum(m, c, spot, steps, rule, w + [true], t);
      StoppedSum(m, c, spot, steps, rule, w + [false], t);
      SplitLikely(m, w, Discounted(m, t, Payoff(c, PriceAt(m, spot, w[..t]))));
    }
  }

  lemma {:induction false} PathSumIsRuleValue(m: Market, c: Contract, spot: real, steps: nat, rule: Rule, w: Path)
    requires |w| <= steps && RunsThrough(rule, w, |w|)
    ensures ExpectedPayoff(m, c, spot, steps, rule, w)
            == Likely(m, w, Discounted(m, |w|, RuleValue(m, c, spot, steps, rule, w)))
    decreases steps - |w|
  {
    hide Likely, Discounted, Payoff, PriceAt, HoldValue;
    assert w[..|w|] == w;
    if |w| == steps {
      StopTimeIs(rule, w, 0, |w|);
    } else if rule(w) {
      StoppedSum(m, c, spot, steps, rule, w, |w|);
    } else {
      RunsThroughOne(rule, w, true);
      RunsThroughOne(rule, w, false);
      PathSumIsRuleValue(m, c, spot, steps, rule, w + [true]);
      PathSumIsRuleValue(m, c, spot, steps, rule, w + [false]);
      LikelyHold(m, w, RuleValue(m, c, spot, steps, rule, w + [true]), RuleValue(m, c, spot, steps, rule, w + [false]));
    }
  }

  lemma RunsThroughOne(rule: Rule, w: Path, b: bool)
    requires RunsThrough(rule, w, |w|) && !rule(w)
    ensures RunsThrough(rule, w + [b], |w| + 1)
  {
    RunsThroughLonger(rule, w, b, |w|);
    assert (w + [b])[..|w|] == w;
  }

  // ---------- no rule beats the tree, and the tree's own rule attains it ----------

  lemma {:induction false} RuleBelowAmerican(m: Market, c: Contract, spot: real, steps: nat, rule: Rule, w: Path)
    requires m.NoArbitrage() && |w| <= steps
    ensures RuleValue(m, c, spot, steps, rule, w) <= American(m, c, steps - |w|, PriceAt(m, spot, w))
    decreases steps - |w|
  {
    hide HoldValue, Payoff, PriceAt, Up, Down;
    if |w| < steps && !rule(w) {
      RuleBelowAmerican(m, c, spot, steps, rule, w + [true]);
      RuleBelowAmerican(m, c, spot, steps, rule, w + [false]);
      Extend(m, spot, w);
      var x, k := PriceAt(m, spot, w), steps - |w| - 1;
      HoldMono(m, RuleValue(m, c, spot, steps, rule, w + [true]), RuleValue(m, c, spot, steps, rule, w + [false]),
               American(m, c, k, Up(m, x)), American(m, c, k, Down(m, x)));
    }
  }

  /** Exercise where the exercise value is at least the hold value. */
  function TreeRule(m: Market, c: Contract, spot: real, steps: nat): Rule {
    (w: Path) =>
      |w| < steps && Payoff(c, PriceAt(m, spot, w)) >= Continuation(m, c, steps - |w|, PriceAt(m, spot, w))
  }

  lemma {:induction false} TreeRuleIsAmerican(m: Market, c: Contract, spot: real, steps: nat, w: Path)
    requires |w| <= steps
    ensures RuleValue(m, c, spot, steps, TreeRule(m, c, spot, steps), w)
            == American(m, c, steps - |w|, PriceAt(m, spot, w))
    decreases steps - |w|
  {
    hide HoldValue, Payoff, PriceAt, Up, Down;
    if |w| < steps {
      TreeRuleIsAmerican(m, c, spot, steps, w + [true]);
      TreeRuleIsAmerican(m, c, spot, steps, w + [false]);
      Extend(m, spot, w);
    }
  }

  function Downs(w: Path): (n: nat)
    ensures n <= |w|
  {
    if w == [] then 0 else Downs(w[..|w| - 1]) + if w[|w| - 1] then 0 else 1
  }

  lemma {:induction false} PathNode(m: Market, spot: real, w: Path)
    ensures PriceAt(m, spot, w) == AssetPrice(m, spot, |w|, Downs(w))
  {
    if w == [] {
      TimesOne(Pow(m.u, 0), spot);
      TimesOne(Pow(m.d, 0), spot);
    } else {
      hide AssetPrice, Up, Down;
      var before := w[..|w| - 1];
      PathNode(m, spot, before);
      ChildPrices(m, spot, |before|, Downs(before));
    }
  }

  /** The tree's own rule is the comparison of the inner loop at the node the path has reached. */
  lemma TreeRuleIsNodeComparison(m: Market, c: Contract, spot: real, steps: nat, w: Path)
    requires |w| < steps
    ensures TreeRule(m, c, spot, steps)(w) <==> NodeExercised(m, c, spot, steps, |w|, Downs(w))
  {
    hide NodeExercised, Payoff, Continuation, AssetPrice, PriceAt;
    PathNode(m, spot, w);
    NodeExercise(m, c, spot, steps, |w|, Downs(w));
  }

  lemma WholePathSum(m: Market, c: Contract, spot: real, steps: nat, rule: Rule)
    ensures ExpectedPayoff(m, c, spot, steps, rule, []) == RuleValue(m, c, spot, steps, rule, [])
  {
    PathSumIsRuleValue(m, c, spot, steps, rule, []);
    TimesOne(Pow(m.discount, 0), RuleValue(m, c, spot, steps, rule, []));
    TimesOne(Probability(m, []), RuleValue(m, c, spot, steps, rule, []));
  }

  /** Every early-exercise rule is worth at most the returned price; the tree's own rule is worth exactly that. */
  lemma PriceIsOptimal(m: Market, c: Contract, spot: real, steps: nat)
    requires m.NoArbitrage()
    ensures forall rule: Rule ::
              ExpectedPayoff(m, c, spot, steps, rule, []) <= NodeValue(m, c, spot, steps, 0, 0)
    ensures ExpectedPayoff(m, c, spot, steps, TreeRule(m, c, spot, steps), []) == NodeValue(m, c, spot, steps, 0, 0)
  {
    hide ExpectedPayoff, TreeRule, NodeValue, RuleValue, American;
    PriceIsAmerican(m, c, spot, steps);
    assert PriceAt(m, spot, []) == spot;
    forall rule: Rule
      ensures ExpectedPayoff(m, c, spot, steps, rule, []) <= NodeValue(m, c, spot, steps, 0, 0)
    {
      WholePathSum(m, c, spot, steps, rule);
      RuleBelowAmerican(m, c, spot, steps, rule, []);
    }
    WholePathSum(m, c, spot, steps, TreeRule(m, c, spot, steps));
    TreeRuleIsAmerican(m, c, spot, steps, []);
  }
}
