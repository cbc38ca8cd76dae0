/** The tree value and the volatility, that is the size of the up factor. */
module Volatility {
  import opened RealArith
  import opened BinomialTree
  import opened AmericanOption
  import opened Sensitivity

  /** The same growth, and moves at least as wide. */
  ghost predicate Wider(m: Market, m': Market) {
    m.NoArbitrage() && m'.NoArbitrage() && m.growth == m'.growth && m.u <= m'.u
  }

  /** How far the factor `f` lies from the wider down factor to the wider up factor. */
  function Share(m': Market, f: real): real
    requires m'.d < m'.u
  {
    (f - m'.d) / (m'.u - m'.d)
  }

  lemma WiderMoves(m: Market, m': Market)
    requires Wider(m, m')
    ensures 0.0 < m'.d <= m.d < m.u <= m'.u
    ensures m.discount == m'.discount
  {
    FactorBounds(m);
    FactorBounds(m');
    Inverses(m.u, m.d, m'.u, m'.d);
    SameInverse(m.growth, m.discount, m'.discount);
  }

  lemma Inverses(u: real, d: real, u': real, d': real)
    requires 0.0 < u <= u' && d > 0.0 && d' > 0.0 && u * d == 1.0 && u' * d' == 1.0
    ensures d' <= d
  {
    assert u * (d' - d) == u * d' - u * d && d' * u == u * d' && d' * u' == u' * d';
    MulMono(d', u, u');
    if d < d' {
      MulPositive(u, d' - d);
    }
  }

  lemma SameInverse(g: real, a: real, b: real)
    requires g > 0.0 && a * g == 1.0 && b * g == 1.0
    ensures a == b
  {
    assert a * (b * g) == b * (a * g);
  }

  lemma ShareTimes(m': Market, f: real)
    requires m'.d < m'.u
    ensures Share(m', f) * (m'.u - m'.d) == f - m'.d
  {
  }

  lemma ShareRange(s: real, w: real, y: real)
    requires w > 0.0 && s * w == y && 0.0 <= y <= w
    ensures 0.0 <= s <= 1.0
  {
    assert (s - 1.0) * w == s * w - w && -s * w == -(s * w);
    if s < 0.0 {
      MulPositive(-s, w);
    }
    if s > 1.0 {
      MulPositive(s - 1.0, w);
    }
  }

  lemma MixByWidth(s: real, u: real, d: real, f: real)
    requires s * (u - d) == f - d
    ensures Mix(s, u, d) == f
  {
    assert s * u + (1.0 - s) * d == s * (u - d) + d;
  }

  lemma ShareBounds(m': Market, f: real)
    requires m'.d < m'.u && m'.d <= f <= m'.u
    ensures 0.0 <= Share(m', f) <= 1.0
    ensures Mix(Share(m', f), m'.u, m'.d) == f
  {
    ShareTimes(m', f);
    hide Share, Mix;
    ShareRange(Share(m', f), m'.u - m'.d, f - m'.d);
    MixByWidth(Share(m', f), m'.u, m'.d, f);
  }

  /** Each narrow move leads to a price between those of the wide moves. */
  lemma MovesBetween(m: Market, m': Market, x: real)
    requires Wider(m, m') && m'.d < m'.u
    ensures 0.0 <= Share(m', m.u) <= 1.0 && 0.0 <= Share(m', m.d) <= 1.0
    ensures Up(m, x) == Mix(Share(m', m.u), Up(m', x), Down(m', x))
    ensures Down(m, x) == Mix(Share(m', m.d), Up(m', x), Down(m', x))
  {
    hide Share, Market.NoArbitrage, Mix, Up, Down;
    WiderMoves(m, m');
    ShareBounds(m', m.u);
    ShareBounds(m', m.d);
    MixOfMoves(m', Share(m', m.u), m.u, x);
    MixOfMoves(m', Share(m', m.d), m.d, x);
    SameMoves(m, x);
  }

  lemma SameMoves(m: Market, x: real)
    ensures Up(m, x) == m.u * x && Down(m, x) == m.d * x
  {
  }

  lemma MixOfMoves(m': Market, s: real, f: real, x: real)
    requires Mix(s, m'.u, m'.d) == f
    ensures Mix(s, Up(m', x), Down(m', x)) == f * x
  {
    MixScale(s, m'.u, m'.d, x);
    SameMoves(m', x);
  }

  /** The wide up probability is that of ending up after a narrow move split into its shares of the wide ones. */
  lemma WideProbability(m: Market, m': Market)
    requires Wider(m, m') && m'.d < m'.u
    ensures m'.p == m.p * Share(m', m.u) + (1.0 - m.p) * Share(m', m.d)
  {
    hide Share, Mix, Market.NoArbitrage;
    Earns(m);
    Earns(m');
    ShareTimes(m', m.u);
    ShareTimes(m', m.d);
    SameMean(m.p, m.u, m.d, Share(m', m.u), Share(m', m.d), m'.p, m'.u, m'.d);
  }

  lemma Earns(m: Market)
    requires m.NoArbitrage()
    ensures Mix(m.p, m.u, m.d) == m.growth
  {
  }

  lemma SameMean(p: real, u: real, d: real, s: real, r: real, p': real, u': real, d': real)
    requires d' < u' && Mix(p, u, d) == Mix(p', u', d')
    requires s * (u' - d') == u - d' && r * (u' - d') == d - d'
    ensures p' == p * s + (1.0 - p) * r
  {
    var w := u' - d';
    SplitShares(p, s, r, w, u, d, d');
    assert p' * w == p' * u' + (1.0 - p') * d' - d';
    Cancel(p', p * s + (1.0 - p) * r, w);
  }

  lemma SplitShares(p: real, s: real, r: real, w: real, u: real, d: real, d': real)
    requires s * w == u - d' && r * w == d - d'
    ensures (p * s + (1.0 - p) * r) * w == p * u + (1.0 - p) * d - d'
  {
    assert (p * s + (1.0 - p) * r) * w == p * (s * w) + (1.0 - p) * (r * w);
    assert p * (u - d') + (1.0 - p) * (d - d') == p * u + (1.0 - p) * d - d';
  }

  lemma Cancel(a: real, b: real, w: real)
    requires w > 0.0 && a * w == b * w
    ensures a == b
  {
    if a < b {
      MulPositive(b - a, w);
    }
    if b < a {
      MulPositive(a - b, w);
    }
  }

  /** Splitting both narrow moves prices like the wide market. */
  lemma HoldSplit(m: Market, m': Market, up: real, down: real)
    requires Wider(m, m') && m'.d < m'.u
    ensures HoldValue(m, Mix(Share(m', m.u), up, down), Mix(Share(m', m.d), up, down)) == HoldValue(m', up, down)
  {
    WiderMoves(m, m');
    WideProbability(m, m');
    var s, r := Share(m', m.u), Share(m', m.d);
    hide Share, Market.NoArbitrage;
    MixOfMixes(m.p, s, r, m'.p, up, down);
  }

  lemma MixOfMixes(p: real, s: real, r: real, p': real, up: real, down: real)
    requires p' == p * s + (1.0 - p) * r
    ensures p * Mix(s, up, down) + (1.0 - p) * Mix(r, up, down) == p' * up + (1.0 - p') * down
  {
    assert p * Mix(s, up, down) == p * s * up + (p - p * s) * down;
    var q := 1.0 - p;
    assert q * Mix(r, up, down) == q * r * up + (q - q * r) * down;
  }

  /** At the same interest a higher volatility never lowers the price, of puts and calls, at any asset price. */
  lemma {:induction false} VolatilitySensitivity(m: Market, m': Market, c: Contract, k: nat, x: real)
    requires Wider(m, m')
    ensures American(m, c, k, x) <= American(m', c, k, x)
  {
    if k == 0 {
    } else {
      WiderMoves(m, m');
      hide HoldValue, Up, Down, Mix, Share, Market.NoArbitrage, Payoff;
      var up, down := American(m', c, k - 1, Up(m', x)), American(m', c, k - 1, Down(m', x));
      var s, r := Share(m', m.u), Share(m', m.d);
      VolatilitySensitivity(m, m', c, k - 1, Up(m, x));
      VolatilitySensitivity(m, m', c, k - 1, Down(m, x));
      MovesBetween(m, m', x);
      PriceConvexity(m', c, k - 1, s, Up(m', x), Down(m', x));
      PriceConvexity(m', c, k - 1, r, Up(m', x), Down(m', x));
      HoldMono(m, American(m, c, k - 1, Up(m, x)), American(m, c, k - 1, Down(m, x)),
               Mix(s, up, down), Mix(r, up, down));
      HoldSplit(m, m', up, down);
    }
  }

  /** The returned price never falls when the up factor, that is the volatility, rises. */
  lemma HigherVolatility(c: Contract, spot: real, u: real, u': real, growth: real, steps: nat)
    requires 1.0 < u <= u' && growth > 0.0 && 1.0 / u < growth < u
    ensures NodeValue(Parameters(u, growth), c, spot, steps, 0, 0)
            <= NodeValue(Parameters(u', growth), c, spot, steps, 0, 0)
  {
    Inverses(u, 1.0 / u, u', 1.0 / u');
    ParametersNoArbitrage(u, growth);
    ParametersNoArbitrage(u', growth);
    var m, m' := Parameters(u, growth), Parameters(u', growth);
    PriceIsAmerican(m, c, spot, steps);
    PriceIsAmerican(m', c, spot, steps);
    assert Wider(m, m');
    hide *;
    VolatilitySensitivity(m, m', c, steps, spot);
  }
}
