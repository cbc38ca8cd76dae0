/**
 * What the Black-Scholes formulas mean: identities between price and Greeks that hold when the numerical library obeys
 * the textbook laws of its functions.
 */
module BlackScholesLaws {
  import opened Option
  import opened RealArith
  import opened BinomialTree
  import opened BlackScholes

  ghost predicate ExpLaws(num: Numerics) {
    && (forall a, b :: num.exp(a + b) == num.exp(a) * num.exp(b))
    && (forall x | x > 0.0 :: num.exp(num.log(x)) == x)
  }

  ghost predicate RootLaw(num: Numerics) {
    forall x | x > 0.0 :: num.sqrt(x) > 0.0 && num.sqrt(x) * num.sqrt(x) == x
  }

  ghost predicate NormalLaws(num: Numerics) {
    && (forall x :: num.pdf(x) == num.pdf(0.0) * num.exp(-(x * x) / 2.0))
    && (forall x :: num.cdf(-x) == 1.0 - num.cdf(x))
  }

  /** The exponent of the normal density. */
  function HalfSquare(x: real): real { -(x * x) / 2.0 }

  /** The library computes exponentials, roots and the normal distribution. */
  ghost predicate Laws(num: Numerics) {
    ExpLaws(num) && RootLaw(num) && NormalLaws(num)
  }

  lemma LawsGiveRoots(num: Numerics)
    requires RootLaw(num)
    ensures num.PositiveRoots()
  {
  }

  // ---------- spot and strike weigh the two densities alike ----------

  lemma ExpSum(num: Numerics, a: real, b: real, c: real)
    requires ExpLaws(num) && c == a + b
    ensures num.exp(c) == num.exp(a) * num.exp(b)
  {
  }

  lemma ExpLog(num: Numerics, x: real)
    requires ExpLaws(num) && x > 0.0
    ensures num.exp(num.log(x)) == x
  {
  }

  lemma PdfForm(num: Numerics, x: real)
    requires NormalLaws(num)
    ensures num.pdf(x) == num.pdf(0.0) * num.exp(HalfSquare(x))
  {
  }

  lemma CdfMirror(num: Numerics, x: real)
    requires NormalLaws(num)
    ensures num.cdf(-x) == 1.0 - num.cdf(x)
  {
  }

  lemma ExpZero(num: Numerics)
    requires ExpLaws(num)
    ensures num.exp(0.0) == 1.0
  {
    hide ExpLaws;
    var l := num.log(1.0);
    ExpSum(num, 0.0, l, l);
    ExpLog(num, 1.0);
  }

  /** exp(-log(spot / strike)) is strike / spot, without the division. */
  lemma ExpMinusLog(num: Numerics, spot: real, strike: real)
    requires ExpLaws(num) && spot > 0.0 && strike > 0.0
    ensures spot * num.exp(-num.log(spot / strike)) == strike
  {
    hide ExpLaws;
    var x := spot / strike;
    PositiveQuotient(spot, strike);
    var l := num.log(x);
    ExpLog(num, x);
    ExpZero(num);
    ExpSum(num, l, -l, 0.0);
    CrossOut(spot, strike, x, num.exp(-l));
  }

  lemma PositiveQuotient(a: real, b: real)
    requires a > 0.0 && b > 0.0
    ensures a / b > 0.0 && a / b * b == a
  {
  }

  lemma CrossOut(spot: real, strike: real, x: real, e: real)
    requires x * strike == spot && x * e == 1.0
    ensures spot * e == strike
  {
    assert spot * e == strike * (x * e);
  }

  lemma SquaresDiffer(d1: real, w: real, l: real, drift: real, variance: real)
    requires d1 * w == l + drift + 0.5 * variance && w * w == variance
    ensures HalfSquare(d1) == HalfSquare(d1 - w) - l - drift
  {
    assert (d1 - w) * (d1 - w) == d1 * d1 - 2.0 * (d1 * w) + w * w;
  }

  /** D1 times the volatility's root, without the division. */
  lemma D1Times(m: Model, spot: real, strike: real, t: real, vol: real)
    requires spot > 0.0 && strike > 0.0 && t > 0.0 && vol > 0.0 && m.num.PositiveRoots()
    ensures D1(m, spot, strike, t, vol) * VolRoot(m, t, vol)
            == m.num.log(spot / strike) + (m.r - m.q) * t + 0.5 * (vol * vol * t)
  {
    MulPositive(vol, m.num.sqrt(t));
    var num := m.num.log(spot / strike) + (m.r - m.q + 0.5 * (vol * vol)) * t;
    assert D1(m, spot, strike, t, vol) == num / VolRoot(m, t, vol);
    hide D1, VolRoot;
    assert (m.r - m.q + 0.5 * (vol * vol)) * t == (m.r - m.q) * t + 0.5 * (vol * vol * t);
    QuotientTimes(num, VolRoot(m, t, vol), D1(m, spot, strike, t, vol));
  }

  lemma QuotientTimes(a: real, b: real, q: real)
    requires b != 0.0 && q == a / b
    ensures q * b == a
  {
  }

  lemma VolRootSquared(m: Model, t: real, vol: real)
    requires t > 0.0 && RootLaw(m.num)
    ensures VolRoot(m, t, vol) * VolRoot(m, t, vol) == vol * vol * t
  {
    var s := m.num.sqrt(t);
    assert s * s == t;
    assert (vol * s) * (vol * s) == vol * vol * (s * s);
  }

  /** Log-moneyness with its drift. */
  function Moneyness(m: Model, spot: real, strike: real, t: real): real
    requires strike > 0.0
  {
    m.num.log(spot / strike) + (m.r - m.q) * t
  }

  /** Half the difference of the squares of d1 and d2 is the log-moneyness with its drift. */
  lemma SquaresOfD(m: Model, spot: real, strike: real, t: real, vol: real)
    requires spot > 0.0 && strike > 0.0 && t > 0.0 && vol > 0.0 && RootLaw(m.num) && m.num.PositiveRoots()
    ensures HalfSquare(D1(m, spot, strike, t, vol))
            == HalfSquare(D2(m, spot, strike, t, vol)) - Moneyness(m, spot, strike, t)
  {
    var d1, w := D1(m, spot, strike, t, vol), VolRoot(m, t, vol);
    assert D2(m, spot, strike, t, vol) == d1 - w;
    hide D1, D2, VolRoot, RootLaw, HalfSquare, Numerics.PositiveRoots;
    D1Times(m, spot, strike, t, vol);
    VolRootSquared(m, t, vol);
    SquaresDiffer(d1, w, m.num.log(spot / strike), (m.r - m.q) * t, vol * vol * t);
  }

  lemma DensityFactor(num: Numerics, d1: real, d2: real, gap: real)
    requires ExpLaws(num) && NormalLaws(num) && HalfSquare(d1) == HalfSquare(d2) + gap
    ensures num.pdf(d1) == num.pdf(d2) * num.exp(gap)
  {
    hide ExpLaws, NormalLaws, HalfSquare;
    PdfForm(num, d1);
    PdfForm(num, d2);
    ExpSum(num, HalfSquare(d2), gap, HalfSquare(d1));
    Product(num.pdf(0.0), num.exp(HalfSquare(d2)), num.exp(gap), num.exp(HalfSquare(d1)), num.pdf(d1), num.pdf(d2));
  }

  lemma Product(p: real, a: real, gap: real, b: real, f1: real, f2: real)
    requires b == a * gap && f1 == p * b && f2 == p * a
    ensures f1 == f2 * gap
  {
    Reassociate(p, a, gap);
  }

  lemma Reassociate(a: real, b: real, c: real)
    ensures a * (b * c) == (a * b) * c
  {
  }

  /** Spot and strike, each with its discount factor, weigh the densities at d1 and d2 alike. */
  lemma SpotStrikeIdentity(m: Model, spot: real, strike: real, t: real, vol: real)
    requires spot > 0.0 && strike > 0.0 && t > 0.0 && vol > 0.0 && Laws(m.num) && m.num.PositiveRoots()
    ensures spot * ExpQt(m, t) * m.num.pdf(D1(m, spot, strike, t, vol))
            == strike * ExpRt(m, t) * m.num.pdf(D2(m, spot, strike, t, vol))
  {
    hide ExpLaws, NormalLaws, RootLaw, D1, D2, ExpQt, ExpRt, Moneyness, HalfSquare;
    var l, gap := m.num.log(spot / strike), -Moneyness(m, spot, strike, t);
    var e1, e2 := m.num.pdf(D1(m, spot, strike, t, vol)), m.num.pdf(D2(m, spot, strike, t, vol));
    SquaresOfD(m, spot, strike, t, vol);
    DensityFactor(m.num, D1(m, spot, strike, t, vol), D2(m, spot, strike, t, vol), gap);
    ExpMinusLog(m.num, spot, strike);
    Exponents(m, spot, strike, t);
    WeighAlike(spot, strike, ExpQt(m, t), ExpRt(m, t), m.num.exp(-l), m.num.exp(gap), e1, e2);
  }

  lemma Exponents(m: Model, spot: real, strike: real, t: real)
    requires ExpLaws(m.num) && strike > 0.0
    ensures ExpQt(m, t) * m.num.exp(-Moneyness(m, spot, strike, t))
            == m.num.exp(-m.num.log(spot / strike)) * ExpRt(m, t)
  {
    hide ExpLaws;
    var l := m.num.log(spot / strike);
    assert ExpQt(m, t) == m.num.exp(Carry(m.q, t)) && ExpRt(m, t) == m.num.exp(Carry(m.r, t));
    assert Carry(m.q, t) + -Moneyness(m, spot, strike, t) == -l + Carry(m.r, t);
    hide ExpQt, ExpRt, Moneyness, Carry;
    ExpFour(m.num, Carry(m.q, t), -Moneyness(m, spot, strike, t), -l, Carry(m.r, t));
  }

  lemma ExpFour(num: Numerics, a: real, b: real, c: real, d: real)
    requires ExpLaws(num) && a + b == c + d
    ensures num.exp(a) * num.exp(b) == num.exp(c) * num.exp(d)
  {
    hide ExpLaws;
    var sum := a + b;
    ExpSum(num, a, b, sum);
    ExpSum(num, c, d, sum);
  }

  lemma WeighAlike(spot: real, strike: real, eq: real, er: real, back: real, gap: real, e1: real, e2: real)
    requires e1 == e2 * gap && spot * back == strike && eq * gap == back * er
    ensures spot * eq * e1 == strike * er * e2
  {
    assert spot * eq * (e2 * gap) == spot * (eq * gap) * e2;
    assert spot * (back * er) * e2 == (spot * back) * er * e2;
  }

  // ---------- put-call parity ----------

  /** A call less a put is the discounted spot less the discounted strike. */
  lemma PricesParity(m: Model, spot: real, strike: real, t: real, vol: real)
    requires spot > 0.0 && strike > 0.0 && t > 0.0 && vol > 0.0 && NormalLaws(m.num) && m.num.PositiveRoots()
    ensures RawPrice(m, spot, strike, t, vol, CE) - RawPrice(m, spot, strike, t, vol, PE)
            == spot * ExpQt(m, t) - strike * ExpRt(m, t)
  {
    var n1, n2 := m.num.cdf(D1(m, spot, strike, t, vol)), m.num.cdf(D2(m, spot, strike, t, vol));
    hide D1, D2, ExpQt, ExpRt, Numerics.PositiveRoots, NormalLaws;
    CdfMirror(m.num, D1(m, spot, strike, t, vol));
    CdfMirror(m.num, D2(m, spot, strike, t, vol));
    var x, y := spot * ExpQt(m, t), strike * ExpRt(m, t);
    assert RawPrice(m, spot, strike, t, vol, CE) == x * n1 - y * n2;
    assert RawPrice(m, spot, strike, t, vol, PE) == y * (1.0 - n2) - x * (1.0 - n1);
  }

  // ---------- the Greeks ----------

  /** The reported Greeks, scaled back, satisfy the pricing equation of the model: theta is what the rest leaves. */
  lemma PricingEquation(m: Model, spot: real, strike: real, t: real, vol: real, kind: OptionType)
    requires spot > 0.0 && strike > 0.0 && t > 0.0 && vol > 0.0 && m.num.PositiveRoots()
    ensures var g := RawGreeks(m, spot, strike, t, vol, kind);
            365.0 * g.theta + (m.r - m.q) * spot * g.delta + 0.5 * (vol * vol) * (spot * spot) * g.gamma
            == m.r * RawPrice(m, spot, strike, t, vol, kind)
  {
    hide D1, D2, ExpQt, ExpRt, RawGamma, VolatilityDecay, Numerics.PositiveRoots;
    var d1, d2 := D1(m, spot, strike, t, vol), D2(m, spot, strike, t, vol);
    var g := RawGreeks(m, spot, strike, t, vol, kind);
    var decay := VolatilityDecay(m, spot, t, vol, m.num.pdf(d1));
    var eq, er := ExpQt(m, t), ExpRt(m, t);
    GammaTerm(m, spot, t, vol, m.num.pdf(d1));
    if kind == CE {
      var n1, n2 := m.num.cdf(d1), m.num.cdf(d2);
      assert g.delta == eq * n1 && g.gamma == RawGamma(m, spot, t, vol, m.num.pdf(d1));
      assert RawPrice(m, spot, strike, t, vol, kind) == spot * eq * n1 - strike * er * n2;
      assert 365.0 * g.theta == decay + -m.r * strike * er * n2 + m.q * spot * eq * n1;
      hide *;
      CallEquation(m.r, m.q, spot, strike, eq, er, n1, n2);
    } else {
      var n1, n2 := m.num.cdf(-d1), m.num.cdf(-d2);
      assert g.delta == -eq * n1 && g.gamma == RawGamma(m, spot, t, vol, m.num.pdf(d1));
      assert RawPrice(m, spot, strike, t, vol, kind) == strike * er * n2 - spot * eq * n1;
      assert 365.0 * g.theta == decay + m.r * strike * er * n2 + -m.q * spot * eq * n1;
      hide *;
      PutEquation(m.r, m.q, spot, strike, eq, er, n1, n2);
    }
  }

  lemma GammaTerm(m: Model, spot: real, t: real, vol: real, e: real)
    requires spot > 0.0 && t > 0.0 && vol > 0.0 && m.num.PositiveRoots()
    ensures 0.5 * (vol * vol) * (spot * spot) * RawGamma(m, spot, t, vol, e) == -VolatilityDecay(m, spot, t, vol, e)
  {
    var s := m.num.sqrt(t);
    MulPositive(spot, vol);
    MulPositive(spot * vol, s);
    QuotientTimes(ExpQt(m, t) * e, spot * vol * s, RawGamma(m, spot, t, vol, e));
    assert VolatilityDecay(m, spot, t, vol, e) == -(spot * ExpQt(m, t) * e * vol) / (2.0 * s);
    QuotientTimes(-(spot * ExpQt(m, t) * e * vol), 2.0 * s, VolatilityDecay(m, spot, t, vol, e));
    hide RawGamma, VolatilityDecay, ExpQt;
    DecayArith(spot, vol, s, ExpQt(m, t) * e, RawGamma(m, spot, t, vol, e), VolatilityDecay(m, spot, t, vol, e));
  }

  lemma DecayArith(spot: real, vol: real, s: real, x: real, gamma: real, decay: real)
    requires s > 0.0 && gamma * (spot * vol * s) == x && decay * (2.0 * s) == -(spot * x * vol)
    ensures 0.5 * (vol * vol) * (spot * spot) * gamma == -decay
  {
    var a := 0.5 * (vol * vol) * (spot * spot) * gamma;
    assert a * (2.0 * s) == spot * vol * (gamma * (spot * vol * s));
    assert spot * vol * x == spot * x * vol;
    assert -decay * (2.0 * s) == -(decay * (2.0 * s));
    Cancel(a, -decay, 2.0 * s);
  }

  lemma Cancel(a: real, b: real, f: real)
    requires f > 0.0 && a * f == b * f
    ensures a == b
  {
    if a < b {
      MulPositive(b - a, f);
    }
    if b < a {
      MulPositive(a - b, f);
    }
  }

  lemma CallEquation(r: real, q: real, spot: real, strike: real, eq: real, er: real, n1: real, n2: real)
    ensures -r * strike * er * n2 + q * spot * eq * n1 + (r - q) * spot * (eq * n1)
            == r * (spot * eq * n1 - strike * er * n2)
  {
  }

  lemma PutEquation(r: real, q: real, spot: real, strike: real, eq: real, er: real, n1: real, n2: real)
    ensures r * strike * er * n2 + -q * spot * eq * n1 + (r - q) * spot * (-eq * n1)
            == r * (strike * er * n2 - spot * eq * n1)
  {
  }

  /** Vega and gamma are one sensitivity: per percent of volatility and per squared price. */
  lemma VegaIsGamma(m: Model, spot: real, strike: real, t: real, vol: real, kind: OptionType)
    requires spot > 0.0 && strike > 0.0 && t > 0.0 && vol > 0.0 && RootLaw(m.num) && m.num.PositiveRoots()
    ensures var g := RawGreeks(m, spot, strike, t, vol, kind);
            100.0 * g.vega == g.gamma * (spot * spot) * vol * t
  {
    var e := m.num.pdf(D1(m, spot, strike, t, vol));
    var s := m.num.sqrt(t);
    var g := RawGreeks(m, spot, strike, t, vol, kind);
    MulPositive(spot, vol);
    MulPositive(spot * vol, s);
    assert 100.0 * g.vega == spot * ExpQt(m, t) * e * s;
    assert g.gamma == RawGamma(m, spot, t, vol, e);
    QuotientTimes(ExpQt(m, t) * e, spot * vol * s, RawGamma(m, spot, t, vol, e));
    hide RawGreeks, RawGamma, ExpQt, D1;
    VegaArith(spot, vol, t, s, ExpQt(m, t) * e, g.gamma);
  }

  lemma VegaArith(spot: real, vol: real, t: real, s: real, x: real, gamma: real)
    requires gamma * (spot * vol * s) == x && s * s == t
    ensures spot * x * s == gamma * (spot * spot) * vol * t
  {
    assert spot * (gamma * (spot * vol * s)) * s == gamma * (spot * spot) * vol * (s * s);
  }

  /** Rho is what the delta position is financed with: per percent of interest, over the time left. */
  lemma RhoIsFinancing(m: Model, spot: real, strike: real, t: real, vol: real, kind: OptionType)
    requires spot > 0.0 && strike > 0.0 && t > 0.0 && vol > 0.0 && m.num.PositiveRoots()
    ensures var g := RawGreeks(m, spot, strike, t, vol, kind);
            100.0 * g.rho == t * (spot * g.delta - RawPrice(m, spot, strike, t, vol, kind))
  {
    hide D1, D2, ExpQt, ExpRt, RawGamma, VolatilityDecay, Numerics.PositiveRoots;
    var d1, d2 := D1(m, spot, strike, t, vol), D2(m, spot, strike, t, vol);
    var g := RawGreeks(m, spot, strike, t, vol, kind);
    var eq, er := ExpQt(m, t), ExpRt(m, t);
    if kind == CE {
      var n1, n2 := m.num.cdf(d1), m.num.cdf(d2);
      assert g.delta == eq * n1 && 100.0 * g.rho == strike * t * er * n2;
      assert RawPrice(m, spot, strike, t, vol, kind) == spot * eq * n1 - strike * er * n2;
      hide *;
      Financing(spot, strike, t, eq, er, n1, n2);
    } else {
      var n1, n2 := m.num.cdf(-d1), m.num.cdf(-d2);
      assert g.delta == -eq * n1 && 100.0 * g.rho == -strike * t * er * n2;
      assert RawPrice(m, spot, strike, t, vol, kind) == strike * er * n2 - spot * eq * n1;
      hide *;
      Financing(spot, strike, t, eq, er, n1, n2);
    }
  }

  lemma Financing(spot: real, strike: real, t: real, eq: real, er: real, n1: real, n2: real)
    ensures t * (spot * (eq * n1) - (spot * eq * n1 - strike * er * n2)) == strike * t * er * n2
    ensures t * (spot * (-eq * n1) - (strike * er * n2 - spot * eq * n1)) == -strike * t * er * n2
  {
  }

  /** The deltas of a call and a put of one strike differ by one discounted share. */
  lemma DeltasParity(m: Model, spot: real, strike: real, t: real, vol: real)
    requires spot > 0.0 && strike > 0.0 && t > 0.0 && vol > 0.0 && NormalLaws(m.num) && m.num.PositiveRoots()
    ensures RawGreeks(m, spot, strike, t, vol, CE).delta - RawGreeks(m, spot, strike, t, vol, PE).delta == ExpQt(m, t)
  {
    var n1 := m.num.cdf(D1(m, spot, strike, t, vol));
    hide D1, D2, ExpQt, ExpRt, RawGamma, VolatilityDecay, NormalLaws, Numerics.PositiveRoots;
    CdfMirror(m.num, D1(m, spot, strike, t, vol));
    assert RawGreeks(m, spot, strike, t, vol, CE).delta == ExpQt(m, t) * n1;
    assert RawGreeks(m, spot, strike, t, vol, PE).delta == -ExpQt(m, t) * (1.0 - n1);
  }

  // ---------- what is reported ----------

  /** `y` is `x` rounded to `n` decimals: a whole number of units in the last place, at most half a unit away. */
  ghost predicate RoundsTo(x: real, y: real, n: nat) {
    var units := y * Pow(10.0, n);
    units.Floor as real == units && -0.5 <= units - x * Pow(10.0, n) <= 0.5
  }

  ghost predicate RoundingLaw(num: Numerics) {
    forall x, n :: RoundsTo(x, num.round(x, n), n)
  }

  /** The batch reports prices in hundredths, never negative, and Greeks to five decimals, gamma to six. */
  lemma Reported(m: Model, spot: real, t: real, o: Fields)
    requires RoundingLaw(m.num) && m.num.PositiveRoots()
    requires spot > 0.0 && t > 0.0 && o.strike > 0.0 && Positive(o.iv)
    ensures var raw := RawGreeks(m, spot, o.strike, t, o.iv.value / 100.0, o.kind);
            var after := ScalarUpdate(m, spot, t, o);
            && RoundsTo(Max(RawPrice(m, spot, o.strike, t, o.iv.value / 100.0, o.kind), 0.0), after.price, 2)
            && RoundsTo(raw.delta, after.greeks.delta, 5) && RoundsTo(raw.gamma, after.greeks.gamma, 6)
            && RoundsTo(raw.theta, after.greeks.theta, 5) && RoundsTo(raw.vega, after.greeks.vega, 5)
            && RoundsTo(raw.rho, after.greeks.rho, 5)
  {
    hide RoundsTo, RawGreeks, RawPrice, Numerics.PositiveRoots;
  }

  /** Outside the formulas' range: at or past expiry an option is worth what exercising it pays and has no Greeks, and
      without a positive spot price and strike it is worth nothing. */
  lemma OutOfRange(m: Model, spot: real, t: real, o: Fields)
    requires m.num.PositiveRoots() && Positive(o.iv) && (t <= 0.0 || spot <= 0.0 || o.strike <= 0.0)
    ensures var after := ScalarUpdate(m, spot, t, o);
            && after.greeks == Greeks(0.0, 0.0, 0.0, 0.0, 0.0) && after.iv == o.iv
            && (spot <= 0.0 || o.strike <= 0.0 ==> after.price == 0.0)
            && (spot > 0.0 && o.strike > 0.0 ==>
                  after.price == var gain := if o.kind == CE then spot - o.strike else o.strike - spot;
                                 if gain > 0.0 then gain else 0.0)
  {
  }

  /** Which volatility is used: the option's own, or what the solver makes of the mid price, or else of the last one. */
  lemma VolatilityUsed(m: Model, spot: real, t: real, o: Fields)
    requires m.num.PositiveRoots()
    ensures var after := ScalarUpdate(m, spot, t, o).iv;
            && (Positive(o.iv) ==> after == o.iv)
            && (!Positive(o.iv) && Positive(o.mid) ==>
                  var solved := m.solveIv(o.mid.value, spot, o.strike, t, o.kind);
                  after == if Positive(solved) then solved else o.iv)
            && (!Positive(o.iv) && !Positive(o.mid) && Positive(o.ltp) ==>
                  var solved := m.solveIv(o.ltp.value, spot, o.strike, t, o.kind);
                  after == if Positive(solved) then solved else o.iv)
            && (!Positive(o.iv) && !Positive(o.mid) && !Positive(o.ltp) ==> after == o.iv)
  {
    hide Calculate, CalculateGreeks, Numerics.PositiveRoots;
  }
}
