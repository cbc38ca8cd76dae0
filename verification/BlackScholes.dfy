/** BlackScholesModel: the scalar formulas and the scalar batch. */
module BlackScholes {
  import opened Option
  import opened RealArith
  import opened BinomialTree

  /** The numerical library: nothing is known of it except that roots of positive numbers are positive. */
  datatype Numerics = Numerics(log: real -> real, exp: real -> real, sqrt: real -> real,
                               cdf: real -> real, pdf: real -> real, round: (real, nat) -> real)
  {
    ghost predicate PositiveRoots() {
      forall x | x > 0.0 :: sqrt(x) > 0.0
    }
  }

  /** The model's rates, the library, and the implied-volatility solver; `None` is an exception of the solver. */
  datatype Model =
    Model(r: real, q: real, num: Numerics, solveIv: (real, real, real, real, OptionType) -> Option<real>)

  datatype Greeks = Greeks(delta: real, gamma: real, theta: real, vega: real, rho: real)

  const NO_GREEKS := Greeks(0.0, 0.0, 0.0, 0.0, 0.0)

  datatype Theoretical = Theoretical(price: real, d1: real, d2: real)

  function VolRoot(m: Model, t: real, vol: real): real {
    vol * m.num.sqrt(t)
  }

  function D1(m: Model, spot: real, strike: real, t: real, vol: real): real
    requires spot > 0.0 && strike > 0.0 && t > 0.0 && vol > 0.0 && m.num.PositiveRoots()
  {
    MulPositive(vol, m.num.sqrt(t));
    (m.num.log(spot / strike) + (m.r - m.q + 0.5 * (vol * vol)) * t) / VolRoot(m, t, vol)
  }

  function D2(m: Model, spot: real, strike: real, t: real, vol: real): real
    requires spot > 0.0 && strike > 0.0 && t > 0.0 && vol > 0.0 && m.num.PositiveRoots()
  {
    D1(m, spot, strike, t, vol) - VolRoot(m, t, vol)
  }

  function Intrinsic(kind: OptionType, spot: real, strike: real): real {
    Payoff(Contract(kind, strike), spot)
  }

  /** The exponent of a discount factor. */
  function Carry(rate: real, t: real): real {
    -rate * t
  }

  /** The dividend and interest discount factors to expiry. */
  function ExpQt(m: Model, t: real): real {
    m.num.exp(Carry(m.q, t))
  }

  function ExpRt(m: Model, t: real): real {
    m.num.exp(Carry(m.r, t))
  }

  /** The price before it is clamped at zero and rounded. */
  function RawPrice(m: Model, spot: real, strike: real, t: real, vol: real, kind: OptionType): real
    requires spot > 0.0 && strike > 0.0 && t > 0.0 && vol > 0.0 && m.num.PositiveRoots()
  {
    var d1, d2 := D1(m, spot, strike, t, vol), D2(m, spot, strike, t, vol);
    if kind == CE then spot * ExpQt(m, t) * m.num.cdf(d1) - strike * ExpRt(m, t) * m.num.cdf(d2)
    else strike * ExpRt(m, t) * m.num.cdf(-d2) - spot * ExpQt(m, t) * m.num.cdf(-d1)
  }

  /** Gamma, the same for calls and puts. */
  function RawGamma(m: Model, spot: real, t: real, vol: real, pdfD1: real): real
    requires spot > 0.0 && t > 0.0 && vol > 0.0 && m.num.PositiveRoots()
  {
    MulPositive(spot, vol);
    MulPositive(spot * vol, m.num.sqrt(t));
    (ExpQt(m, t) * pdfD1) / (spot * vol * m.num.sqrt(t))
  }

  /** The first term of theta, the same for calls and puts. */
  function VolatilityDecay(m: Model, spot: real, t: real, vol: real, pdfD1: real): real
    requires t > 0.0 && m.num.PositiveRoots()
  {
    -(spot * ExpQt(m, t) * pdfD1 * vol) / (2.0 * m.num.sqrt(t))
  }

  /** The five Greeks before rounding. */
  function RawGreeks(m: Model, spot: real, strike: real, t: real, vol: real, kind: OptionType): Greeks
    requires spot > 0.0 && strike > 0.0 && t > 0.0 && vol > 0.0 && m.num.PositiveRoots()
  {
    var d1, d2 := D1(m, spot, strike, t, vol), D2(m, spot, strike, t, vol);
    var pdfD1 := m.num.pdf(d1);
    var term1 := VolatilityDecay(m, spot, t, vol, pdfD1);
    Greeks(
      if kind == CE then ExpQt(m, t) * m.num.cdf(d1) else -ExpQt(m, t) * m.num.cdf(-d1),
      RawGamma(m, spot, t, vol, pdfD1),
      if kind == CE then
        (term1 + -m.r * strike * ExpRt(m, t) * m.num.cdf(d2) + m.q * spot * ExpQt(m, t) * m.num.cdf(d1)) / 365.0
      else
        (term1 + m.r * strike * ExpRt(m, t) * m.num.cdf(-d2) + -m.q * spot * ExpQt(m, t) * m.num.cdf(-d1)) / 365.0,
      (spot * ExpQt(m, t) * pdfD1 * m.num.sqrt(t)) / 100.0,
      if kind == CE then (strike * t * ExpRt(m, t) * m.num.cdf(d2)) / 100.0
      else (-strike * t * ExpRt(m, t) * m.num.cdf(-d2)) / 100.0)
  }

  function RoundedGreeks(m: Model, g: Greeks): Greeks {
    Greeks(m.num.round(g.delta, 5), m.num.round(g.gamma, 6), m.num.round(g.theta, 5), m.num.round(g.vega, 5),
           m.num.round(g.rho, 5))
  }

  /** `calculate` */
  function Calculate(m: Model, spot: real, strike: real, t: real, vol: real, kind: OptionType): Theoretical
    requires m.num.PositiveRoots()
  {
    if spot <= 0.0 || strike <= 0.0 then Theoretical(0.0, 0.0, 0.0)
    else if t <= 0.0 || vol <= 0.0 then Theoretical(Intrinsic(kind, spot, strike), 0.0, 0.0)
    else
      Theoretical(m.num.round(Max(RawPrice(m, spot, strike, t, vol, kind), 0.0), 2),
                  m.num.round(D1(m, spot, strike, t, vol), 6), m.num.round(D2(m, spot, strike, t, vol), 6))
  }

  /** `calculate_greeks`; a strike that is not positive raises inside its `try`, which returns zeros. */
  function CalculateGreeks(m: Model, spot: real, strike: real, t: real, vol: real, kind: OptionType): Greeks
    requires m.num.PositiveRoots()
  {
    if t <= 0.0 || vol <= 0.0 || spot <= 0.0 || strike <= 0.0 then NO_GREEKS
    else RoundedGreeks(m, RawGreeks(m, spot, strike, t, vol, kind))
  }

  // ---------- option objects ----------

  /** The fields of one option object. */
  datatype Fields = Fields(strike: real, kind: OptionType, mid: Option<real>, ltp: Option<real>,
                           iv: Option<real>, price: real, greeks: Greeks)

  class OptionData {
    const strike: real
    const kind: OptionType
    const mid: Option<real>
    const ltp: Option<real>
    var iv: Option<real>
    var price: real
    var greeks: Greeks

    constructor (strike: real, kind: OptionType, mid: Option<real>, ltp: Option<real>, iv: Option<real>)
      ensures Current() == Fields(strike, kind, mid, ltp, iv, 0.0, NO_GREEKS)
    {
      this.strike, this.kind, this.mid, this.ltp, this.iv := strike, kind, mid, ltp, iv;
      price, greeks := 0.0, NO_GREEKS;
    }

    function Current(): Fields
      reads this
    {
      Fields(strike, kind, mid, ltp, iv, price, greeks)
    }
  }

  predicate Positive(x: Option<real>) {
    x.Some? && x.value > 0.0
  }

  /** The market price the solver is given: the mid price, or else the last one. */
  function MarketPrice(o: Fields): Option<real> {
    if Positive(o.mid) then o.mid else o.ltp
  }

  predicate NeedsSolver(o: Fields) {
    !Positive(o.iv) && Positive(MarketPrice(o))
  }

  function Solved(m: Model, spot: real, t: real, o: Fields): Option<real>
    requires NeedsSolver(o)
  {
    m.solveIv(MarketPrice(o).value, spot, o.strike, t, o.kind)
  }

  /** On this option the solver raises, and with it the batch. */
  predicate Raises(m: Model, spot: real, t: real, o: Fields) {
    NeedsSolver(o) && Solved(m, spot, t, o).None?
  }

  /** Step 1 of the batch: solve for the implied volatility when it is missing. */
  function FilledIv(m: Model, spot: real, t: real, o: Fields): Option<real> {
    if NeedsSolver(o) && Positive(Solved(m, spot, t, o)) then Solved(m, spot, t, o) else o.iv
  }

  /** What `calculate_batch` makes of one option. */
  function ScalarUpdate(m: Model, spot: real, t: real, o: Fields): Fields
    requires m.num.PositiveRoots()
  {
    var iv := FilledIv(m, spot, t, o);
    if Positive(iv) then
      o.(iv := iv,
         price := Calculate(m, spot, o.strike, t, iv.value / 100.0, o.kind).price,
         greeks := CalculateGreeks(m, spot, o.strike, t, iv.value / 100.0, o.kind))
    else o
  }

  /** Processing an option twice changes nothing more, so a list may hold the same object twice. */
  lemma ScalarIdempotent(m: Model, spot: real, t: real, o: Fields)
    requires m.num.PositiveRoots()
    ensures ScalarUpdate(m, spot, t, ScalarUpdate(m, spot, t, o)) == ScalarUpdate(m, spot, t, o)
    ensures Raises(m, spot, t, ScalarUpdate(m, spot, t, o)) <==> Raises(m, spot, t, o)
  {
    hide Calculate, CalculateGreeks;
  }

  ghost predicate GoesBeyond(m: Model, spot: real, t: real, fields: seq<Fields>, n: nat) {
    n <= |fields| && forall i | 0 <= i < n :: !Raises(m, spot, t, fields[i])
  }

  /** The first option on which the solver raises, or the number of options. */
  ghost predicate StopsAt(m: Model, spot: real, t: real, fields: seq<Fields>, n: nat) {
    GoesBeyond(m, spot, t, fields, n) && (n < |fields| ==> Raises(m, spot, t, fields[n]))
  }

  twostate function Before(options: seq<OptionData>): seq<Fields>
    reads options
  {
    seq(|options|, i requires 0 <= i < |options| => old(options[i].Current()))
  }

  /**
   * The options before the first one on which the solver raises end as their scalar update; if there is such an option
   * the exception leaves the batch, and that option and the later ones are untouched.
   */
  method CalculateBatch(m: Model, options: seq<OptionData>, spot: real, days: int)
      returns (completed: bool, ghost n: nat)
    requires m.num.PositiveRoots()
    modifies options
    ensures StopsAt(m, spot, days as real / 365.0, Before(options), n) && (completed <==> n == |options|)
    ensures forall o | o in options ::
              o.Current() == if o in options[..n] then ScalarUpdate(m, spot, days as real / 365.0, old(o.Current()))
                             else old(o.Current())
  {
    hide Calculate, CalculateGreeks, Numerics.PositiveRoots;
    var t := days as real / 365.0;
    for i := 0 to |options|
      invariant GoesBeyond(m, spot, t, Before(options), i)
      invariant forall o | o in options ::
          o.Current() == if o in options[..i] then ScalarUpdate(m, spot, t, old(o.Current())) else old(o.Current())
    {
      var o := options[i];
      ScalarIdempotent(m, spot, t, old(o.Current()));
      if !Positive(o.iv) {
        var price := if Positive(o.mid) then o.mid else o.ltp;
        if Positive(price) {
          var solved := m.solveIv(price.value, spot, o.strike, t, o.kind);
          if solved.None? {
            return false, i;
          }
          if solved.value > 0.0 {
            o.iv := solved;
          }
        }
      }
      if Positive(o.iv) {
        o.price := Calculate(m, spot, o.strike, t, o.iv.value / 100.0, o.kind).price;
        o.greeks := CalculateGreeks(m, spot, o.strike, t, o.iv.value / 100.0, o.kind);
      }
      assert options[..i + 1] == options[..i] + [o];
    }
    assert options[..|options|] == options;
    return true, |options|;
  }
}
