/** The NumPy path of calculate_batch_vectorized: gather the valid options, split them into calls and
    puts, compute, and scatter back twice. */
module VectorizedBatch {
  import opened Option
  import opened RealArith
  import opened BinomialTree
  import opened BlackScholes
  import opened Masks

  /** One option's inputs, as the arrays hold them. */
  datatype Inputs = Inputs(strikes: seq<real>, vols: seq<real>, isCall: seq<bool>, valid: seq<bool>)

  /** The arrays over the valid options only. */
  datatype Lanes = Lanes(k: seq<real>, sigma: seq<real>, d1: seq<real>, calls: seq<bool>,
                         pdfD1: seq<real>, cdfD1: seq<real>, cdfD2: seq<real>, cdfNegD1: seq<real>, cdfNegD2: seq<real>)

  datatype Setting = Setting(model: Model, spot: real, t: real) {
    ghost predicate Sound() {
      spot > 0.0 && t > 0.0 && model.num.PositiveRoots()
    }
  }

  ghost predicate WellSized(x: Inputs) {
    && |x.strikes| == |x.vols| == |x.isCall| == |x.valid|
    && forall i | 0 <= i < |x.valid| :: x.valid[i] <==> x.vols[i] > 0.0 && x.strikes[i] > 0.0
  }

  function Kind(isCall: bool): OptionType {
    if isCall then CE else PE
  }

  ghost predicate LaneSizes(l: Lanes, n: nat) {
    && |l.k| == |l.sigma| == |l.d1| == |l.calls| == n
    && |l.pdfD1| == |l.cdfD1| == |l.cdfD2| == |l.cdfNegD1| == |l.cdfNegD2| == n
  }

  /** Lane `j` holds the inputs and intermediate values of one option. */
  ghost predicate LaneOf(mk: Setting, l: Lanes, j: nat, strike: real, vol: real, isCall: bool)
    requires mk.Sound() && strike > 0.0 && vol > 0.0
  {
    var d1, d2 := D1(mk.model, mk.spot, strike, mk.t, vol), D2(mk.model, mk.spot, strike, mk.t, vol);
    && LaneSizes(l, |l.k|) && j < |l.k|
    && l.k[j] == strike && l.sigma[j] == vol && l.calls[j] == isCall
    && l.d1[j] == d1 && l.pdfD1[j] == mk.model.num.pdf(d1)
    && l.cdfD1[j] == mk.model.num.cdf(d1) && l.cdfD2[j] == mk.model.num.cdf(d2)
    && l.cdfNegD1[j] == mk.model.num.cdf(-d1) && l.cdfNegD2[j] == mk.model.num.cdf(-d2)
  }

  lemma GatheredPositive(x: Inputs)
    requires WellSized(x)
    ensures forall j | 0 <= j < Count(x.valid) ::
              Gather(x.valid, x.strikes)[j] > 0.0 && Gather(x.valid, x.vols)[j] > 0.0
  {
    forall j | 0 <= j < Count(x.valid)
      ensures Gather(x.valid, x.strikes)[j] > 0.0 && Gather(x.valid, x.vols)[j] > 0.0
    {
      var i := GatherFrom(x.valid, x.strikes, j);
      GatherAt(x.valid, x.vols, i);
    }
  }

  /** The elementwise stage on the gathered arrays. */
  function ComputeLanes(mk: Setting, x: Inputs): (l: Lanes)
    requires mk.Sound() && WellSized(x)
  {
    GatheredPositive(x);
    var n, k, sigma := Count(x.valid), Gather(x.valid, x.strikes), Gather(x.valid, x.vols);
    var d1 := seq(n, j requires 0 <= j < n => D1(mk.model, mk.spot, k[j], mk.t, sigma[j]));
    var d2 := seq(n, j requires 0 <= j < n => d1[j] - VolRoot(mk.model, mk.t, sigma[j]));
    Lanes(k, sigma, d1, Gather(x.valid, x.isCall),
          seq(n, j requires 0 <= j < n => mk.model.num.pdf(d1[j])),
          seq(n, j requires 0 <= j < n => mk.model.num.cdf(d1[j])),
          seq(n, j requires 0 <= j < n => mk.model.num.cdf(d2[j])),
          seq(n, j requires 0 <= j < n => mk.model.num.cdf(-d1[j])),
          seq(n, j requires 0 <= j < n => mk.model.num.cdf(-d2[j])))
  }

  /** Lane `Rank(valid, i)` carries what belongs to option `i`. */
  lemma LaneOfOption(mk: Setting, x: Inputs, i: nat)
    requires mk.Sound() && WellSized(x) && i < |x.valid| && x.valid[i]
    ensures LaneSizes(ComputeLanes(mk, x), Count(x.valid)) && Rank(x.valid, i) < Count(x.valid)
    ensures LaneOf(mk, ComputeLanes(mk, x), Rank(x.valid, i), x.strikes[i], x.vols[i], x.isCall[i])
  {
    hide D1, VolRoot, Gather, Rank, Positions;
    GatherAt(x.valid, x.strikes, i);
    GatherAt(x.valid, x.vols, i);
    GatherAt(x.valid, x.isCall, i);
    GatheredPositive(x);
    assert ComputeLanes(mk, x).d1[Rank(x.valid, i)] == D1(mk.model, mk.spot, x.strikes[i], mk.t, x.vols[i]);
  }

  /** `tmp = zeros(n); tmp[calls] = callVals; tmp[~calls] = putVals` */
  method ByKind(calls: seq<bool>, callVals: seq<real>, putVals: seq<real>) returns (tmp: seq<real>)
    requires |callVals| == Count(calls) && |putVals| == Count(Not(calls))
    ensures |tmp| == |calls|
    ensures forall j | 0 <= j < |calls| && calls[j] :: Rank(calls, j) < |callVals| && tmp[j] == callVals[Rank(calls, j)]
    ensures forall j | 0 <= j < |calls| && !calls[j] ::
              Rank(Not(calls), j) < |putVals| && tmp[j] == putVals[Rank(Not(calls), j)]
  {
    var a := new real[|calls|](_ => 0.0);
    AssignWhere(a, calls, callVals);
    AssignWhere(a, Not(calls), putVals);
    tmp := a[..];
    GatherAll(calls, calls);
    GatherAll(Not(calls), calls);
  }

  /** `out = zeros(n); out[valid] = tmp` */
  method ToAll(valid: seq<bool>, tmp: seq<real>) returns (out: seq<real>)
    requires |tmp| == Count(valid)
    ensures |out| == |valid|
    ensures forall i | 0 <= i < |valid| && valid[i] :: Rank(valid, i) < |tmp| && out[i] == tmp[Rank(valid, i)]
  {
    var a := new real[|valid|](_ => 0.0);
    AssignWhere(a, valid, tmp);
    out := a[..];
    GatherAll(valid, valid);
  }

  // ---------- the masked expressions, one element at a time ----------

  function CallPrice(mk: Setting, k: real, cdfD1: real, cdfD2: real): real {
    mk.spot * ExpQt(mk.model, mk.t) * cdfD1 - k * ExpRt(mk.model, mk.t) * cdfD2
  }

  function PutPrice(mk: Setting, k: real, cdfNegD1: real, cdfNegD2: real): real {
    k * ExpRt(mk.model, mk.t) * cdfNegD2 - mk.spot * ExpQt(mk.model, mk.t) * cdfNegD1
  }

  function CallDelta(mk: Setting, cdfD1: real): real {
    ExpQt(mk.model, mk.t) * cdfD1
  }

  function PutDelta(mk: Setting, cdfNegD1: real): real {
    -ExpQt(mk.model, mk.t) * cdfNegD1
  }

  function Vega(mk: Setting, pdfD1: real): real {
    (mk.spot * ExpQt(mk.model, mk.t) * pdfD1 * mk.model.num.sqrt(mk.t)) / 100.0
  }

  function CallTheta(mk: Setting, term1: real, k: real, cdfD1: real, cdfD2: real): real {
    (term1 + -mk.model.r * k * ExpRt(mk.model, mk.t) * cdfD2
     + mk.model.q * mk.spot * ExpQt(mk.model, mk.t) * cdfD1) / 365.0
  }

  function PutTheta(mk: Setting, term1: real, k: real, cdfNegD1: real, cdfNegD2: real): real {
    (term1 + mk.model.r * k * ExpRt(mk.model, mk.t) * cdfNegD2
     + -mk.model.q * mk.spot * ExpQt(mk.model, mk.t) * cdfNegD1) / 365.0
  }

  function CallRho(mk: Setting, k: real, cdfD2: real): real {
    (k * mk.t * ExpRt(mk.model, mk.t) * cdfD2) / 100.0
  }

  function PutRho(mk: Setting, k: real, cdfNegD2: real): real {
    (-k * mk.t * ExpRt(mk.model, mk.t) * cdfNegD2) / 100.0
  }

  /** The scalar formulas are the masked expressions. */
  lemma ScalarPriceForm(mk: Setting, k: real, vol: real, isCall: bool)
    requires mk.Sound() && k > 0.0 && vol > 0.0
    ensures var d1, d2 := D1(mk.model, mk.spot, k, mk.t, vol), D2(mk.model, mk.spot, k, mk.t, vol);
            var num := mk.model.num;
            RawPrice(mk.model, mk.spot, k, mk.t, vol, Kind(isCall))
            == if isCall then CallPrice(mk, k, num.cdf(d1), num.cdf(d2))
               else PutPrice(mk, k, num.cdf(-d1), num.cdf(-d2))
  {
    hide D1, D2, ExpQt, ExpRt;
    var d1, d2 := D1(mk.model, mk.spot, k, mk.t, vol), D2(mk.model, mk.spot, k, mk.t, vol);
    var num := mk.model.num;
    if isCall {
      var a, b := num.cdf(d1), num.cdf(d2);
      assert CallPrice(mk, k, a, b) == mk.spot * ExpQt(mk.model, mk.t) * a - k * ExpRt(mk.model, mk.t) * b;
    } else {
      var a, b := num.cdf(-d1), num.cdf(-d2);
      assert PutPrice(mk, k, a, b) == k * ExpRt(mk.model, mk.t) * b - mk.spot * ExpQt(mk.model, mk.t) * a;
    }
  }

  lemma ScalarGreeksForm(mk: Setting, k: real, vol: real, isCall: bool)
    requires mk.Sound() && k > 0.0 && vol > 0.0
    ensures var d1, d2 := D1(mk.model, mk.spot, k, mk.t, vol), D2(mk.model, mk.spot, k, mk.t, vol);
            var num := mk.model.num;
            var term1 := VolatilityDecay(mk.model, mk.spot, mk.t, vol, num.pdf(d1));
            var g := RawGreeks(mk.model, mk.spot, k, mk.t, vol, Kind(isCall));
            && g.delta == (if isCall then CallDelta(mk, num.cdf(d1)) else PutDelta(mk, num.cdf(-d1)))
            && g.gamma == RawGamma(mk.model, mk.spot, mk.t, vol, num.pdf(d1)) && g.vega == Vega(mk, num.pdf(d1))
            && g.theta == (if isCall then CallTheta(mk, term1, k, num.cdf(d1), num.cdf(d2))
                           else PutTheta(mk, term1, k, num.cdf(-d1), num.cdf(-d2)))
            && g.rho == if isCall then CallRho(mk, k, num.cdf(d2)) else PutRho(mk, k, num.cdf(-d2))
  {
    hide D1, D2, ExpQt, ExpRt, VolatilityDecay, RawGamma, Numerics.PositiveRoots;
    if isCall {
      hide PutDelta, PutTheta, PutRho;
    } else {
      hide CallDelta, CallTheta, CallRho;
    }
  }

  lemma LaneFormulas(mk: Setting, l: Lanes, j: nat, strike: real, vol: real, isCall: bool)
    requires mk.Sound() && strike > 0.0 && vol > 0.0 && LaneOf(mk, l, j, strike, vol, isCall)
    ensures RawPrice(mk.model, mk.spot, strike, mk.t, vol, Kind(isCall))
            == if isCall then CallPrice(mk, l.k[j], l.cdfD1[j], l.cdfD2[j])
               else PutPrice(mk, l.k[j], l.cdfNegD1[j], l.cdfNegD2[j])
    ensures var term1 := VolatilityDecay(mk.model, mk.spot, mk.t, l.sigma[j], l.pdfD1[j]);
            RawGreeks(mk.model, mk.spot, strike, mk.t, vol, Kind(isCall))
            == Greeks(
                 if isCall then CallDelta(mk, l.cdfD1[j]) else PutDelta(mk, l.cdfNegD1[j]),
                 RawGamma(mk.model, mk.spot, mk.t, l.sigma[j], l.pdfD1[j]),
                 if isCall then CallTheta(mk, term1, l.k[j], l.cdfD1[j], l.cdfD2[j])
                 else PutTheta(mk, term1, l.k[j], l.cdfNegD1[j], l.cdfNegD2[j]),
                 Vega(mk, l.pdfD1[j]),
                 if isCall then CallRho(mk, l.k[j], l.cdfD2[j]) else PutRho(mk, l.k[j], l.cdfNegD2[j]))
  {
    hide D1, D2, RawPrice, RawGreeks, CallPrice, PutPrice, CallDelta, PutDelta, RawGamma, VolatilityDecay, CallTheta,
         PutTheta, Vega, CallRho, PutRho, ExpQt;
    ScalarPriceForm(mk, strike, vol, isCall);
    ScalarGreeksForm(mk, strike, vol, isCall);
  }

  // ---------- the masked arrays ----------

  ghost predicate PositiveLanes(l: Lanes) {
    LaneSizes(l, |l.k|) && forall j | 0 <= j < |l.sigma| :: l.sigma[j] > 0.0
  }

  method Prices(mk: Setting, l: Lanes) returns (tmp: seq<real>)
    requires PositiveLanes(l)
    ensures |tmp| == |l.k|
    ensures forall j | 0 <= j < |tmp| ::
              tmp[j] == if l.calls[j] then CallPrice(mk, l.k[j], l.cdfD1[j], l.cdfD2[j])
                        else PutPrice(mk, l.k[j], l.cdfNegD1[j], l.cdfNegD2[j])
  {
    hide CallPrice, PutPrice, Gather, Rank;
    var puts := Not(l.calls);
    var kc, c1, c2 := Gather(l.calls, l.k), Gather(l.calls, l.cdfD1), Gather(l.calls, l.cdfD2);
    var kp, p1, p2 := Gather(puts, l.k), Gather(puts, l.cdfNegD1), Gather(puts, l.cdfNegD2);
    tmp := ByKind(l.calls,
                  seq(Count(l.calls), j requires 0 <= j < Count(l.calls) => CallPrice(mk, kc[j], c1[j], c2[j])),
                  seq(Count(puts), j requires 0 <= j < Count(puts) => PutPrice(mk, kp[j], p1[j], p2[j])));
    GatherAll(l.calls, l.k);
    GatherAll(l.calls, l.cdfD1);
    GatherAll(l.calls, l.cdfD2);
    GatherAll(puts, l.k);
    GatherAll(puts, l.cdfNegD1);
    GatherAll(puts, l.cdfNegD2);
  }

  method Deltas(mk: Setting, l: Lanes) returns (tmp: seq<real>)
    requires PositiveLanes(l)
    ensures |tmp| == |l.k|
    ensures forall j | 0 <= j < |tmp| ::
              tmp[j] == if l.calls[j] then CallDelta(mk, l.cdfD1[j]) else PutDelta(mk, l.cdfNegD1[j])
  {
    hide CallDelta, PutDelta, Gather, Rank;
    var puts := Not(l.calls);
    var c1, p1 := Gather(l.calls, l.cdfD1), Gather(puts, l.cdfNegD1);
    tmp := ByKind(l.calls,
                  seq(Count(l.calls), j requires 0 <= j < Count(l.calls) => CallDelta(mk, c1[j])),
                  seq(Count(puts), j requires 0 <= j < Count(puts) => PutDelta(mk, p1[j])));
    GatherAll(l.calls, l.cdfD1);
    GatherAll(puts, l.cdfNegD1);
  }

  method Thetas(mk: Setting, l: Lanes) returns (tmp: seq<real>)
    requires mk.Sound() && PositiveLanes(l)
    ensures |tmp| == |l.k|
    ensures forall j | 0 <= j < |tmp| ::
              var decay := VolatilityDecay(mk.model, mk.spot, mk.t, l.sigma[j], l.pdfD1[j]);
              tmp[j] == if l.calls[j] then CallTheta(mk, decay, l.k[j], l.cdfD1[j], l.cdfD2[j])
                        else PutTheta(mk, decay, l.k[j], l.cdfNegD1[j], l.cdfNegD2[j])
  {
    hide CallTheta, PutTheta, VolatilityDecay, Gather, Rank;
    var puts := Not(l.calls);
    var term1 := seq(|l.k|, j requires 0 <= j < |l.k| =>
                       VolatilityDecay(mk.model, mk.spot, mk.t, l.sigma[j], l.pdfD1[j]));
    var tc, kc, c1, c2 :=
      Gather(l.calls, term1), Gather(l.calls, l.k), Gather(l.calls, l.cdfD1), Gather(l.calls, l.cdfD2);
    var tp, kp, p1, p2 := Gather(puts, term1), Gather(puts, l.k), Gather(puts, l.cdfNegD1), Gather(puts, l.cdfNegD2);
    tmp := ByKind(l.calls,
                  seq(Count(l.calls), j requires 0 <= j < Count(l.calls) => CallTheta(mk, tc[j], kc[j], c1[j], c2[j])),
                  seq(Count(puts), j requires 0 <= j < Count(puts) => PutTheta(mk, tp[j], kp[j], p1[j], p2[j])));
    GatherAll(l.calls, term1);
    GatherAll(l.calls, l.k);
    GatherAll(l.calls, l.cdfD1);
    GatherAll(l.calls, l.cdfD2);
    GatherAll(puts, term1);
    GatherAll(puts, l.k);
    GatherAll(puts, l.cdfNegD1);
    GatherAll(puts, l.cdfNegD2);
  }

  method Rhos(mk: Setting, l: Lanes) returns (tmp: seq<real>)
    requires PositiveLanes(l)
    ensures |tmp| == |l.k|
    ensures forall j | 0 <= j < |tmp| ::
              tmp[j] == if l.calls[j] then CallRho(mk, l.k[j], l.cdfD2[j]) else PutRho(mk, l.k[j], l.cdfNegD2[j])
  {
    hide CallRho, PutRho, Gather, Rank;
    var puts := Not(l.calls);
    var kc, c2, kp, p2 :=
      Gather(l.calls, l.k), Gather(l.calls, l.cdfD2), Gather(puts, l.k), Gather(puts, l.cdfNegD2);
    tmp := ByKind(l.calls,
                  seq(Count(l.calls), j requires 0 <= j < Count(l.calls) => CallRho(mk, kc[j], c2[j])),
                  seq(Count(puts), j requires 0 <= j < Count(puts) => PutRho(mk, kp[j], p2[j])));
    GatherAll(l.calls, l.k);
    GatherAll(l.calls, l.cdfD2);
    GatherAll(puts, l.k);
    GatherAll(puts, l.cdfNegD2);
  }

  // ---------- the whole batch ----------

  ghost predicate Valid(o: Fields) {
    Positive(o.iv) && o.strike > 0.0
  }

  /** What `calculate_batch_vectorized` makes of one option: the scalar result, or nothing. */
  ghost function VectorUpdate(mk: Setting, o: Fields): Fields
    requires mk.Sound()
  {
    if Valid(o) then ScalarUpdate(mk.model, mk.spot, mk.t, o) else o
  }

  method ReadInputs(options: seq<OptionData>) returns (x: Inputs)
    ensures |x.valid| == |options| && WellSized(x)
    ensures forall i | 0 <= i < |options| ::
              && x.strikes[i] == options[i].strike && x.isCall[i] == (options[i].kind == CE)
              && x.vols[i] == (if Positive(options[i].iv) then options[i].iv.value / 100.0 else 0.0)
              && (x.valid[i] <==> Valid(options[i].Current()))
  {
    var n := |options|;
    var strikes := seq(n, i requires 0 <= i < n => options[i].strike);
    var vols := seq(n, i requires 0 <= i < n reads options =>
                      if Positive(options[i].iv) then options[i].iv.value / 100.0 else 0.0);
    var isCall := seq(n, i requires 0 <= i < n => options[i].kind == CE);
    var valid := seq(n, i requires 0 <= i < n => vols[i] > 0.0 && strikes[i] > 0.0);
    x := Inputs(strikes, vols, isCall, valid);
  }

  /** The six result arrays, as they are read back for the valid options. */
  datatype Results = Results(prices: seq<real>, deltas: seq<real>, gammas: seq<real>, thetas: seq<real>,
                             vegas: seq<real>, rhos: seq<real>)

  ghost predicate Matches(mk: Setting, x: Inputs, res: Results)
    requires mk.Sound() && WellSized(x)
  {
    var n := |x.valid|;
    && |res.prices| == |res.deltas| == |res.gammas| == |res.thetas| == |res.vegas| == |res.rhos| == n
    && forall i | 0 <= i < n && x.valid[i] ::
         && res.prices[i] == Max(RawPrice(mk.model, mk.spot, x.strikes[i], mk.t, x.vols[i], Kind(x.isCall[i])), 0.0)
         && Greeks(res.deltas[i], res.gammas[i], res.thetas[i], res.vegas[i], res.rhos[i])
            == RawGreeks(mk.model, mk.spot, x.strikes[i], mk.t, x.vols[i], Kind(x.isCall[i]))
  }

  method Compute(mk: Setting, x: Inputs) returns (res: Results)
    requires mk.Sound() && WellSized(x)
    ensures Matches(mk, x, res)
  {
    hide Gather, Rank, D1, D2, RawPrice, RawGreeks, CallPrice, PutPrice, CallDelta, PutDelta, RawGamma, VolatilityDecay,
         CallTheta, PutTheta, Vega, CallRho, PutRho, ExpQt;
    var l := ComputeLanes(mk, x);
    GatheredPositive(x);
    var n := |l.k|;
    var prices := Prices(mk, l);
    prices := ToAll(x.valid, seq(n, j requires 0 <= j < n => Max(prices[j], 0.0)));
    var deltas := Deltas(mk, l);
    deltas := ToAll(x.valid, deltas);
    var gammas := ToAll(x.valid, seq(n, j requires 0 <= j < n =>
                                       RawGamma(mk.model, mk.spot, mk.t, l.sigma[j], l.pdfD1[j])));
    var vegas := ToAll(x.valid, seq(n, j requires 0 <= j < n => Vega(mk, l.pdfD1[j])));
    var thetas := Thetas(mk, l);
    thetas := ToAll(x.valid, thetas);
    var rhos := Rhos(mk, l);
    rhos := ToAll(x.valid, rhos);
    res := Results(prices, deltas, gammas, thetas, vegas, rhos);
    forall i | 0 <= i < |x.valid| && x.valid[i]
      ensures res.prices[i] == Max(RawPrice(mk.model, mk.spot, x.strikes[i], mk.t, x.vols[i], Kind(x.isCall[i])), 0.0)
      ensures Greeks(res.deltas[i], res.gammas[i], res.thetas[i], res.vegas[i], res.rhos[i])
              == RawGreeks(mk.model, mk.spot, x.strikes[i], mk.t, x.vols[i], Kind(x.isCall[i]))
    {
      LaneOfOption(mk, x, i);
      LaneFormulas(mk, l, Rank(x.valid, i), x.strikes[i], x.vols[i], x.isCall[i]);
    }
  }

  lemma Written(mk: Setting, o: Fields, price: real, greeks: Greeks)
    requires mk.Sound() && Valid(o)
    requires price == Max(RawPrice(mk.model, mk.spot, o.strike, mk.t, o.iv.value / 100.0, o.kind), 0.0)
    requires greeks == RawGreeks(mk.model, mk.spot, o.strike, mk.t, o.iv.value / 100.0, o.kind)
    ensures VectorUpdate(mk, o) == o.(price := mk.model.num.round(price, 2), greeks := RoundedGreeks(mk.model, greeks))
  {
    hide RawPrice, RawGreeks;
  }

  /**
   * The vectorised batch writes what the scalar batch writes on every valid option and touches no other. Without a
   * valid option the spot price and the days do not matter.
   */
  method CalculateBatchVectorized(m: Model, options: seq<OptionData>, spot: real, days: int)
    requires m.num.PositiveRoots()
    requires (exists o :: o in options && Valid(o.Current())) ==> spot > 0.0 && days > 0
    modifies options
    ensures forall o | o in options ::
              o.Current()
              == if Valid(old(o.Current())) then ScalarUpdate(m, spot, days as real / 365.0, old(o.Current()))
                 else old(o.Current())
  {
    hide Calculate, CalculateGreeks, ScalarUpdate, Matches, Numerics.PositiveRoots;
    if options == [] {
      return;
    }
    var mk := Setting(m, spot, days as real / 365.0);
    var x := ReadInputs(options);
    if forall i | 0 <= i < |options| :: !x.valid[i] {
      return;
    }
    assert spot > 0.0 && days > 0 by {
      var i :| 0 <= i < |options| && x.valid[i];
      assert options[i] in options;
    }
    var res := Compute(mk, x);
    WriteBack(mk, options, x, res);
  }

  /** The loop that copies the valid results back into the option objects. */
  method WriteBack(mk: Setting, options: seq<OptionData>, x: Inputs, res: Results)
    requires mk.Sound() && |x.valid| == |options| && WellSized(x) && Matches(mk, x, res)
    requires forall i | 0 <= i < |options| ::
               && (x.valid[i] <==> Valid(options[i].Current()))
               && (x.valid[i] ==> && x.strikes[i] == options[i].strike && Kind(x.isCall[i]) == options[i].kind
                                  && x.vols[i] == options[i].iv.value / 100.0)
    modifies options
    ensures forall o | o in options :: o.Current() == VectorUpdate(mk, old(o.Current()))
  {
    hide RawPrice, RawGreeks, Calculate, CalculateGreeks, Setting.Sound, RoundedGreeks, WellSized;
    for i := 0 to |options|
      invariant forall o | o in options :: o.iv == old(o.iv)
      invariant forall o | o in options ::
          o.Current() == if o in options[..i] then VectorUpdate(mk, old(o.Current())) else old(o.Current())
    {
      var o := options[i];
      assert options[..i + 1] == options[..i] + [o];
      if x.valid[i] {
        var greeks := Greeks(res.deltas[i], res.gammas[i], res.thetas[i], res.vegas[i], res.rhos[i]);
        Written(mk, old(o.Current()), res.prices[i], greeks);
        o.price := mk.model.num.round(res.prices[i], 2);
        o.greeks := RoundedGreeks(mk.model, greeks);
      }
    }
  }

  /** The two batches agree on an option exactly when it is valid, or the scalar one leaves it alone too:
      the vectorised one neither solves for a missing volatility nor zeroes an option with a bad strike. */
  lemma BatchesAgree(mk: Setting, o: Fields)
    requires mk.Sound()
    ensures VectorUpdate(mk, o) == ScalarUpdate(mk.model, mk.spot, mk.t, o)
            <==> || Valid(o)
                 || !Positive(FilledIv(mk.model, mk.spot, mk.t, o))
                 || (Positive(o.iv) && o.strike <= 0.0 && o.price == 0.0 && o.greeks == NO_GREEKS)
  {
    hide RawPrice, RawGreeks;
  }
}
