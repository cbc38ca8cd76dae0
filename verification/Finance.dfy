/** FinancialCalculators: systematic investment, systematic withdrawal and loan instalments, exactly. */
module Finance {
  import opened Option
  import opened RealArith

  /** int(time_years * 12): truncation towards zero. */
  function Months(years: real): int {
    if years >= 0.0 then (years * 12.0).Floor else -((-years) * 12.0).Floor
  }

  function MonthlyGrowth(annualRate: real): real {
    1.0 + annualRate / 12.0
  }

  // ---------- annuities ----------

  /** `n` payments of `x`, each growing from the end of its own month on. */
  function Annuity(x: real, g: real, n: nat): real {
    if n == 0 then 0.0 else Annuity(x, g, n - 1) * g + x
  }

  lemma {:induction false} AnnuityGrows(x: real, g: real, n: nat)
    ensures Annuity(x, g, n) * (g - 1.0) == x * (Pow(g, n) - 1.0)
  {
    if n == 0 {
    } else {
      AnnuityGrows(x, g, n - 1);
      AnnuityStep(Annuity(x, g, n - 1), x, g, Pow(g, n - 1));
    }
  }

  lemma AnnuityStep(a: real, x: real, g: real, p: real)
    requires a * (g - 1.0) == x * (p - 1.0)
    ensures (a * g + x) * (g - 1.0) == x * (g * p - 1.0)
  {
    assert (a * g + x) * (g - 1.0) == g * (a * (g - 1.0)) + x * (g - 1.0);
    assert g * (x * (p - 1.0)) + x * (g - 1.0) == x * (g * p - 1.0);
  }

  lemma {:induction false} AnnuityFlat(x: real, n: nat)
    ensures Annuity(x, 1.0, n) == x * n as real
  {
    if n == 0 {
    } else {
      AnnuityFlat(x, n - 1);
      assert x * (n - 1) as real + x == x * n as real;
    }
  }

  /** The textbook form, with the flat case apart. */
  function ClosedAnnuity(x: real, g: real, n: nat): real {
    if g == 1.0 then x * n as real else x * (Pow(g, n) - 1.0) / (g - 1.0)
  }

  lemma AnnuityClosed(x: real, g: real, n: nat)
    ensures Annuity(x, g, n) == ClosedAnnuity(x, g, n)
  {
    if g == 1.0 {
      AnnuityFlat(x, n);
    } else {
      AnnuityGrows(x, g, n);
      DivideBack(Annuity(x, g, n), g - 1.0, x * (Pow(g, n) - 1.0));
    }
  }

  lemma DivideBack(a: real, b: real, c: real)
    requires b != 0.0 && a * b == c
    ensures a == c / b
  {
  }

  // ---------- sip ----------

  lemma {:induction false} PowNonZero(x: real, n: nat)
    requires x != 0.0
    ensures Pow(x, n) != 0.0
  {
    if n == 0 {
    } else {
      PowNonZero(x, n - 1);
      if x > 0.0 {
        NonZeroTimes(Pow(x, n - 1), x);
      } else {
        NonZeroTimes(Pow(x, n - 1), -x);
        assert x * Pow(x, n - 1) == -(Pow(x, n - 1) * -x);
      }
    }
  }

  lemma NonZeroTimes(a: real, f: real)
    requires a != 0.0 && f > 0.0
    ensures a * f != 0.0 && f * a != 0.0
  {
    MulPositive(if a > 0.0 then a else -a, f);
  }

  /** A power with a whole exponent of either sign. */
  function IntPow(x: real, n: int): real
    requires n >= 0 || x != 0.0
  {
    if n >= 0 then Pow(x, n)
    else
      PowNonZero(x, -n);
      1.0 / Pow(x, -n)
  }

  /** Deposit at the start of each month, then a month's growth; for a negative number of months, backwards. */
  function Fund(deposit: real, g: real, n: int): real
    requires n >= 0 || g != 0.0
    decreases if n >= 0 then n else -n
  {
    if n == 0 then 0.0
    else if n > 0 then (Fund(deposit, g, n - 1) + deposit) * g
    else Fund(deposit, g, n + 1) / g - deposit
  }

  datatype SipResult =
    | SipResult(investedAmount: real, futureValue: real, wealthGained: real)
    | DivisionByZero
    | DomainError

  function SipValue(monthly: real, rate: real, months: int): real
    requires months >= 0 || 1.0 + rate != 0.0
  {
    if rate == 0.0 then monthly * months as real
    else monthly * AnnuityFactor(rate, months) * (1.0 + rate)
  }

  function AnnuityFactor(rate: real, months: int): real
    requires rate != 0.0 && (months >= 0 || 1.0 + rate != 0.0)
  {
    (IntPow(1.0 + rate, months) - 1.0) / rate
  }

  /**
   * The closed form of the source. A negative power of zero raises; so does the percentage of the invested amount when
   * that is zero.
   */
  function Sip(monthly: real, annualRate: real, years: real): SipResult {
    var months := Months(years);
    if months < 0 && MonthlyGrowth(annualRate) == 0.0 then DomainError
    else
      var futureValue := SipValue(monthly, annualRate / 12.0, months);
      var invested := monthly * months as real;
      if invested == 0.0 then DivisionByZero else SipResult(invested, futureValue, futureValue - invested)
  }

  lemma {:induction false} FundIsAnnuity(deposit: real, g: real, n: nat)
    ensures Fund(deposit, g, n) == Annuity(deposit, g, n) * g
  {
    if n == 0 {
    } else {
      FundIsAnnuity(deposit, g, n - 1);
      assert (Annuity(deposit, g, n - 1) * g + deposit) * g == Annuity(deposit, g, n) * g;
    }
  }

  lemma FactorOut(a: real, x: real, f: real, q: real, rate: real)
    requires rate != 0.0 && a * rate == x * q && f * rate == q
    ensures a == x * f
  {
    assert x * (f * rate) == (x * f) * rate;
    CancelFactor(a, x * f, rate);
  }

  lemma AnnuityByFactor(x: real, rate: real, n: nat)
    requires rate != 0.0
    ensures Annuity(x, 1.0 + rate, n) == x * AnnuityFactor(rate, n)
  {
    AnnuityGrows(x, 1.0 + rate, n);
    var growth := Pow(1.0 + rate, n) - 1.0;
    assert AnnuityFactor(rate, n) * rate == growth;
    hide Pow, AnnuityFactor, Annuity;
    FactorOut(Annuity(x, 1.0 + rate, n), x, AnnuityFactor(rate, n), growth, rate);
  }

  lemma SipValueForward(monthly: real, rate: real, n: nat)
    ensures SipValue(monthly, rate, n) == Fund(monthly, 1.0 + rate, n)
  {
    hide Pow, AnnuityFactor, Annuity, Fund;
    FundIsAnnuity(monthly, 1.0 + rate, n);
    if rate == 0.0 {
      AnnuityFlat(monthly, n);
    } else {
      AnnuityByFactor(monthly, rate, n);
    }
  }

  lemma IntPowStep(x: real, n: int)
    requires x != 0.0 && n < 0
    ensures IntPow(x, n + 1) == x * IntPow(x, n)
  {
    var k: nat := -n - 1;
    var p := Pow(x, k);
    PowNonZero(x, k);
    PowNonZero(x, k + 1);
    assert Pow(x, -n) == x * p;
    Reciprocal(x, p);
  }

  lemma Reciprocal(x: real, p: real)
    requires p != 0.0 && x * p != 0.0
    ensures x * (1.0 / (x * p)) == 1.0 / p
  {
    var q := 1.0 / (x * p);
    assert q * (x * p) == 1.0;
    assert (x * q) * p == 1.0;
    DivideBack(x * q, p, 1.0);
  }

  lemma FactorStep(rate: real, n: int)
    requires rate != 0.0 && 1.0 + rate != 0.0 && n < 0
    ensures AnnuityFactor(rate, n + 1) == (1.0 + rate) * AnnuityFactor(rate, n) + 1.0
  {
    IntPowStep(1.0 + rate, n);
    var p, q := IntPow(1.0 + rate, n), IntPow(1.0 + rate, n + 1);
    assert AnnuityFactor(rate, n) * rate == p - 1.0;
    assert AnnuityFactor(rate, n + 1) * rate == q - 1.0;
    hide IntPow, AnnuityFactor;
    FactorArith(1.0 + rate, rate, AnnuityFactor(rate, n), AnnuityFactor(rate, n + 1), p, q);
  }

  lemma FactorArith(g: real, rate: real, a: real, b: real, p: real, q: real)
    requires rate != 0.0 && g == 1.0 + rate && a * rate == p - 1.0 && b * rate == q - 1.0 && q == g * p
    ensures b == g * a + 1.0
  {
    assert (g * a + 1.0) * rate == g * (a * rate) + rate;
    assert g * (p - 1.0) + rate == g * p - 1.0;
    CancelFactor(b, g * a + 1.0, rate);
  }

  lemma OneMonthBack(x: real, a: real, b: real, g: real)
    requires g != 0.0 && b == g * a + 1.0
    ensures x * b * g / g - x == x * a * g
  {
    DivideBack(x * b, g, x * b * g);
    assert x * b == x * (g * a) + x;
  }

  lemma {:induction false} SipValueIsFund(monthly: real, rate: real, n: int)
    requires n >= 0 || 1.0 + rate != 0.0
    ensures SipValue(monthly, rate, n) == Fund(monthly, 1.0 + rate, n)
    decreases if n >= 0 then 0 else -n
  {
    if n >= 0 {
      SipValueForward(monthly, rate, n);
    } else {
      SipValueIsFund(monthly, rate, n + 1);
      assert Fund(monthly, 1.0 + rate, n) == Fund(monthly, 1.0 + rate, n + 1) / (1.0 + rate) - monthly;
      hide AnnuityFactor, Fund;
      if rate == 0.0 {
        assert monthly * (n + 1) as real == monthly * n as real + monthly;
      } else {
        FactorStep(rate, n);
        OneMonthBack(monthly, AnnuityFactor(rate, n), AnnuityFactor(rate, n + 1), 1.0 + rate);
      }
    }
  }

  /** Full payments of `n` months. */
  function Paid(w: real, n: int): real { w * n as real }

  lemma NonePaid(w: real)
    ensures Paid(w, 0) == 0.0
  {
  }

  lemma OneMore(w: real, n: int)
    ensures Paid(w, n) == Paid(w, n - 1) + w
  {
  }

  /** The interest credited month by month on the fund; for a negative number of months, taken back. */
  function Interest(deposit: real, g: real, n: int): real
    requires n >= 0 || g != 0.0
    decreases if n >= 0 then n else -n
  {
    if n == 0 then 0.0
    else if n > 0 then Interest(deposit, g, n - 1) + (Fund(deposit, g, n - 1) + deposit) * (g - 1.0)
    else Interest(deposit, g, n + 1) - (Fund(deposit, g, n) + deposit) * (g - 1.0)
  }

  lemma {:induction false} InterestIsGain(deposit: real, g: real, n: int)
    requires n >= 0 || g != 0.0
    ensures Fund(deposit, g, n) == Paid(deposit, n) + Interest(deposit, g, n)
    decreases if n >= 0 then n else -n
  {
    if n == 0 {
      NonePaid(deposit);
    } else {
      var m := if n > 0 then n - 1 else n + 1;
      InterestIsGain(deposit, g, m);
      hide Fund, Interest, Paid;
      InterestStep(deposit, g, if n > 0 then m else n);
      OneMore(deposit, if n > 0 then n else m);
    }
  }

  /** In a month the fund grows by the deposit and the interest, forwards or backwards in time. */
  lemma InterestStep(deposit: real, g: real, n: int)
    requires n >= 0 || g != 0.0
    ensures Fund(deposit, g, n + 1) - Interest(deposit, g, n + 1)
            == Fund(deposit, g, n) - Interest(deposit, g, n) + deposit
  {
    var before, after := Fund(deposit, g, n) + deposit, Fund(deposit, g, n + 1);
    assert before * (g - 1.0) == before * g - before;
    assert after == before * g by {
      if n < 0 {
        assert before == after / g;
      }
    }
  }

  lemma {:induction false} NoInterest(deposit: real, n: int)
    ensures Interest(deposit, 1.0, n) == 0.0
    decreases if n >= 0 then n else -n
  {
    if n == 0 {
    } else {
      NoInterest(deposit, if n > 0 then n - 1 else n + 1);
      hide Fund;
    }
  }

  /** Months are whole and cut off towards zero. */
  lemma MonthsTruncate(years: real)
    ensures years >= 0.0 ==> Months(years) as real <= years * 12.0 < Months(years) as real + 1.0
    ensures years < 0.0 ==> Months(years) as real - 1.0 < years * 12.0 <= Months(years) as real
    ensures Months(-years) == -Months(years)
  {
  }

  /**
   * The closed form is the deposit-then-grow recurrence, for every rate and every time it is defined at; what was
   * invested is the deposits alone, and what was gained is the interest credited month by month.
   */
  lemma SipIsRecurrence(monthly: real, annualRate: real, years: real)
    ensures var r, n, g := Sip(monthly, annualRate, years), Months(years), MonthlyGrowth(annualRate);
            && (r.DomainError? <==> n < 0 && g == 0.0)
            && (r.DivisionByZero? <==> !r.DomainError? && (monthly == 0.0 || n == 0))
            && (r.SipResult? ==>
                  && r.futureValue == Fund(monthly, g, n)
                  && r.investedAmount == Fund(monthly, 1.0, n) == Paid(monthly, n) == monthly * n as real
                  && r.wealthGained == Interest(monthly, g, n))
  {
    hide SipValue, Fund, Interest, Months;
    var n, g := Months(years), MonthlyGrowth(annualRate);
    if n >= 0 || g != 0.0 {
      SipValueIsFund(monthly, annualRate / 12.0, n);
      InterestIsGain(monthly, g, n);
      InterestIsGain(monthly, 1.0, n);
      NoInterest(monthly, n);
    }
    NonZeroProduct(monthly, Months(years));
  }

  lemma NonZeroProduct(x: real, n: int)
    ensures x * n as real == 0.0 <==> x == 0.0 || n == 0
  {
    if x != 0.0 && n != 0 {
      NonZeroFactor(if n > 0 then n as real else -n as real, x);
    }
  }

  // ---------- swp ----------

  /** The balance after `n` months of growth and full withdrawal, by the month. */
  function Balance(corpus: real, w: real, g: real, n: nat): real {
    if n == 0 then corpus else Balance(corpus, w, g, n - 1) * g - w
  }

  /** corpus * g ** n - w * (g ** n - 1) / (g - 1) */
  function ClosedBalance(corpus: real, w: real, g: real, n: nat): real {
    corpus * Pow(g, n) - ClosedAnnuity(w, g, n)
  }

  lemma {:induction false} BalanceIsAnnuity(corpus: real, w: real, g: real, n: nat)
    ensures Balance(corpus, w, g, n) == corpus * Pow(g, n) - Annuity(w, g, n)
  {
    if n == 0 {
    } else {
      BalanceIsAnnuity(corpus, w, g, n - 1);
      BalanceGrows(corpus, w, g, Pow(g, n - 1), Annuity(w, g, n - 1));
    }
  }

  lemma BalanceGrows(corpus: real, w: real, g: real, p: real, a: real)
    ensures (corpus * p - a) * g - w == corpus * (g * p) - (a * g + w)
  {
  }

  lemma BalanceClosed(corpus: real, w: real, g: real, n: nat)
    ensures Balance(corpus, w, g, n) == ClosedBalance(corpus, w, g, n)
  {
    BalanceIsAnnuity(corpus, w, g, n);
    AnnuityClosed(w, g, n);
  }

  /** A balance with a month's return added. */
  function Grown(balance: real, growth: real): real { balance * growth }

  /** Interest credited over the first `n` months. */
  function Credited(corpus: real, w: real, g: real, n: nat): real {
    if n == 0 then 0.0 else Credited(corpus, w, g, n - 1) + Balance(corpus, w, g, n - 1) * (g - 1.0)
  }

  lemma {:induction false} Conservation(corpus: real, w: real, g: real, n: nat)
    ensures Balance(corpus, w, g, n) + Paid(w, n) == corpus + Credited(corpus, w, g, n)
  {
    if n == 0 {
    } else {
      Conservation(corpus, w, g, n - 1);
      assert w * n as real == w * (n - 1) as real + w;
      var b := Balance(corpus, w, g, n - 1);
      assert b * g == b + b * (g - 1.0);
    }
  }

  /** The corpus lasts through month `n`. */
  ghost predicate Sustains(corpus: real, w: real, g: real, n: nat) {
    forall k | 1 <= k <= n :: ClosedBalance(corpus, w, g, k) >= 0.0
  }

  datatype SwpResult = SwpResult(remaining: real, withdrawn: real, exhaustionMonth: Option<nat>, exhausted: bool)

  method Swp(corpus: real, w: real, annualRate: real, years: real) returns (r: SwpResult)
    ensures r.exhausted <==> r.remaining == 0.0
    ensures var g, n := MonthlyGrowth(annualRate), if Months(years) > 0 then Months(years) else 0;
            (r.exhausted <==> r.exhaustionMonth.Some?)
            <==> !(Sustains(corpus, w, g, n) && ClosedBalance(corpus, w, g, n) == 0.0)
    ensures var g, n := MonthlyGrowth(annualRate), if Months(years) > 0 then Months(years) else 0;
            match r.exhaustionMonth
            case None =>
              && Sustains(corpus, w, g, n)
              && r.remaining == ClosedBalance(corpus, w, g, n) && r.withdrawn == Paid(w, n)
              && r.withdrawn + r.remaining == corpus + Credited(corpus, w, g, n)
            case Some(m) =>
              && 1 <= m <= n && ClosedBalance(corpus, w, g, m) < 0.0 && Sustains(corpus, w, g, m - 1)
              && r.remaining == 0.0
              && r.withdrawn + r.remaining == corpus + Credited(corpus, w, g, m)
  {
    hide ClosedBalance, Balance, Credited, Months, Paid, Grown;
    var g, n := 1.0 + annualRate / 12.0, Months(years);
    var remaining, withdrawn, exhaustionMonth := corpus, 0.0, None;
    var month := 1;
    BalanceStart(corpus, w, g);
    NonePaid(w);
    while month <= n
      invariant 1 <= month && (n > 0 ==> month <= n + 1) && (n <= 0 ==> month == 1)
      invariant exhaustionMonth == None && Sustains(corpus, w, g, month - 1)
      invariant remaining == Balance(corpus, w, g, month - 1) && withdrawn == Paid(w, month - 1)
    {
      BalanceStep(corpus, w, g, month);
      BalanceClosed(corpus, w, g, month);
      remaining := Grown(remaining, g);
      OneMore(w, month);
      if remaining >= w {
        remaining := remaining - w;
        withdrawn := withdrawn + w;
      } else {
        Conservation(corpus, w, g, month - 1);
        withdrawn := withdrawn + remaining;
        remaining := 0.0;
        exhaustionMonth := Some(month);
        break;
      }
      month := month + 1;
    }
    if exhaustionMonth == None {
      BalanceClosed(corpus, w, g, month - 1);
      Conservation(corpus, w, g, month - 1);
    }
    r := SwpResult(remaining, withdrawn, exhaustionMonth, remaining == 0.0);
  }

  lemma BalanceStart(corpus: real, w: real, g: real)
    ensures Balance(corpus, w, g, 0) == corpus
  {
  }

  lemma BalanceStep(corpus: real, w: real, g: real, n: nat)
    requires n > 0
    ensures Balance(corpus, w, g, n) == Grown(Balance(corpus, w, g, n - 1), g) - w
    ensures Credited(corpus, w, g, n)
         == Credited(corpus, w, g, n - 1) + Grown(Balance(corpus, w, g, n - 1), g) - Balance(corpus, w, g, n - 1)
  {
    var b := Balance(corpus, w, g, n - 1);
    assert b * (g - 1.0) == b * g - b;
  }

  lemma GrownSign(b: real, g: real)
    requires g >= 0.0
    ensures b >= 0.0 ==> Grown(b, g) >= 0.0
    ensures b <= 0.0 ==> Grown(b, g) <= 0.0
  {
    MulNonNegative(if b >= 0.0 then b else -b, g);
  }

  /** With a growth factor and withdrawal that are not negative, lasting through month `n` is one inequality. */
  lemma {:induction false} SustainsIff(corpus: real, w: real, g: real, n: nat)
    requires g >= 0.0 && w >= 0.0 && n > 0
    ensures Sustains(corpus, w, g, n) <==> ClosedBalance(corpus, w, g, n) >= 0.0
  {
    if n > 1 {
      SustainsIff(corpus, w, g, n - 1);
      BalanceStep(corpus, w, g, n);
      BalanceClosed(corpus, w, g, n);
      BalanceClosed(corpus, w, g, n - 1);
      hide ClosedBalance, Balance, Grown;
      GrownSign(Balance(corpus, w, g, n - 1), g);
    }
  }

  // ---------- emi ----------

  datatype EmiResult = EmiResult(emi: real, totalPayment: real, totalInterest: real) | UndefinedEmi

  function EmiValue(loan: real, rate: real, growth: real): real
    requires growth != 1.0
  {
    loan * rate * growth / (growth - 1.0)
  }

  /** The instalment formula; it raises when its denominator is zero. */
  function Emi(loan: real, annualRate: real, tenure: nat): EmiResult {
    var rate := annualRate / 12.0;
    var g := 1.0 + rate;
    if tenure == 0 || (rate != 0.0 && Pow(g, tenure) == 1.0) then UndefinedEmi
    else
      var emi := if rate == 0.0 then loan / tenure as real else EmiValue(loan, rate, Pow(g, tenure));
      EmiResult(emi, emi * tenure as real, emi * tenure as real - loan)
  }

  /** For a monthly growth that is not negative the instalment exists for every tenure of a month or more. */
  lemma EmiDefined(loan: real, annualRate: real, tenure: nat)
    requires MonthlyGrowth(annualRate) >= 0.0
    ensures Emi(loan, annualRate, tenure).EmiResult? <==> tenure > 0
  {
    var g := MonthlyGrowth(annualRate);
    if tenure > 0 {
      PowAtLeastOne(if g >= 1.0 then g else 1.0, tenure);
      if g < 1.0 {
        PowAtMostOne(g, tenure);
      }
    }
  }

  lemma InstalmentRate(w: real, loan: real, rate: real, p: real)
    requires p != 1.0 && w == EmiValue(loan, rate, p)
    ensures w * (p - 1.0) == loan * p * rate
  {
    assert loan * rate * p == loan * p * rate;
  }

  lemma CancelFactor(a: real, b: real, f: real)
    requires f != 0.0 && a * f == b * f
    ensures a == b
  {
    if a < b {
      NonZeroFactor(b - a, f);
    }
    if a > b {
      NonZeroFactor(a - b, f);
    }
    assert (b - a) * f == b * f - a * f && (a - b) * f == a * f - b * f;
  }

  lemma NonZeroFactor(a: real, f: real)
    requires a > 0.0 && f != 0.0
    ensures a * f != 0.0
  {
    if f > 0.0 {
      MulPositive(a, f);
    } else {
      MulPositive(a, -f);
    }
  }

  lemma AnnuityOfLoan(a: real, w: real, loan: real, rate: real, g: real, p: real)
    requires rate != 0.0 && g == 1.0 + rate && a * (g - 1.0) == w * (p - 1.0) == loan * p * rate
    ensures a == loan * p
  {
    CancelFactor(a, loan * p, rate);
  }

  lemma InstalmentForms(loan: real, annualRate: real, tenure: nat)
    requires Emi(loan, annualRate, tenure).EmiResult?
    ensures var w, rate := Emi(loan, annualRate, tenure).emi, annualRate / 12.0;
            var p := Pow(1.0 + rate, tenure);
            if rate == 0.0 then w * tenure as real == loan else p != 1.0 && w == EmiValue(loan, rate, p)
  {
    hide EmiValue, Pow;
  }

  /** The instalment pays the loan off exactly at the end of the tenure. */
  lemma EmiPaysOff(loan: real, annualRate: real, tenure: nat)
    requires Emi(loan, annualRate, tenure).EmiResult?
    ensures Balance(loan, Emi(loan, annualRate, tenure).emi, MonthlyGrowth(annualRate), tenure) == 0.0
  {
    var g, w, rate := MonthlyGrowth(annualRate), Emi(loan, annualRate, tenure).emi, annualRate / 12.0;
    InstalmentForms(loan, annualRate, tenure);
    hide EmiValue, Annuity, Pow, Balance, Emi;
    BalanceIsAnnuity(loan, w, g, tenure);
    if rate == 0.0 {
      AnnuityFlat(w, tenure);
      PowOfOne(tenure);
    } else {
      AnnuityGrows(w, g, tenure);
      InstalmentRate(w, loan, rate, Pow(g, tenure));
      AnnuityOfLoan(Annuity(w, g, tenure), w, loan, rate, g, Pow(g, tenure));
    }
  }

  lemma {:induction false} AnnuitySign(x: real, g: real, n: nat)
    requires g >= 0.0 && n > 0
    ensures x >= 0.0 ==> Annuity(x, g, n) >= x
    ensures x < 0.0 ==> Annuity(x, g, n) <= x
  {
    if n > 1 {
      AnnuitySign(x, g, n - 1);
      MulNonNegative(if x >= 0.0 then Annuity(x, g, n - 1) else -Annuity(x, g, n - 1), g);
    }
  }

  lemma InstalmentSign(loan: real, w: real, g: real, n: nat)
    requires g > 0.0 && n > 0 && Balance(loan, w, g, n) == 0.0
    ensures w >= 0.0 <==> loan >= 0.0
  {
    BalanceIsAnnuity(loan, w, g, n);
    AnnuitySign(w, g, n);
    PowPositive(g, n);
    hide Balance, Annuity, Pow;
    if loan >= 0.0 {
      MulNonNegative(loan, Pow(g, n));
    } else {
      MulPositive(-loan, Pow(g, n));
    }
  }

  /** A repayment that ends at zero never dips below it, save for a negative loan repaid over several months. */
  lemma RepaymentSustained(loan: real, w: real, g: real, n: nat)
    requires g >= 0.0 && n > 0 && Balance(loan, w, g, n) == 0.0
    ensures Sustains(loan, w, g, n) <==> loan >= 0.0 || n == 1 || g == 0.0
  {
    BalanceClosed(loan, w, g, n);
    BalanceClosed(loan, w, g, n - 1);
    BalanceStep(loan, w, g, n);
    if g == 0.0 {
      assert w == 0.0;
    } else {
      InstalmentSign(loan, w, g, n);
    }
    hide ClosedBalance, Balance, Grown;
    if w >= 0.0 {
      SustainsIff(loan, w, g, n);
    } else if n > 1 {
      GrownSign(Balance(loan, w, g, n - 1), g);
      assert ClosedBalance(loan, w, g, n - 1) < 0.0;
    }
  }

  lemma TotalsOf(loan: real, annualRate: real, tenure: nat)
    requires Emi(loan, annualRate, tenure).EmiResult?
    ensures var e := Emi(loan, annualRate, tenure);
            e.totalPayment == Paid(e.emi, tenure) && e.totalInterest == e.totalPayment - loan
  {
  }

  /**
   * Amortisation: instalments pay the loan off exactly, the total interest is the interest credited month by month, and
   * unless a month's growth is negative the balance stays non-negative on the way, for exactly these loans.
   */
  lemma EmiAmortises(loan: real, annualRate: real, tenure: nat)
    requires Emi(loan, annualRate, tenure).EmiResult?
    ensures var e, g := Emi(loan, annualRate, tenure), MonthlyGrowth(annualRate);
            && ClosedBalance(loan, e.emi, g, tenure) == 0.0
            && e.totalInterest == Credited(loan, e.emi, g, tenure)
            && e.totalPayment == Paid(e.emi, tenure)
            && (g >= 0.0 ==> (Sustains(loan, e.emi, g, tenure) <==> loan >= 0.0 || tenure == 1 || g == 0.0))
  {
    TotalsOf(loan, annualRate, tenure);
    EmiPaysOff(loan, annualRate, tenure);
    assert tenure > 0;
    hide ClosedBalance, Balance, Credited, Emi;
    var w, g := Emi(loan, annualRate, tenure).emi, MonthlyGrowth(annualRate);
    BalanceClosed(loan, w, g, tenure);
    Conservation(loan, w, g, tenure);
    if g >= 0.0 {
      RepaymentSustained(loan, w, g, tenure);
    }
  }

  lemma WholeMonths(n: nat)
    ensures Months(n as real / 12.0) == n
  {
    assert n as real / 12.0 * 12.0 == n as real;
  }

  /** A withdrawal plan fed the loan and its instalment: nothing is left, and it withdraws the total payment. */
  method RepayBySwp(loan: real, annualRate: real, tenure: nat) returns (r: SwpResult)
    requires Emi(loan, annualRate, tenure).EmiResult?
    ensures r.remaining == 0.0 && r.exhausted
    ensures r.exhaustionMonth == None ==> r.withdrawn == Emi(loan, annualRate, tenure).totalPayment
    ensures MonthlyGrowth(annualRate) >= 0.0 ==>
              (r.exhaustionMonth == None <==> loan >= 0.0 || tenure == 1 || MonthlyGrowth(annualRate) == 0.0)
  {
    EmiAmortises(loan, annualRate, tenure);
    WholeMonths(tenure);
    hide ClosedBalance, Credited, Months, Paid;
    var e := Emi(loan, annualRate, tenure);
    r := Swp(loan, e.emi, annualRate, tenure as real / 12.0);
    if r.exhaustionMonth.Some? {
      assert !Sustains(loan, e.emi, MonthlyGrowth(annualRate), tenure);
    }
  }
}
