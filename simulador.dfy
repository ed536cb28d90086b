/**
 * The loan arithmetic of the single-file simulator: the affordability
 * suggestion, the early-payoff quote, the cost comparison across terms and
 * the month-by-month schedule (lifted out of the app's reactive server into
 * a method of the principal, the monthly rate in percent, the term and the
 * monthly inflation index).
 */
module Simulador {
  import opened Annuity

  datatype Option<T> = None | Some(value: T)

  // ---------------------------------------------------------------------
  // Suggesting a number of instalments
  // ---------------------------------------------------------------------

  /** The longest term the suggestion scans. */
  const MaxTerm: nat := 84

  /** The largest instalment the borrower accepts: renda·(percent_renda/100). */
  function Ceiling(renda: real, pct: real): real
  {
    renda * (pct / 100.0)
  }

  /**
   * How many consecutive terms n, n + 1, … up to MaxTerm have a payment
   * under the ceiling before the first one that does not.
   */
  function FittingRun(P: real, i: real, cap: real, n: nat): (r: nat)
    requires i > -1.0 && 1 <= n <= MaxTerm + 1
    ensures r <= MaxTerm + 1 - n
    decreases MaxTerm + 1 - n
  {
    if n > MaxTerm then 0
    else if Payment(P, i, n) <= cap then 1 + FittingRun(P, i, cap, n + 1)
    else 0
  }

  /**
   * What the suggestion returns: 1 for a non-positive income or percentage,
   * otherwise the length of the run of fitting terms that starts at 1, and
   * 1 again when that run is empty.
   */
  function Suggestion(P: real, i: real, renda: real, pct: real): nat
    requires i > -1.0
  {
    if renda <= 0.0 || pct <= 0.0 then 1
    else
      var run := FittingRun(P, i, Ceiling(renda, pct), 1);
      if run == 0 then 1 else run
  }

  /**
   * The scan of terms 1..84: the suggestion is raised while the payment
   * fits and the scan stops at the first term that does not.
   */
  method SuggestInstallments(P: real, i: real, renda: real, pct: real) returns (nSugerido: nat)
    requires i > -1.0
    ensures nSugerido == Suggestion(P, i, renda, pct)
  {
    if renda <= 0.0 || pct <= 0.0 {
      return 1;
    }
    var maxParcela := renda * (pct / 100.0);
    nSugerido := 1;
    var n: nat := 1;
    while n <= MaxTerm
      invariant 1 <= n <= MaxTerm + 1
      invariant nSugerido == if n == 1 then 1 else n - 1
      invariant forall t :: 1 <= t < n ==> Payment(P, i, t) <= maxParcela
      decreases MaxTerm + 1 - n
    {
      var parcela := Payment(P, i, n);
      if parcela <= maxParcela {
        nSugerido := n;
      } else {
        break;
      }
      n := n + 1;
    }
    FittingRunCount(P, i, maxParcela, 1, n);
  }

  /** A run of fitting terms from j that ends at e (a misfit or the end of the scan) has length e − j. */
  lemma {:induction false} FittingRunCount(P: real, i: real, cap: real, j: nat, e: nat)
    requires i > -1.0 && 1 <= j <= e <= MaxTerm + 1
    requires forall t :: j <= t < e ==> Payment(P, i, t) <= cap
    requires e <= MaxTerm ==> Payment(P, i, e) > cap
    ensures FittingRun(P, i, cap, j) == e - j
    decreases e - j
  {
    if j < e {
      FittingRunCount(P, i, cap, j + 1, e);
    }
  }

  /** Every term counted by the run has a fitting payment. */
  lemma {:induction false} FittingRunFits(P: real, i: real, cap: real, j: nat, t: nat)
    requires i > -1.0 && 1 <= j <= MaxTerm + 1
    requires j <= t < j + FittingRun(P, i, cap, j)
    ensures Payment(P, i, t) <= cap
    decreases t - j
  {
    if t > j {
      FittingRunFits(P, i, cap, j + 1, t);
    }
  }

  /**
   * The suggestion lies in 1..84, is 1 for a non-positive income or
   * percentage, and when it exceeds 1 every term up to it fits the ceiling.
   */
  lemma SuggestionBounds(P: real, i: real, renda: real, pct: real)
    requires i > -1.0
    ensures 1 <= Suggestion(P, i, renda, pct) <= MaxTerm
    ensures renda <= 0.0 || pct <= 0.0 ==> Suggestion(P, i, renda, pct) == 1
    ensures Suggestion(P, i, renda, pct) > 1 ==>
              forall t :: 1 <= t <= Suggestion(P, i, renda, pct) ==> Payment(P, i, t) <= Ceiling(renda, pct)
  {
    var r := Suggestion(P, i, renda, pct);
    if r > 1 {
      forall t | 1 <= t <= r
        ensures Payment(P, i, t) <= Ceiling(renda, pct)
      {
        FittingRunFits(P, i, Ceiling(renda, pct), 1, t);
      }
    }
  }

  /**
   * Because the payment never grows with the term (and is negative for a
   * negative principal), the scan either runs to the end or stops at once:
   * the suggestion is 84 exactly when the one-instalment payment fits, and
   * 1 otherwise.
   */
  lemma SuggestionIsOneOrMax(P: real, i: real, renda: real, pct: real)
    requires i > -1.0
    ensures Suggestion(P, i, renda, pct)
         == if renda > 0.0 && pct > 0.0 && Payment(P, i, 1) <= Ceiling(renda, pct) then MaxTerm else 1
  {
    if renda > 0.0 && pct > 0.0 {
      var cap := Ceiling(renda, pct);
      if Payment(P, i, 1) <= cap {
        forall t | 1 <= t < MaxTerm + 1
          ensures Payment(P, i, t) <= cap
        {
          PaymentFits(P, i, renda, pct, t);
        }
        FittingRunCount(P, i, cap, 1, MaxTerm + 1);
      }
    }
  }

  /** When the one-instalment payment fits a positive ceiling, so does every longer term's. */
  lemma PaymentFits(P: real, i: real, renda: real, pct: real, t: nat)
    requires i > -1.0 && renda > 0.0 && pct > 0.0 && t >= 1
    requires Payment(P, i, 1) <= Ceiling(renda, pct)
    ensures Payment(P, i, t) <= Ceiling(renda, pct)
  {
    if P >= 0.0 {
      PaymentNonIncreasing(P, i, 1, t);
    } else {
      PaymentSign(P, i, t);
      MulStrict(renda, pct / 100.0, 0.0);
    }
  }

  /** The first term from n on whose payment fits under cap, if any. */
  function FirstFit(P: real, i: real, cap: real, n: nat): Option<nat>
    requires i > -1.0 && 1 <= n <= MaxTerm + 1
    decreases MaxTerm + 1 - n
  {
    if n > MaxTerm then None
    else if Payment(P, i, n) <= cap then Some(n)
    else FirstFit(P, i, cap, n + 1)
  }

  /** FirstFit finds the smallest fitting term in n..84, and nothing when none fits. */
  lemma {:induction false} FirstFitSpec(P: real, i: real, cap: real, n: nat)
    requires i > -1.0 && 1 <= n <= MaxTerm + 1
    ensures FirstFit(P, i, cap, n).Some? ==>
              var t := FirstFit(P, i, cap, n).value;
              n <= t <= MaxTerm && Payment(P, i, t) <= cap &&
              forall u :: n <= u < t ==> Payment(P, i, u) > cap
    ensures FirstFit(P, i, cap, n).None? <==> forall u :: n <= u <= MaxTerm ==> Payment(P, i, u) > cap
    decreases MaxTerm + 1 - n
  {
    if n <= MaxTerm && Payment(P, i, n) > cap {
      FirstFitSpec(P, i, cap, n + 1);
    }
  }

  /**
   * The suggestion the scan evidently aims at: the shortest term in 1..84
   * whose payment fits the ceiling, and no suggestion when none does or
   * when the income or percentage is not positive.
   */
  method SmallestAffordableTerm(P: real, i: real, renda: real, pct: real) returns (r: Option<nat>)
    requires i > -1.0
    ensures r == if renda <= 0.0 || pct <= 0.0 then None else FirstFit(P, i, Ceiling(renda, pct), 1)
  {
    if renda <= 0.0 || pct <= 0.0 {
      return None;
    }
    var maxParcela := renda * (pct / 100.0);
    var n: nat := 1;
    while n <= MaxTerm
      invariant 1 <= n <= MaxTerm + 1
      invariant FirstFit(P, i, maxParcela, 1) == FirstFit(P, i, maxParcela, n)
      decreases MaxTerm + 1 - n
    {
      if Payment(P, i, n) <= maxParcela {
        return Some(n);
      }
      n := n + 1;
    }
    return None;
  }

  /**
   * A loan of 1000 at 2% a month for a borrower with income 3000 and a
   * 30% ceiling (900): one instalment of 1020 does not fit, two of about
   * 515.05 do, yet the scan suggests a single instalment.
   */
  lemma SuggestionOverCeilingExample()
    ensures Suggestion(1000.0, 0.02, 3000.0, 30.0) == 1
    ensures Payment(1000.0, 0.02, 1) > Ceiling(3000.0, 30.0)
    ensures Payment(1000.0, 0.02, 2) <= Ceiling(3000.0, 30.0)
    ensures FirstFit(1000.0, 0.02, Ceiling(3000.0, 30.0), 1) == Some(2)
  {
    assert Pow(1.02, 1) == 1.02;
    assert Pow(1.02, 2) == 1.0404;
    assert Payment(1000.0, 0.02, 1) == 1020.0;
    assert Payment(1000.0, 0.02, 2) == 20.808 / 0.0404;
  }

  // ---------------------------------------------------------------------
  // Early payoff
  // ---------------------------------------------------------------------

  /**
   * What it costs to settle a loan of P over n months with m instalments
   * still to pay: P when m >= n, the pro-rated P·m/n at zero rate, and
   * otherwise the present value of the m remaining instalments rounded to
   * cents.
   */
  function EarlyPayoffQuote(P: real, i: real, n: int, m: int): real
    requires i > -1.0 && (m >= n || n != 0)
  {
    if m >= n then P
    else if i == 0.0 then P * (m as real / n as real)
    else Round2(PresentValue(Payment(P, i, n), i, m))
  }

  /**
   * With m of the n instalments left, the quote is the balance the
   * schedule shows after the other n − m instalments: exactly at zero rate
   * and within half a cent otherwise.
   */
  lemma EarlyPayoffMatchesSchedule(P: real, i: real, n: nat, m: nat)
    requires i > -1.0 && n >= 1 && m <= n
    ensures m == n ==> EarlyPayoffQuote(P, i, n, m) == P
    ensures i == 0.0 ==> EarlyPayoffQuote(P, i, n, m) == Balance(P, i, Payment(P, i, n), n - m)
    ensures -0.005 <= EarlyPayoffQuote(P, i, n, m) - Balance(P, i, Payment(P, i, n), n - m) <= 0.005
  {
    if m == n {
      assert Balance(P, i, Payment(P, i, n), 0) == P;
    } else if i == 0.0 {
      var pmt := Payment(P, i, n);
      BalanceAtZeroRate(P, pmt, n - m);
      ProRatedIsRemainingBalance(P, n as real, m as real);
    } else {
      PresentValueIsBalance(P, i, n, m);
    }
  }

  /** P·(m/n) = P − (P/n)·(n − m). */
  lemma ProRatedIsRemainingBalance(P: real, n: real, m: real)
    requires n != 0.0
    ensures P * (m / n) == P - (P / n) * (n - m)
  {
    var q := P / n;
    assert q * n == P;
    assert P * (m / n) == q * m;
  }

  /** At zero rate, with 0 <= m < n, the pro-rated quote lies in [0, P) for a positive principal. */
  lemma EarlyPayoffZeroRateBounds(P: real, n: nat, m: nat)
    requires P > 0.0 && m < n
    ensures 0.0 <= EarlyPayoffQuote(P, 0.0, n, m) < P
  {
    var f := m as real / n as real;
    assert EarlyPayoffQuote(P, 0.0, n, m) == P * f;
    QuotientTimesDivisor(m as real, n as real);
    CancelPositive(f, 1.0, n as real);
    assert 0.0 <= f < 1.0;
    MulWeak(P, f, 0.0);
    MulStrict(P, 1.0, f);
  }

  /**
   * At a non-zero rate the unrounded quote grows strictly with the number
   * of instalments left, stays at or below P, and reaches P when all n
   * remain.
   */
  lemma UnroundedQuoteMonotone(P: real, i: real, n: nat, m: nat, m': nat)
    requires P > 0.0 && i > -1.0 && i != 0.0 && n >= 1 && m < m' <= n
    ensures PresentValue(Payment(P, i, n), i, m) < PresentValue(Payment(P, i, n), i, m')
    ensures PresentValue(Payment(P, i, n), i, m') <= P
    ensures m' == n ==> PresentValue(Payment(P, i, n), i, m') == P
  {
    PresentValueIsBalance(P, i, n, m);
    PresentValueIsBalance(P, i, n, m');
    BalanceStrictlyDecreasing(P, i, n, n - m', n - m);
    if m' < n {
      BalanceStrictlyDecreasing(P, i, n, 0, n - m');
    }
  }

  // ---------------------------------------------------------------------
  // Comparing terms
  // ---------------------------------------------------------------------

  datatype CostRow = CostRow(parcelas: int, parcelaMensal: real, totalPago: real)

  /** The candidate terms compared when the caller names none. */
  const DefaultTerms: seq<int> := [6, 12, 24, 36]

  /** The row for term n: the rounded payment and the rounded total of n payments. */
  function CostRowFor(P: real, i: real, n: int): (row: CostRow)
    requires i > -1.0 && n != 0
  {
    CostRow(n, Round2(Payment(P, i, n)), Round2(TotalPaid(P, i, n)))
  }

  /** One row per candidate term, in the order given. */
  method CompareCosts(P: real, i: real, prazos: seq<int>) returns (dados: seq<CostRow>)
    requires i > -1.0
    requires forall k :: 0 <= k < |prazos| ==> prazos[k] != 0
    ensures |dados| == |prazos|
    ensures forall k :: 0 <= k < |prazos| ==> dados[k] == CostRowFor(P, i, prazos[k])
  {
    dados := [];
    var j := 0;
    while j < |prazos|
      invariant 0 <= j <= |prazos|
      invariant |dados| == j
      invariant forall k :: 0 <= k < j ==> dados[k] == CostRowFor(P, i, prazos[k])
    {
      var n := prazos[j];
      var parcela, total;
      if i == 0.0 {
        parcela := P / n as real;
        total := parcela * n as real;
        assert parcela == Payment(P, i, n);
      } else {
        parcela := Payment(P, i, n);
        total := parcela * n as real;
      }
      assert total == TotalPaid(P, i, n);
      assert CostRow(n, Round2(parcela), Round2(total)) == CostRowFor(P, i, prazos[j]);
      dados := dados + [CostRow(n, Round2(parcela), Round2(total))];
      j := j + 1;
    }
  }

  /** The comparison over the default terms 6, 12, 24 and 36. */
  method CompareDefaultCosts(P: real, i: real) returns (dados: seq<CostRow>)
    requires i > -1.0
    ensures |dados| == 4
    ensures forall k :: 0 <= k < 4 ==> dados[k].parcelas == DefaultTerms[k]
    ensures forall k :: 0 <= k < 4 ==> dados[k] == CostRowFor(P, i, DefaultTerms[k])
  {
    dados := CompareCosts(P, i, DefaultTerms);
  }

  /**
   * Each row's figures are within half a cent of the exact payment and of
   * n times it; at zero rate the total is the principal itself.
   */
  lemma CostRowAccuracy(P: real, i: real, n: int)
    requires i > -1.0 && n != 0
    ensures -0.005 <= CostRowFor(P, i, n).parcelaMensal - Payment(P, i, n) <= 0.005
    ensures -0.005 <= CostRowFor(P, i, n).totalPago - Payment(P, i, n) * n as real <= 0.005
    ensures i == 0.0 ==> CostRowFor(P, i, n).totalPago == Round2(P)
  {
    if i == 0.0 {
      TotalPaidAtZeroRate(P, n);
    }
  }

  /**
   * For a non-negative principal, listing terms in increasing order lists
   * the rounded payments in non-increasing order.
   */
  lemma CostRowsPaymentsNonIncreasing(P: real, i: real, s: nat, t: nat)
    requires P >= 0.0 && i > -1.0 && 1 <= s <= t
    ensures CostRowFor(P, i, t).parcelaMensal <= CostRowFor(P, i, s).parcelaMensal
  {
    PaymentNonIncreasing(P, i, s, t);
    Round2Monotone(Payment(P, i, t), Payment(P, i, s));
  }

  // ---------------------------------------------------------------------
  // The schedule table
  // ---------------------------------------------------------------------

  datatype ScheduleRow = ScheduleRow(mes: int, parcela: real, parcelaReal: real, dividaRestante: real)

  datatype Schedule = InvalidInputs | Rows(rows: seq<ScheduleRow>)

  /** The inputs the table rejects: a non-positive principal or term, or a negative rate. */
  predicate ValidScheduleInputs(P: real, i: real, n: int)
  {
    P > 0.0 && n > 0 && i >= 0.0
  }

  /**
   * Row mes of a table repaying pmt a month: the rounded payment, the
   * payment deflated by (1 + ipca)^mes, and the rounded balance after mes
   * instalments, never shown below zero.
   */
  function ScheduleRowFor(P: real, i: real, pmt: real, ipca: real, mes: nat): ScheduleRow
    requires ipca != -1.0
  {
    PowNonZero(1.0 + ipca, mes);
    ScheduleRow(mes, Round2(pmt), Round2(pmt / Pow(1.0 + ipca, mes)), Max0(Round2(Balance(P, i, pmt, mes))))
  }

  /** Row mes of the table for P at rate i over n months. */
  function ScheduleRowAt(P: real, i: real, n: nat, ipca: real, mes: nat): ScheduleRow
    requires i >= 0.0 && n >= 1 && ipca != -1.0
  {
    ScheduleRowFor(P, i, Payment(P, i, n), ipca, mes)
  }

  /**
   * The table for a principal P, a monthly rate in percent, n months and
   * a monthly inflation index: the error marker for invalid inputs,
   * otherwise one row per month. At zero rate the balance is computed in
   * closed form, otherwise by running the balance month by month.
   */
  method Tabela(P: real, jurosPercent: real, n: int, ipca: real) returns (t: Schedule)
    requires ipca != -1.0
    ensures t.InvalidInputs? <==> !ValidScheduleInputs(P, jurosPercent / 100.0, n)
    ensures t.Rows? ==> |t.rows| == n
    ensures t.Rows? ==> forall k :: 0 <= k < n ==> t.rows[k] == ScheduleRowAt(P, jurosPercent / 100.0, n, ipca, k + 1)
  {
    var i := jurosPercent / 100.0;
    if P <= 0.0 || n <= 0 || i < 0.0 {
      return InvalidInputs;
    }
    var dados;
    if i == 0.0 {
      var parcela := P / n as real;
      dados := StraightLineRows(P, parcela, n, ipca);
    } else {
      var parcela := Payment(P, i, n);
      dados := RecurrenceRows(P, i, parcela, n, ipca);
    }
    return Rows(dados);
  }

  /** The zero-rate rows: the balance after month mes is P − parcela·mes. */
  method StraightLineRows(P: real, parcela: real, n: nat, ipca: real) returns (dados: seq<ScheduleRow>)
    requires ipca != -1.0
    ensures |dados| == n
    ensures forall k :: 0 <= k < n ==> dados[k] == ScheduleRowFor(P, 0.0, parcela, ipca, k + 1)
  {
    dados := [];
    var mes := 1;
    while mes <= n
      invariant 1 <= mes <= n + 1
      invariant |dados| == mes - 1
      invariant forall k :: 0 <= k < mes - 1 ==> dados[k] == ScheduleRowFor(P, 0.0, parcela, ipca, k + 1)
    {
      var saldo := P - parcela * mes as real;
      PowNonZero(1.0 + ipca, mes);
      var parcelaReal := parcela / Pow(1.0 + ipca, mes);
      BalanceAtZeroRate(P, parcela, mes);
      dados := dados + [ScheduleRow(mes, Round2(parcela), Round2(parcelaReal), Max0(Round2(saldo)))];
      mes := mes + 1;
    }
  }

  /** The positive-rate rows: the balance is carried from month to month. */
  method RecurrenceRows(P: real, i: real, parcela: real, n: nat, ipca: real) returns (dados: seq<ScheduleRow>)
    requires ipca != -1.0
    ensures |dados| == n
    ensures forall k :: 0 <= k < n ==> dados[k] == ScheduleRowFor(P, i, parcela, ipca, k + 1)
  {
    dados := [];
    var saldoRestante := P;
    var mes := 1;
    while mes <= n
      invariant 1 <= mes <= n + 1
      invariant saldoRestante == Balance(P, i, parcela, mes - 1)
      invariant |dados| == mes - 1
      invariant forall k :: 0 <= k < mes - 1 ==> dados[k] == ScheduleRowFor(P, i, parcela, ipca, k + 1)
    {
      BalanceStep(P, i, parcela, mes, saldoRestante);
      var jurosMes := saldoRestante * i;
      var amortizacao := parcela - jurosMes;
      saldoRestante := saldoRestante - amortizacao;
      PowNonZero(1.0 + ipca, mes);
      var parcelaReal := parcela / Pow(1.0 + ipca, mes);
      dados := dados + [ScheduleRow(mes, Round2(parcela), Round2(parcelaReal), Max0(Round2(saldoRestante)))];
      mes := mes + 1;
    }
  }

  /**
   * What every row of a valid table shows: its month number, the same
   * rounded payment, a balance that is never negative, the nominal payment
   * as the real one when there is no inflation, and nothing left owed in
   * the last month.
   */
  lemma ScheduleRowFacts(P: real, i: real, n: nat, ipca: real, mes: nat)
    requires ValidScheduleInputs(P, i, n) && ipca != -1.0 && 1 <= mes <= n
    ensures ScheduleRowAt(P, i, n, ipca, mes).mes == mes
    ensures ScheduleRowAt(P, i, n, ipca, mes).parcela == Round2(Payment(P, i, n))
    ensures ScheduleRowAt(P, i, n, ipca, mes).dividaRestante >= 0.0
    ensures ipca == 0.0 ==> ScheduleRowAt(P, i, n, ipca, mes).parcelaReal == ScheduleRowAt(P, i, n, ipca, mes).parcela
    ensures mes == n ==> ScheduleRowAt(P, i, n, ipca, mes).dividaRestante == 0.0
  {
    if ipca == 0.0 {
      PowOfOne(mes);
    }
    if mes == n {
      PaymentRepaysLoan(P, i, n);
      Round2NonNegative(0.0);
    }
  }

  /** The balance column never increases from one month to a later one. */
  lemma ScheduleBalanceNonIncreasing(P: real, i: real, n: nat, ipca: real, j: nat, k: nat)
    requires ValidScheduleInputs(P, i, n) && ipca != -1.0 && 1 <= j < k <= n
    ensures ScheduleRowAt(P, i, n, ipca, k).dividaRestante <= ScheduleRowAt(P, i, n, ipca, j).dividaRestante
  {
    var pmt := Payment(P, i, n);
    BalanceStrictlyDecreasing(P, i, n, j, k);
    Round2Monotone(Balance(P, i, pmt, k), Balance(P, i, pmt, j));
  }

  lemma {:induction false} PowOfOne(k: nat)
    ensures Pow(1.0, k) == 1.0
  {
    if k > 0 {
      PowOfOne(k - 1);
    }
  }

  /** The sum of the payment column, as the total-paid line reports it. */
  function SumPayments(rows: seq<ScheduleRow>): real
  {
    if |rows| == 0 then 0.0 else SumPayments(rows[..|rows| - 1]) + rows[|rows| - 1].parcela
  }

  /** The total-paid line: no total for the error marker, else the sum of the payments. */
  function TotalPago(t: Schedule): Option<real>
  {
    match t
    case InvalidInputs => None
    case Rows(rows) => Some(SumPayments(rows))
  }

  /** Rows that all carry payment c add up to |rows|·c. */
  lemma {:induction false} SumOfEqualPayments(rows: seq<ScheduleRow>, c: real)
    requires forall k :: 0 <= k < |rows| ==> rows[k].parcela == c
    ensures SumPayments(rows) == |rows| as real * c
  {
    if |rows| > 0 {
      SumOfEqualPayments(rows[..|rows| - 1], c);
    }
  }

  /** Every row of a valid table carries the same rounded payment. */
  lemma SchedulePaymentsEqual(P: real, i: real, n: nat, ipca: real, rows: seq<ScheduleRow>)
    requires ValidScheduleInputs(P, i, n) && ipca != -1.0 && |rows| == n
    requires forall k :: 0 <= k < n ==> rows[k] == ScheduleRowAt(P, i, n, ipca, k + 1)
    ensures forall k :: 0 <= k < |rows| ==> rows[k].parcela == Round2(Payment(P, i, n))
  {
    forall k | 0 <= k < |rows|
      ensures rows[k].parcela == Round2(Payment(P, i, n))
    {
      assert rows[k] == ScheduleRowAt(P, i, n, ipca, k + 1);
    }
  }

  /**
   * The total-paid line of a table whose rows all carry payment c (as
   * every valid table's rows do, by SchedulePaymentsEqual) is |rows|·c.
   */
  lemma TotalPagoOfEqualPayments(rows: seq<ScheduleRow>, c: real)
    requires forall k :: 0 <= k < |rows| ==> rows[k].parcela == c
    ensures TotalPago(Rows(rows)) == Some(|rows| as real * c)
  {
    SumOfEqualPayments(rows, c);
  }

  /** A valid table, whose rows carry the rounded payment c, totals n·c. */
  lemma TotalPagoOfSchedule(P: real, i: real, n: nat, ipca: real, rows: seq<ScheduleRow>, c: real)
    requires ValidScheduleInputs(P, i, n) && ipca != -1.0 && |rows| == n
    requires forall k :: 0 <= k < n ==> rows[k] == ScheduleRowAt(P, i, n, ipca, k + 1)
    requires c == Round2(Payment(P, i, n))
    ensures TotalPago(Rows(rows)) == Some(|rows| as real * c)
  {
    SchedulePaymentsEqual(P, i, n, ipca, rows);
    TotalPagoOfEqualPayments(rows, c);
  }

  // ---------------------------------------------------------------------
  // Resolving the rate
  // ---------------------------------------------------------------------

  datatype RateSource = Manual | CentralBank

  /**
   * The rate in percent as the table reads it: the central bank's rate,
   * or the manual entry with the central bank's rate standing in for a
   * missing one. Python's `or` also treats an entered 0 as missing.
   */
  function RatePercentAsWritten(source: RateSource, manual: Option<real>, centralBank: real): real
  {
    match source
    case CentralBank => centralBank
    case Manual => if manual.None? || manual.value == 0.0 then centralBank else manual.value
  }

  /** Whenever the central bank's rate is not zero, the zero-rate branch of the table cannot be reached. */
  lemma ZeroRateUnreachableAsWritten(source: RateSource, manual: Option<real>, centralBank: real)
    requires centralBank != 0.0
    ensures RatePercentAsWritten(source, manual, centralBank) != 0.0
    ensures RatePercentAsWritten(Manual, Some(0.0), centralBank) == centralBank
  {
  }

  /** The rate resolution with only a missing manual entry falling back. */
  function RatePercent(source: RateSource, manual: Option<real>, centralBank: real): (r: real)
    ensures source == Manual && manual.Some? ==> r == manual.value
    ensures source == CentralBank || manual.None? ==> r == centralBank
  {
    match source
    case CentralBank => centralBank
    case Manual => if manual.None? then centralBank else manual.value
  }

  /** The table as the app builds it from its inputs, with the rate resolved first. */
  method ScheduleFromInputs(P: real, source: RateSource, manual: Option<real>, centralBank: real, n: int, ipca: real)
    returns (t: Schedule)
    requires ipca != -1.0
    ensures t.InvalidInputs? <==> !ValidScheduleInputs(P, RatePercent(source, manual, centralBank) / 100.0, n)
    ensures t.Rows? ==> |t.rows| == n
    ensures t.Rows? ==> forall k :: 0 <= k < n ==>
              t.rows[k] == ScheduleRowAt(P, RatePercent(source, manual, centralBank) / 100.0, n, ipca, k + 1)
  {
    var jurosPercent := RatePercent(source, manual, centralBank);
    t := Tabela(P, jurosPercent, n, ipca);
  }
}
