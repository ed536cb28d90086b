/**
 * The second app's schedule builder: the monthly rate is given in percent,
 * and each row reports the instalment, its interest and principal parts
 * and the outstanding balance, all rounded to cents.
 */
module Juros {
  import opened Annuity

  datatype InstallmentRow = InstallmentRow(
    parcela: int,
    valorParcela: real,
    juros: real,
    amortizacao: real,
    saldoDevedor: real)

  /** The periodic rate for a rate given in percent. */
  function Rate(juros: real): real
  {
    juros / 100.0
  }

  /**
   * Row k of a schedule repaying pmt a month: the rounded instalment, the
   * rounded interest and principal parts of month k, and the rounded
   * balance after it, clamped at zero before rounding.
   */
  function RowFor(valor: real, taxa: real, pmt: real, k: nat): InstallmentRow
    requires k >= 1
  {
    InstallmentRow(
      k,
      Round2(pmt),
      Round2(Interest(valor, taxa, pmt, k)),
      Round2(Amortization(valor, taxa, pmt, k)),
      Round2(Max0(Balance(valor, taxa, pmt, k))))
  }

  /** Row k of the schedule for valor at juros percent over n months. */
  function RowAt(valor: real, juros: real, n: int, k: nat): InstallmentRow
    requires Rate(juros) > -1.0 && n != 0 && k >= 1
  {
    RowFor(valor, Rate(juros), Payment(valor, Rate(juros), n), k)
  }

  /**
   * The schedule for a loan of valor at juros percent a month over
   * nParcelas months. A non-positive term gives no rows; a zero term is
   * outside the domain because the instalment divides by it.
   */
  method ComputeInstallments(valor: real, juros: real, nParcelas: int) returns (dados: seq<InstallmentRow>)
    requires Rate(juros) > -1.0 && nParcelas != 0
    ensures |dados| == if nParcelas > 0 then nParcelas else 0
    ensures forall k :: 0 <= k < |dados| ==> dados[k] == RowAt(valor, juros, nParcelas, k + 1)
  {
    var taxa := juros / 100.0;
    var parcela;
    if taxa == 0.0 {
      parcela := valor / nParcelas as real;
    } else {
      parcela := Payment(valor, taxa, nParcelas);
    }
    dados := AccumulateRows(valor, taxa, parcela, nParcelas);
  }

  /**
   * The month-by-month loop: the balance is carried from month to month,
   * losing each month the part of the instalment the interest leaves over.
   */
  method AccumulateRows(valor: real, taxa: real, parcela: real, nParcelas: int) returns (dados: seq<InstallmentRow>)
    ensures |dados| == if nParcelas > 0 then nParcelas else 0
    ensures forall k :: 0 <= k < |dados| ==> dados[k] == RowFor(valor, taxa, parcela, k + 1)
  {
    var saldoDevedor := valor;
    dados := [];
    var i := 1;
    while i <= nParcelas
      invariant 1 <= i && (if nParcelas > 0 then i <= nParcelas + 1 else i == 1)
      invariant |dados| == i - 1
      invariant saldoDevedor == Balance(valor, taxa, parcela, i - 1)
      invariant forall k :: 0 <= k < i - 1 ==> dados[k] == RowFor(valor, taxa, parcela, k + 1)
    {
      BalanceStep(valor, taxa, parcela, i, saldoDevedor);
      NextRow(valor, taxa, parcela, i, saldoDevedor);
      var jurosMes := saldoDevedor * taxa;
      var amortizacao := parcela - jurosMes;
      saldoDevedor := saldoDevedor - amortizacao;
      dados := dados + [InstallmentRow(i, Round2(parcela), Round2(jurosMes), Round2(amortizacao), Round2(Max0(saldoDevedor)))];
      i := i + 1;
    }
  }

  /** Month k's row, from the balance s after month k − 1. */
  lemma NextRow(valor: real, taxa: real, pmt: real, k: nat, s: real)
    requires k >= 1 && s == Balance(valor, taxa, pmt, k - 1)
    ensures InstallmentRow(k, Round2(pmt), Round2(s * taxa), Round2(pmt - s * taxa), Round2(Max0(s - (pmt - s * taxa))))
         == RowFor(valor, taxa, pmt, k)
  {
    var before := Balance(valor, taxa, pmt, k - 1);
    assert Interest(valor, taxa, pmt, k) == before * taxa;
    assert Amortization(valor, taxa, pmt, k) == pmt - s * taxa;
    BalanceStep(valor, taxa, pmt, k, s);
  }

  /**
   * Every row carries its month number, the same rounded instalment and a
   * balance that is never negative; the unrounded interest and principal
   * parts add up to the instalment.
   */
  lemma RowFacts(valor: real, juros: real, n: int, k: nat)
    requires Rate(juros) > -1.0 && n != 0 && k >= 1
    ensures RowAt(valor, juros, n, k).parcela == k
    ensures RowAt(valor, juros, n, k).valorParcela == Round2(Payment(valor, Rate(juros), n))
    ensures RowAt(valor, juros, n, k).saldoDevedor >= 0.0
    ensures Interest(valor, Rate(juros), Payment(valor, Rate(juros), n), k)
          + Amortization(valor, Rate(juros), Payment(valor, Rate(juros), n), k)
         == Payment(valor, Rate(juros), n)
  {
    Round2NonNegative(Max0(Balance(valor, Rate(juros), Payment(valor, Rate(juros), n), k)));
  }

  /**
   * At a zero rate the instalment is valor/n, no month carries interest
   * and the whole instalment amortises.
   */
  lemma ZeroRateRows(valor: real, n: nat, k: nat)
    requires n >= 1 && k >= 1
    ensures Payment(valor, Rate(0.0), n) == valor / n as real
    ensures RowAt(valor, 0.0, n, k).juros == 0.0
    ensures RowAt(valor, 0.0, n, k).amortizacao == RowAt(valor, 0.0, n, k).valorParcela
  {
    Round2NonNegative(0.0);
  }

  /** At a zero rate the balance after month k is valor − k·valor/n. */
  lemma ZeroRateBalance(valor: real, n: nat, k: nat)
    requires n >= 1
    ensures Balance(valor, 0.0, Payment(valor, 0.0, n), k) == valor - (valor / n as real) * k as real
  {
    var pmt := Payment(valor, 0.0, n);
    assert pmt == valor / n as real;
    BalanceAtZeroRate(valor, pmt, k);
  }

  /**
   * For a positive loan at a rate above −100% the unrounded balance falls
   * every month, is still positive before the last one, reaches exactly
   * zero after it, and the principal parts add up to the loan.
   */
  lemma BalanceRunsDown(valor: real, juros: real, n: nat, k: nat)
    requires valor > 0.0 && Rate(juros) > -1.0 && n >= 1 && 1 <= k <= n
    ensures Balance(valor, Rate(juros), Payment(valor, Rate(juros), n), k)
          < Balance(valor, Rate(juros), Payment(valor, Rate(juros), n), k - 1)
    ensures k < n ==> Balance(valor, Rate(juros), Payment(valor, Rate(juros), n), k) > 0.0
    ensures Balance(valor, Rate(juros), Payment(valor, Rate(juros), n), n) == 0.0
    ensures AmortizedSoFar(valor, Rate(juros), Payment(valor, Rate(juros), n), n) == valor
  {
    BalanceDecreasesToZero(valor, Rate(juros), n, k);
    PaymentRepaysLoan(valor, Rate(juros), n);
    AmortizationsSumToPrincipal(valor, Rate(juros), n);
  }

  /** The last row of a positive loan shows a zero balance. */
  lemma LastRowSettles(valor: real, juros: real, n: nat)
    requires Rate(juros) > -1.0 && n >= 1
    ensures RowAt(valor, juros, n, n).saldoDevedor == 0.0
  {
    PaymentRepaysLoan(valor, Rate(juros), n);
    Round2NonNegative(0.0);
  }
}
