# Loan simulator arithmetic in Dafny

This project models the loan arithmetic behind two small Shiny apps. Both use fixed-payment (Price, or French) amortisation, where each instalment is `P·i·(1+i)^n / ((1+i)^n − 1)`, or `P/n` at a zero rate.

- `simulador_emprestimo.py` has four pieces, each modelled in module `Simulador` (`simulador.dfy`):
  - the instalment-count suggestion (`sugerir_parcelas`);
  - the early-payoff quote (`calcular_quitacao_antecipada`);
  - the comparison of candidate terms (`comparar_custos`);
  - the month-by-month schedule built inside the app's `tabela`. Here it becomes a method of the principal, the monthly rate in percent, the term and the monthly inflation index.
- `EmprestimosShiny-master/juros.py` has a second schedule builder (`calcular_parcelas`), modelled in module `Juros` (`juros.dfy`).
- Module `Annuity` (`annuity.dfy`) holds what both apps share:
  - the payment;
  - the balance recurrence `saldo -= parcela − saldo·i`;
  - the present value used by the early-payoff quote;
  - rounding to cents.

  It also holds the theory proved about them:
  - the payment clears the loan after exactly n months;
  - the balance has a closed form;
  - for a positive principal repaid by the annuity payment, the balance falls strictly every month;
  - the principal parts add up to the loan;
  - the present value of the m remaining instalments is the balance after the other n − m;
  - for a non-negative principal, the payment never grows with the term.

Money is modelled with `real`. `(1+i)^k` is a recursive power; a negative exponent is the reciprocal of a positive one. Python's `round(x, 2)` is used only through its contract: the result is a whole number of cents within half a cent of `x`.

## Model

| member | source | states |
|---|---|---|
| Annuity.Pow | simulador_emprestimo.py:152 | `b^k` by recursion on k, the deflator `(1 + ipca) ** mes`; positive for a positive base |
| Annuity.IntPow | simulador_emprestimo.py:37 | `(1+i)^e` for any integer e: positive, the recursive power for e ≥ 0, and the reciprocal of `(1+i)^−e` for e < 0 |
| Annuity.Round2 | simulador_emprestimo.py:38 | `round(x, 2)` is a whole number of cents within 0.005 of x |
| Annuity.Round2NonNegative | EmprestimosShiny-master/juros.py:55 | rounding keeps a non-negative amount non-negative and keeps zero at zero |
| Annuity.Round2Monotone | simulador_emprestimo.py:49 | rounding to cents preserves order |
| Annuity.Max0 | simulador_emprestimo.py:157 | `max(0, x)` is non-negative, at least x, and is either x or 0 |
| Annuity.PaymentEquation | simulador_emprestimo.py:21-24 | for i > −1, i ≠ 0 and n ≥ 1, `(1+i)^n ≠ 1`, and the payment satisfies the annuity equation `pmt·((1+i)^n − 1) = P·i·(1+i)^n` |
| Annuity.PaymentFacts | simulador_emprestimo.py:24 | the power `(1+i)^n` is above 1 for a positive rate and in (0, 1) for a negative one, and the payment satisfies the annuity equation with it |
| Annuity.PaymentSign | simulador_emprestimo.py:21-24 | the payment has the sign of the principal: positive, negative or zero |
| Annuity.PaymentNonIncreasingStep | simulador_emprestimo.py:20-24 | for P ≥ 0, one more month never raises the payment |
| Annuity.PaymentNonIncreasing | simulador_emprestimo.py:20-28 | for P ≥ 0 and s ≤ t, the payment over t months is at most the payment over s months |
| Annuity.BalanceAtZeroRate | simulador_emprestimo.py:148-151 | at a zero rate the recurrence gives the straight line `P − pmt·k`, which is the closed form that the zero-rate branch of `tabela` uses |
| Annuity.BalanceClosedForm | simulador_emprestimo.py:160-165 | the balance after k months satisfies `i·B_k = i·P·(1+i)^k − pmt·((1+i)^k − 1)`, for any payment |
| Annuity.BalanceFormula | simulador_emprestimo.py:160-165 | for i ≠ 0, the accumulated balance after k months is `P(1+i)^k − pmt((1+i)^k − 1)/i` |
| Annuity.PaymentRepaysLoan | simulador_emprestimo.py:160-165 | under the annuity payment, the balance after n months is exactly 0 (at every rate above −100%, zero included) |
| Annuity.AmortizationGrowth | simulador_emprestimo.py:163-165 | each month's principal part is the previous month's times (1+i) |
| Annuity.FirstAmortizationPositive | simulador_emprestimo.py:163-164 | for P > 0, the first principal part is positive |
| Annuity.AmortizationPositive | simulador_emprestimo.py:163-165 | for P > 0, every principal part is positive |
| Annuity.AmortizedSoFarIsRepaid | EmprestimosShiny-master/juros.py:47-49 | the first k principal parts add up to `P − B_k` |
| Annuity.BalanceDecreasesToZero | EmprestimosShiny-master/juros.py:46-49 | for P > 0 the balance strictly decreases every month, is positive before month n and is zero at month n |
| Annuity.BalanceStrictlyDecreasing | simulador_emprestimo.py:162-165 | for P > 0 and j < k ≤ n, the balance after k months is strictly below the balance after j months |
| Annuity.AmortizationsSumToPrincipal | EmprestimosShiny-master/juros.py:41-49 | the n principal parts add up to the principal |
| Annuity.PresentValueIsBalance | simulador_emprestimo.py:36-37 | the present value of the last m of n instalments equals the balance after the first n − m |
| Annuity.PresentValueOfRemaining | simulador_emprestimo.py:37 | any payment stream that is cleared after k + m months has a present value over m months equal to the balance after k months |
| Annuity.PresentValueStep | simulador_emprestimo.py:37 | compounding the present value of m instalments by one month gives one instalment plus the present value of m − 1 |
| Annuity.TotalPaidAtZeroRate | simulador_emprestimo.py:43-45 | at a zero rate, n instalments of P/n total exactly P |
| Simulador.FittingRun | simulador_emprestimo.py:20-28 | the number of consecutive terms from n whose payment fits the ceiling, at most 85 − n |
| Simulador.SuggestInstallments | simulador_emprestimo.py:15-29 | the scan over terms 1..84 returns the suggestion function: 1 for a non-positive income or percentage, otherwise the length of the run of fitting terms from 1 (or 1 when that run is empty) |
| Simulador.FittingRunCount | simulador_emprestimo.py:20-28 | a run of fitting terms that ends at a misfit or at the end of the scan has exactly that length |
| Simulador.FittingRunFits | simulador_emprestimo.py:25-26 | every term counted by the run has a payment within the ceiling |
| Simulador.SuggestionBounds | simulador_emprestimo.py:15-29 | the suggestion lies in 1..84; it is 1 when income or percentage is ≤ 0; when it exceeds 1, every term up to it has a payment within `renda·percent_renda/100` |
| Simulador.SuggestionIsOneOrMax | simulador_emprestimo.py:20-28 | the suggestion is 84 if income and percentage are positive and the one-instalment payment fits, and 1 otherwise |
| Simulador.PaymentFits | simulador_emprestimo.py:24-25 | when the one-instalment payment fits a positive ceiling, every longer term's payment fits too |
| Simulador.FirstFitSpec | simulador_emprestimo.py:20-28 | the corrected search finds the smallest fitting term in n..84, with every earlier term over the ceiling, and finds nothing exactly when no term fits |
| Simulador.SmallestAffordableTerm | simulador_emprestimo.py:15-29 | the corrected scan returns the first fitting term, or none for a non-positive income or percentage |
| Simulador.SuggestionOverCeilingExample | simulador_emprestimo.py:19-28 | for P = 1000, 2% a month, income 3000 and 30%: the suggestion is 1; one instalment (1020) exceeds the 900 ceiling; two instalments fit; the corrected search returns 2 |
| Simulador.EarlyPayoffMatchesSchedule | simulador_emprestimo.py:31-38 | with m of n instalments left, the quote is P when m = n. It equals the schedule's balance after n − m months exactly at a zero rate, and to within half a cent otherwise |
| Simulador.ProRatedIsRemainingBalance | simulador_emprestimo.py:35 | the pro-rated `P·m/n` equals `P − (P/n)·(n − m)` |
| Simulador.EarlyPayoffZeroRateBounds | simulador_emprestimo.py:34-35 | at a zero rate with 0 ≤ m < n and P > 0, the quote lies in [0, P) |
| Simulador.UnroundedQuoteMonotone | simulador_emprestimo.py:36-37 | for P > 0 and i ≠ 0, the unrounded present value grows strictly with m, stays at most P for m ≤ n, and equals P at m = n |
| Simulador.CompareCosts | simulador_emprestimo.py:40-50 | one row per candidate term, in input order, each with the term, the rounded payment and the rounded total of n payments |
| Simulador.CompareDefaultCosts | simulador_emprestimo.py:40 | the default comparison has four rows, for the terms 6, 12, 24 and 36 |
| Simulador.CostRowAccuracy | simulador_emprestimo.py:43-49 | a row's payment and total are within 0.005 of the exact payment and of n times it; at a zero rate the total is `round(P, 2)` |
| Simulador.CostRowsPaymentsNonIncreasing | simulador_emprestimo.py:42-49 | for P ≥ 0, a longer term never shows a larger rounded payment |
| Simulador.Tabela | simulador_emprestimo.py:140-173 | the error marker exactly when P ≤ 0, n ≤ 0 or the rate is negative; otherwise n rows, where row k is the row for month k + 1 |
| Simulador.StraightLineRows | simulador_emprestimo.py:148-158 | the zero-rate loop produces, for each month, the row whose balance is `P − parcela·mes` |
| Simulador.RecurrenceRows | simulador_emprestimo.py:159-172 | the positive-rate loop keeps its running balance equal to the recurrence, and produces the row for each month |
| Simulador.ScheduleRowFacts | simulador_emprestimo.py:150-172 | each row of a valid table shows its month number and the same rounded payment; its debt is never negative; with zero inflation the real payment equals the nominal one; the last row owes 0 |
| Simulador.ScheduleBalanceNonIncreasing | simulador_emprestimo.py:162-171 | the debt column never increases from one month to a later one |
| Simulador.SchedulePaymentsEqual | simulador_emprestimo.py:155-169 | every row of a valid table carries the rounded payment `round(parcela, 2)` |
| Simulador.SumOfEqualPayments | simulador_emprestimo.py:186 | rows that all carry payment c add up to `|rows|·c` |
| Simulador.TotalPagoOfEqualPayments | simulador_emprestimo.py:182-187 | the total-paid figure of a table whose rows all carry payment c is `|rows|·c` |
| Simulador.TotalPagoOfSchedule | simulador_emprestimo.py:182-187 | the total-paid figure of a valid n-month table is n times the rounded payment `round(parcela, 2)` |
| Simulador.ZeroRateUnreachableAsWritten | simulador_emprestimo.py:136-139 | as written, a manual rate of 0 is replaced by the central-bank rate, so whenever that rate is non-zero the resolved rate is never 0 |
| Simulador.RatePercent | simulador_emprestimo.py:136-139 | the corrected resolution keeps any manual entry, zero included, and falls back to the central-bank rate only when there is no manual entry or the central bank is the chosen source |
| Simulador.ScheduleFromInputs | simulador_emprestimo.py:134-173 | the table built from the resolved rate, with the same error and row guarantees as `Tabela` |
| Juros.ComputeInstallments | EmprestimosShiny-master/juros.py:36-58 | `max(n_parcelas, 0)` rows, where row k is the row for month k + 1 |
| Juros.AccumulateRows | EmprestimosShiny-master/juros.py:43-56 | the loop keeps its running balance equal to the recurrence and produces the row for each month |
| Juros.NextRow | EmprestimosShiny-master/juros.py:47-55 | one month's row is built from the previous balance: interest is `saldo·taxa`, amortisation is `parcela − juros_mes`, and the clamped, rounded balance is that of month k |
| Annuity.BalanceStep | simulador_emprestimo.py:163-165 | one pass of the balance update `saldo −= parcela − saldo·i`, taken from the balance after month k − 1, gives the balance after month k (the same step as EmprestimosShiny-master/juros.py:47-49) |
| Juros.RowFacts | EmprestimosShiny-master/juros.py:47-55 | each row shows its month number and the same rounded payment; its balance is never negative; the unrounded interest and principal parts add up to the payment |
| Juros.ZeroRateRows | EmprestimosShiny-master/juros.py:37-39 | at a zero rate the payment is `valor/n`, every row's interest is 0, and its amortisation equals its payment |
| Juros.ZeroRateBalance | EmprestimosShiny-master/juros.py:39 | at a zero rate the balance after month k is `valor − (valor/n)·k` |
| Juros.BalanceRunsDown | EmprestimosShiny-master/juros.py:41-49 | for valor > 0 and a rate above −100%, the unrounded balance strictly decreases every month, is positive before the last month and is exactly 0 after it; the principal parts add up to valor |
| Juros.LastRowSettles | EmprestimosShiny-master/juros.py:55 | the last row's balance is 0 |

## Left out

- The Shiny user interface, the reactive wiring, the JavaScript theme toggle, the charts and the CSV download are left out. The charts' balance loop only repeats the schedule recurrence.
- The central bank's rate and inflation index are constant stand-ins in the source. Here they are plain inputs.
- IEEE-754 floating point is not modelled: overflow of `(1+i)**n`, cancellation in `(1+i)**n − 1`, and the exact half-to-even ties of Python's `round` on binary floats. `Round2` rounds ties upwards, and every property here relies only on its half-cent contract.
- Annuity.Payment: rates of −100% or below are outside the domain. At exactly −100% the source's formula gives a payment of 0 without error, while the early-payoff quote divides by zero in `(1 + i)**-m`. Below −100% the source computes real values, and divides by zero only where `(1 + i)**n` equals 1 (a rate of −200% with an even term, for instance).
- Annuity.Payment: a term of 0 is outside the domain. The source raises `ZeroDivisionError` there.
- Simulador.Tabela: an inflation index of exactly −1 is excluded, because the deflator `(1+ipca)**mes` is then 0.
- Simulador.EarlyPayoffMatchesSchedule: the quote is related to the balance only for 0 ≤ m ≤ n and n ≥ 1. For m ≥ n the quote is P by definition.
- Simulador.CostRowsPaymentsNonIncreasing: this covers non-negative principals only. For a negative principal the payments are negative, and their order is not stated.
- Simulador.SuggestionBounds: does not claim that the suggestion is the last or the smallest term that fits. When the suggestion is 1, a later term may still fit (`SuggestionOverCeilingExample` shows term 2 fitting).
- Simulador.ScheduleFromInputs: this builds the table from the corrected rate resolution. The code as written is modelled separately, by `RatePercentAsWritten`.
- The suggestion, quote and comparison displays resolve the rate without the fallback (`input.juros()` directly). They are modelled through their functions taking the rate as a parameter.
- Simulador.CompareCosts: the total `n·pmt` is not proved to grow with the term.

## Findings

| source | as written | input that shows it | evidently intended | confidence | as-written member | corrected member |
|---|---|---|---|---|---|---|
| simulador_emprestimo.py:19-28 | `n_sugerido` starts at 1. The loop breaks at the first term whose payment exceeds the ceiling. Payments never grow with the term, so the result is 84 or 1, and 1 even when a single instalment does not fit. | P = 1000, i = 0.02, renda = 3000, percent_renda = 30: the ceiling is 900; one instalment is 1020; two are about 515.05; the suggestion is 1 | the smallest term whose payment fits the ceiling, or no suggestion when none does | not executed | Simulador.SuggestionOverCeilingExample | Simulador.SmallestAffordableTerm |
| simulador_emprestimo.py:137 | `input.juros() or obter_taxa_juros_bcb()` treats a manually entered 0% as missing and uses the 2% central-bank rate | a manual rate of 0 gives a table at 2% a month, so the zero-rate branch at lines 148-158 is never reached | keep a manual 0% (the other displays at lines 193 and 203 use the manual entry as it is) | not executed | Simulador.ZeroRateUnreachableAsWritten | Simulador.RatePercent |
