/**
 * Fixed-payment (Price / French) amortisation arithmetic shared by both
 * loan simulators: the annuity payment, the month-by-month balance
 * recurrence the schedules run, the present value used by the early-payoff
 * quote, and two-decimal rounding. Money is modelled as `real`; the
 * source's binary floating point is not modelled.
 */
module Annuity {

  // ---------------------------------------------------------------------
  // Powers
  // ---------------------------------------------------------------------

  /** b^k for a natural exponent, the source's `(1 + i) ** n`. */
  function Pow(b: real, k: nat): (r: real)
    ensures b > 0.0 ==> r > 0.0
  {
    if k == 0 then 1.0 else b * Pow(b, k - 1)
  }

  /** b^e for any integer exponent: a negative exponent is the reciprocal. */
  function IntPow(b: real, e: int): (r: real)
    requires b > 0.0
    ensures r > 0.0
    ensures e >= 0 ==> r == Pow(b, e)
    ensures e < 0 ==> r * Pow(b, -e) == 1.0
  {
    if e >= 0 then Pow(b, e) else 1.0 / Pow(b, -e)
  }

  /** One more factor, over named values: y = (1+i)^(n+1) = (1+i)·x with x = (1+i)^n. */
  lemma PowStep(i: real, n: nat) returns (x: real, y: real)
    ensures x == Pow(1.0 + i, n) && y == Pow(1.0 + i, n + 1)
    ensures y == (1.0 + i) * x
  {
    x, y := Pow(1.0 + i, n), Pow(1.0 + i, n + 1);
  }

  /** A positive base other than 1 raised to a positive power stays on its side of 1. */
  lemma {:induction false} PowSideOfOne(b: real, k: nat)
    requires b > 0.0 && k >= 1
    ensures b > 1.0 ==> Pow(b, k) > 1.0
    ensures b < 1.0 ==> Pow(b, k) < 1.0
  {
    if k > 1 {
      PowSideOfOne(b, k - 1);
      var p := Pow(b, k - 1);
      if b > 1.0 {
        assert b * p > p;
      } else if b < 1.0 {
        assert b * p < p;
      }
    }
  }

  /** A power of a non-zero base is non-zero. */
  lemma {:induction false} PowNonZero(b: real, k: nat)
    requires b != 0.0
    ensures Pow(b, k) != 0.0
  {
    if k > 0 {
      PowNonZero(b, k - 1);
      NonZeroProduct(b, Pow(b, k - 1));
    }
  }

  lemma IntPowNotOne(b: real, e: int)
    requires b > 0.0 && b != 1.0 && e != 0
    ensures IntPow(b, e) != 1.0
  {
    if e > 0 {
      PowSideOfOne(b, e);
    } else {
      PowSideOfOne(b, -e);
    }
  }

  /** (b^−m)·(b^m) = 1. */
  lemma IntPowNegated(b: real, m: nat)
    requires b > 0.0
    ensures IntPow(b, -(m as int)) * Pow(b, m) == 1.0
  {
    if m == 0 {
      assert Pow(b, 0) == 1.0;
    }
  }

  // Real-arithmetic steps, each stated over plain reals so that the solver
  // sees nothing but the facts it needs.

  lemma NonZeroProduct(a: real, c: real)
    requires a != 0.0 && c != 0.0
    ensures a * c != 0.0
  {
  }

  lemma MulStrict(a: real, x: real, y: real)
    requires a > 0.0 && x > y
    ensures a * x > a * y
  {
  }

  lemma MulWeak(a: real, x: real, y: real)
    requires a >= 0.0 && x >= y
    ensures a * x >= a * y
  {
  }

  lemma SameSignProduct(a: real, c: real)
    requires (a > 0.0 && c > 0.0) || (a < 0.0 && c < 0.0)
    ensures a * c > 0.0
  {
    if a < 0.0 {
      MulStrict(-a, 0.0, c);
    }
  }

  // ---------------------------------------------------------------------
  // Two-decimal rounding
  // ---------------------------------------------------------------------

  /**
   * Python's `round(x, 2)`: a multiple of 0.01 within 0.005 of x. Ties are
   * broken upwards here; the properties below rely only on the two
   * ensures clauses, which hold for any tie-breaking rule.
   */
  function Round2(x: real): (r: real)
    ensures -0.005 <= r - x <= 0.005
    ensures (r * 100.0).Floor as real == r * 100.0
  {
    (x * 100.0 + 0.5).Floor as real / 100.0
  }

  /** Rounding never turns a non-negative amount negative, and zero stays zero. */
  lemma Round2NonNegative(x: real)
    requires x >= 0.0
    ensures Round2(x) >= 0.0
    ensures x == 0.0 ==> Round2(x) == 0.0
  {
    var r := Round2(x);
    var c := (r * 100.0).Floor;
    assert c as real == r * 100.0;
    assert c as real >= -0.5;
    if x == 0.0 {
      assert c as real <= 0.5;
    }
  }

  lemma Round2Monotone(x: real, y: real)
    requires x <= y
    ensures Round2(x) <= Round2(y)
  {
    var a := x * 100.0 + 0.5;
    var c := y * 100.0 + 0.5;
    assert a <= c;
    assert a.Floor <= c.Floor;
  }

  function Max0(x: real): (r: real)
    ensures r >= 0.0 && r >= x
    ensures r == x || r == 0.0
  {
    if 0.0 >= x then 0.0 else x
  }

  // ---------------------------------------------------------------------
  // The annuity payment
  // ---------------------------------------------------------------------

  /**
   * The fixed instalment that repays P in n periods at periodic rate i:
   * P / n at zero rate, P·i·(1+i)^n / ((1+i)^n − 1) otherwise. A rate of
   * −100% or below and n = 0 are outside the domain (the source divides
   * by zero at n = 0).
   */
  function Payment(P: real, i: real, n: int): real
    requires i > -1.0 && n != 0
  {
    if i == 0.0 then P / n as real
    else
      var x := IntPow(1.0 + i, n);
      IntPowNotOne(1.0 + i, n);
      P * (i * x) / (x - 1.0)
  }

  /** The annuity equation pmt·(x − 1) = P·i·x, where x stands for (1+i)^n. */
  predicate AnnuityEquation(P: real, i: real, x: real, pmt: real)
  {
    pmt * (x - 1.0) == P * i * x
  }

  /** For i != 0 the payment solves the annuity equation with x = (1+i)^n. */
  lemma PaymentEquation(P: real, i: real, n: nat)
    requires i > -1.0 && i != 0.0 && n >= 1
    ensures Pow(1.0 + i, n) != 1.0
    ensures AnnuityEquation(P, i, Pow(1.0 + i, n), Payment(P, i, n))
  {
    IntPowNotOne(1.0 + i, n);
  }

  /**
   * The payment equation over named values: x = (1+i)^n lies on i's side
   * of 1 and pmt·(x − 1) = P·i·x.
   */
  lemma PaymentFacts(P: real, i: real, n: nat) returns (x: real, pmt: real)
    requires i > -1.0 && i != 0.0 && n >= 1
    ensures x == Pow(1.0 + i, n) && pmt == Payment(P, i, n)
    ensures i > 0.0 ==> x > 1.0
    ensures i < 0.0 ==> 0.0 < x < 1.0
    ensures AnnuityEquation(P, i, x, pmt)
  {
    x, pmt := Pow(1.0 + i, n), Payment(P, i, n);
    PaymentEquation(P, i, n);
    PowSideOfOne(1.0 + i, n);
  }

  /** The payment has the sign of the principal. */
  lemma PaymentSign(P: real, i: real, n: nat)
    requires i > -1.0 && n >= 1
    ensures P > 0.0 ==> Payment(P, i, n) > 0.0
    ensures P < 0.0 ==> Payment(P, i, n) < 0.0
    ensures P == 0.0 ==> Payment(P, i, n) == 0.0
  {
    if i == 0.0 {
      assert Payment(P, i, n) == P / n as real;
    } else {
      var x, pmt := PaymentFacts(P, i, n);
      PaymentSignCore(P, i, x, pmt);
    }
  }

  lemma PaymentSignCore(P: real, i: real, x: real, pmt: real)
    requires (i > 0.0 && x > 1.0) || (i < 0.0 && 0.0 < x < 1.0)
    requires AnnuityEquation(P, i, x, pmt)
    ensures P > 0.0 ==> pmt > 0.0
    ensures P < 0.0 ==> pmt < 0.0
    ensures P == 0.0 ==> pmt == 0.0
  {
    var d := x - 1.0;
    var c := i * x;
    if i > 0.0 {
      MulStrict(i, x, 0.0);
    } else {
      MulStrict(x, 0.0, i);
    }
    assert pmt * d == P * c;
    SignOfQuotient(pmt, d, P, c);
  }

  /** From u·d = P·c with c and d of the same strict sign, u has the sign of P. */
  lemma SignOfQuotient(u: real, d: real, P: real, c: real)
    requires u * d == P * c
    requires (c > 0.0 && d > 0.0) || (c < 0.0 && d < 0.0)
    ensures P > 0.0 ==> u > 0.0
    ensures P < 0.0 ==> u < 0.0
    ensures P == 0.0 ==> u == 0.0
  {
    var d', c' := if d > 0.0 then d else -d, if d > 0.0 then c else -c;
    assert d' > 0.0 && c' > 0.0;
    assert u * d' == P * c';
    if P > 0.0 {
      assert P * c' > 0.0;
      CancelPositive(0.0, u, d');
    } else if P < 0.0 {
      assert P * c' < 0.0;
      CancelPositive(u, 0.0, d');
    } else {
      assert u * d' == 0.0 * d';
      CancelPositive(u, 0.0, d');
      CancelPositive(0.0, u, d');
    }
  }

  /** a/d1 <= c/d2 whenever a·d2 <= c·d1 with positive denominators. */
  lemma DivCompare(a: real, d1: real, c: real, d2: real)
    requires d1 > 0.0 && d2 > 0.0 && a * d2 <= c * d1
    ensures a / d1 <= c / d2
  {
    var q1 := a / d1;
    var q2 := c / d2;
    assert q1 * d1 == a;
    assert q2 * d2 == c;
    assert (q1 * d1) * d2 <= (q2 * d2) * d1;
    assert (q1 - q2) * (d1 * d2) <= 0.0;
    assert d1 * d2 > 0.0;
  }

  /** (v − u)·d >= 0 with d > 0 gives u <= v; strictly likewise. */
  lemma CancelPositive(u: real, v: real, d: real)
    requires d > 0.0 && u * d <= v * d
    ensures u <= v
    ensures u * d < v * d ==> u < v
  {
  }

  /**
   * With x = (1+i)^n, y = (1+i)·x and both on i's side of 1: from
   * u·(y − 1) = P·i·y and v·(x − 1) = P·i·x, u <= v when P >= 0.
   */
  lemma NonIncreasingStepCore(P: real, i: real, x: real, y: real, u: real, v: real)
    requires P >= 0.0 && i != 0.0 && x > 0.0 && y == (1.0 + i) * x
    requires (i > 0.0 && x > 1.0 && y > 1.0) || (i < 0.0 && x < 1.0 && y < 1.0)
    requires AnnuityEquation(P, i, y, u) && AnnuityEquation(P, i, x, v)
    ensures u <= v
  {
    var d1 := x - 1.0;
    var d2 := y - 1.0;
    SameSignProduct(d1, d2);
    var w := y - x;
    assert w == i * x;
    SameSignProduct(i, w);
    MulWeak(P, i * w, 0.0);
    var d := d1 * d2;
    assert v * d - u * d == P * (i * w);
    CancelPositive(u, v, d);
  }

  /**
   * For a non-negative principal and a rate above −100%, one more
   * instalment never raises the payment.
   */
  lemma PaymentNonIncreasingStep(P: real, i: real, n: nat)
    requires P >= 0.0 && i > -1.0 && n >= 1
    ensures Payment(P, i, n + 1) <= Payment(P, i, n)
  {
    if i == 0.0 {
      MulWeak(P, (n + 1) as real, n as real);
      DivCompare(P, (n + 1) as real, P, n as real);
    } else {
      PaymentNonIncreasingStepAtRate(P, i, n);
    }
  }

  lemma PaymentNonIncreasingStepAtRate(P: real, i: real, n: nat)
    requires P >= 0.0 && i > -1.0 && i != 0.0 && n >= 1
    ensures Payment(P, i, n + 1) <= Payment(P, i, n)
  {
    var x, v := PaymentFacts(P, i, n);
    var _, u := PaymentFacts(P, i, n + 1);
    var _, y := PowStep(i, n);
    NonIncreasingStepCore(P, i, x, y, u, v);
  }

  lemma {:induction false} PaymentNonIncreasing(P: real, i: real, s: nat, t: nat)
    requires P >= 0.0 && i > -1.0 && 1 <= s <= t
    ensures Payment(P, i, t) <= Payment(P, i, s)
    decreases t - s
  {
    if s < t {
      PaymentNonIncreasingStep(P, i, s);
      PaymentNonIncreasing(P, i, s + 1, t);
    }
  }

  // ---------------------------------------------------------------------
  // The balance recurrence
  // ---------------------------------------------------------------------

  /**
   * The balance after k instalments of pmt: each month the interest s·i
   * accrues and the remainder of the instalment amortises the debt.
   */
  function Balance(P: real, i: real, pmt: real, k: nat): real
  {
    if k == 0 then P
    else
      var s := Balance(P, i, pmt, k - 1);
      s - (pmt - s * i)
  }

  /** The interest part of instalment k (k >= 1). */
  function Interest(P: real, i: real, pmt: real, k: nat): real
    requires k >= 1
  {
    Balance(P, i, pmt, k - 1) * i
  }

  /** The principal part of instalment k (k >= 1). */
  function Amortization(P: real, i: real, pmt: real, k: nat): real
    requires k >= 1
  {
    pmt - Interest(P, i, pmt, k)
  }

  /** Sum of the principal parts of instalments 1..k. */
  function AmortizedSoFar(P: real, i: real, pmt: real, k: nat): real
  {
    if k == 0 then 0.0 else AmortizedSoFar(P, i, pmt, k - 1) + Amortization(P, i, pmt, k)
  }

  /** At zero rate the recurrence is the straight line P − k·pmt. */
  lemma {:induction false} BalanceAtZeroRate(P: real, pmt: real, k: nat)
    ensures Balance(P, 0.0, pmt, k) == P - pmt * k as real
  {
    if k > 0 {
      BalanceAtZeroRate(P, pmt, k - 1);
    }
  }

  /**
   * The closed form of the balance, multiplied through by i:
   * i·B = i·P·x − pmt·(x − 1) where x = (1+i)^k.
   */
  predicate ClosedForm(P: real, i: real, pmt: real, B: real, x: real)
  {
    i * B == i * P * x - pmt * (x - 1.0)
  }

  lemma {:induction false} BalanceClosedForm(P: real, i: real, pmt: real, k: nat)
    ensures ClosedForm(P, i, pmt, Balance(P, i, pmt, k), Pow(1.0 + i, k))
  {
    if k > 0 {
      BalanceClosedForm(P, i, pmt, k - 1);
      var s, x, s', x' := BalanceStepFacts(P, i, pmt, k);
      ClosedFormStep(P, i, pmt, s, x, s', x');
    }
  }

  /** One month of the recurrence and of the power, over named values. */
  lemma BalanceStepFacts(P: real, i: real, pmt: real, k: nat) returns (s: real, x: real, s': real, x': real)
    requires k >= 1
    ensures s == Balance(P, i, pmt, k - 1) && x == Pow(1.0 + i, k - 1)
    ensures s' == Balance(P, i, pmt, k) && x' == Pow(1.0 + i, k)
    ensures s' == s - (pmt - s * i) && x' == (1.0 + i) * x
  {
    s, x, s', x' := Balance(P, i, pmt, k - 1), Pow(1.0 + i, k - 1), Balance(P, i, pmt, k), Pow(1.0 + i, k);
  }

  /** One month of the recurrence, from the balance s after month k − 1: the step both schedule loops take. */
  lemma BalanceStep(P: real, i: real, pmt: real, k: nat, s: real)
    requires k >= 1 && s == Balance(P, i, pmt, k - 1)
    ensures s - (pmt - s * i) == Balance(P, i, pmt, k)
  {
  }

  lemma ClosedFormStep(P: real, i: real, pmt: real, s: real, x: real, s': real, x': real)
    requires ClosedForm(P, i, pmt, s, x)
    requires s' == s - (pmt - s * i) && x' == (1.0 + i) * x
    ensures ClosedForm(P, i, pmt, s', x')
  {
  }

  /** P·x − pmt·(x − 1)/i: the balance in closed form, with x standing for (1+i)^k. */
  function BalanceInClosedForm(P: real, i: real, pmt: real, x: real): real
    requires i != 0.0
  {
    P * x - pmt * (x - 1.0) / i
  }

  /** For i != 0 the recurrence has the textbook closed form. */
  lemma BalanceFormula(P: real, i: real, pmt: real, k: nat)
    requires i != 0.0
    ensures Balance(P, i, pmt, k) == BalanceInClosedForm(P, i, pmt, Pow(1.0 + i, k))
  {
    BalanceClosedForm(P, i, pmt, k);
    DivideClosedForm(P, i, pmt, Balance(P, i, pmt, k), Pow(1.0 + i, k));
  }

  lemma DivideClosedForm(P: real, i: real, pmt: real, B: real, x: real)
    requires i != 0.0 && ClosedForm(P, i, pmt, B, x)
    ensures B == BalanceInClosedForm(P, i, pmt, x)
  {
    var q := pmt * (x - 1.0) / i;
    assert q * i == pmt * (x - 1.0);
    assert (P * x - q) * i == i * B;
    CancelFactor(i, P * x - q, B);
  }

  /** The annuity identity: n instalments of Payment(P, i, n) leave nothing owed. */
  lemma PaymentRepaysLoan(P: real, i: real, n: nat)
    requires i > -1.0 && n >= 1
    ensures Balance(P, i, Payment(P, i, n), n) == 0.0
  {
    if i == 0.0 {
      var pmt := Payment(P, i, n);
      BalanceAtZeroRate(P, pmt, n);
      QuotientTimesDivisor(P, n as real);
    } else {
      var x, pmt := PaymentFacts(P, i, n);
      BalanceClosedForm(P, i, pmt, n);
      ClearedBalanceCore(P, i, pmt, x, Balance(P, i, pmt, n));
    }
  }

  lemma QuotientTimesDivisor(a: real, d: real)
    requires d != 0.0
    ensures (a / d) * d == a
  {
  }

  /** The closed form and the annuity equation together leave a zero balance. */
  lemma ClearedBalanceCore(P: real, i: real, pmt: real, x: real, B: real)
    requires i != 0.0
    requires ClosedForm(P, i, pmt, B, x) && AnnuityEquation(P, i, x, pmt)
    ensures B == 0.0
  {
    assert i * B == i * 0.0;
    CancelFactor(i, B, 0.0);
  }

  /** Each principal part is (1 + i) times the one before it. */
  lemma AmortizationGrowth(P: real, i: real, pmt: real, k: nat)
    requires k >= 1
    ensures Amortization(P, i, pmt, k + 1) == (1.0 + i) * Amortization(P, i, pmt, k)
  {
    var s := Balance(P, i, pmt, k - 1);
    var a := Amortization(P, i, pmt, k);
    assert Balance(P, i, pmt, k) == s - a;
    assert i * (s - a) == i * s - i * a;
  }

  /** With the annuity payment of a positive principal, every principal part is positive. */
  lemma {:induction false} AmortizationPositive(P: real, i: real, n: nat, k: nat)
    requires P > 0.0 && i > -1.0 && n >= 1 && k >= 1
    ensures Amortization(P, i, Payment(P, i, n), k) > 0.0
  {
    if k == 1 {
      FirstAmortizationPositive(P, i, n);
    } else {
      var pmt := Payment(P, i, n);
      AmortizationPositive(P, i, n, k - 1);
      AmortizationGrowth(P, i, pmt, k - 1);
      MulStrict(1.0 + i, Amortization(P, i, pmt, k - 1), 0.0);
    }
  }

  /** The first principal part pmt − P·i is positive. */
  lemma FirstAmortizationPositive(P: real, i: real, n: nat)
    requires P > 0.0 && i > -1.0 && n >= 1
    ensures Amortization(P, i, Payment(P, i, n), 1) > 0.0
  {
    if i == 0.0 {
      PaymentSign(P, i, n);
    } else {
      var x, pmt := PaymentFacts(P, i, n);
      FirstAmortizationCore(P, i, x, pmt);
    }
  }

  /** From the annuity equation: (pmt − P·i)·(x − 1) = P·i, which is positive. */
  lemma FirstAmortizationCore(P: real, i: real, x: real, pmt: real)
    requires P > 0.0 && ((i > 0.0 && x > 1.0) || (i < 0.0 && x < 1.0))
    requires AnnuityEquation(P, i, x, pmt)
    ensures pmt - P * i > 0.0
  {
    assert (pmt - P * i) * (x - 1.0) == 1.0 * (P * i);
    SignOfQuotient(pmt - P * i, x - 1.0, 1.0, P * i);
  }

  /** The balance falls by exactly the principal part, so k principal parts add up to P − B_k. */
  lemma {:induction false} AmortizedSoFarIsRepaid(P: real, i: real, pmt: real, k: nat)
    ensures AmortizedSoFar(P, i, pmt, k) == P - Balance(P, i, pmt, k)
  {
    if k > 0 {
      AmortizedSoFarIsRepaid(P, i, pmt, k - 1);
    }
  }

  /**
   * Under the annuity payment of a positive principal the balance strictly
   * decreases every month, is positive before month n and zero at month n.
   */
  lemma {:induction false} BalanceDecreasesToZero(P: real, i: real, n: nat, k: nat)
    requires P > 0.0 && i > -1.0 && n >= 1 && k <= n
    ensures k >= 1 ==> Balance(P, i, Payment(P, i, n), k) < Balance(P, i, Payment(P, i, n), k - 1)
    ensures k < n ==> Balance(P, i, Payment(P, i, n), k) > 0.0
    ensures k == n ==> Balance(P, i, Payment(P, i, n), k) == 0.0
    decreases n - k
  {
    var pmt := Payment(P, i, n);
    if k >= 1 {
      AmortizationPositive(P, i, n, k);
    }
    if k < n {
      BalanceDecreasesToZero(P, i, n, k + 1);
    } else {
      PaymentRepaysLoan(P, i, n);
    }
  }

  /** Under the annuity payment of a positive principal, a later balance is strictly smaller. */
  lemma {:induction false} BalanceStrictlyDecreasing(P: real, i: real, n: nat, j: nat, k: nat)
    requires P > 0.0 && i > -1.0 && n >= 1 && j < k <= n
    ensures Balance(P, i, Payment(P, i, n), k) < Balance(P, i, Payment(P, i, n), j)
    decreases k - j
  {
    BalanceDecreasesToZero(P, i, n, k);
    if j < k - 1 {
      BalanceStrictlyDecreasing(P, i, n, j, k - 1);
    }
  }

  /** The principal parts of the n instalments add up to the principal. */
  lemma AmortizationsSumToPrincipal(P: real, i: real, n: nat)
    requires i > -1.0 && n >= 1
    ensures AmortizedSoFar(P, i, Payment(P, i, n), n) == P
  {
    AmortizedSoFarIsRepaid(P, i, Payment(P, i, n), n);
    PaymentRepaysLoan(P, i, n);
  }

  // ---------------------------------------------------------------------
  // Present value and total cost
  // ---------------------------------------------------------------------

  /** Present value of m instalments of pmt: pmt·(1 − (1+i)^−m)/i. */
  function PresentValue(pmt: real, i: real, m: int): real
    requires i > -1.0 && i != 0.0
  {
    Discounted(pmt, i, IntPow(1.0 + i, -m))
  }

  /** pmt·(1 − q)/i, the present value once the discount factor q = (1+i)^−m is known. */
  function Discounted(pmt: real, i: real, q: real): real
    requires i != 0.0
  {
    pmt * ((1.0 - q) / i)
  }

  /** One period of discounting: (1 + i)·pv = pmt + pv'. */
  predicate DiscountStep(i: real, pmt: real, pv: real, pv': real)
  {
    (1.0 + i) * pv == pmt + pv'
  }

  /**
   * The present value of the m instalments still to pay equals the balance
   * the schedule shows after the first n − m instalments.
   */
  lemma PresentValueIsBalance(P: real, i: real, n: nat, m: nat)
    requires i > -1.0 && i != 0.0 && m <= n && n >= 1
    ensures PresentValue(Payment(P, i, n), i, m) == Balance(P, i, Payment(P, i, n), n - m)
  {
    var k: nat := n - m;
    PaymentRepaysLoan(P, i, n);
    assert k + m == n;
    PresentValueOfRemaining(P, i, Payment(P, i, n), k, m);
  }

  /**
   * For any instalment that clears the loan after k + m periods, the
   * present value of the last m instalments is the balance after k.
   */
  lemma {:induction false} PresentValueOfRemaining(P: real, i: real, pmt: real, k: nat, m: nat)
    requires i > -1.0 && i != 0.0
    requires Balance(P, i, pmt, k + m) == 0.0
    ensures PresentValue(pmt, i, m) == Balance(P, i, pmt, k)
    decreases m
  {
    if m == 0 {
      assert IntPow(1.0 + i, 0) == 1.0;
    } else {
      assert (k + 1) + (m - 1) == k + m;
      PresentValueOfRemaining(P, i, pmt, k + 1, m - 1);
      PresentValueStep(pmt, i, m);
      var s, _, s', _ := BalanceStepFacts(P, i, pmt, k + 1);
      DiscountCancels(i, pmt, PresentValue(pmt, i, m), PresentValue(pmt, i, m - 1), s, s');
    }
  }

  /** Discounting one more month of the recurrence brings pv' = s' back to pv = s. */
  lemma DiscountCancels(i: real, pmt: real, pv: real, pv': real, s: real, s': real)
    requires i > -1.0 && DiscountStep(i, pmt, pv, pv') && pv' == s'
    requires s' == s - (pmt - s * i)
    ensures pv == s
  {
    assert (1.0 + i) * pv == (1.0 + i) * s;
    CancelFactor(1.0 + i, pv, s);
  }

  /** Discounting one more instalment: (1 + i)·PV(m) = pmt + PV(m − 1). */
  lemma PresentValueStep(pmt: real, i: real, m: nat)
    requires i > -1.0 && i != 0.0 && m >= 1
    ensures DiscountStep(i, pmt, PresentValue(pmt, i, m), PresentValue(pmt, i, m - 1))
  {
    NegativePowerStep(1.0 + i, m);
    PresentValueStepCore(pmt, i, IntPow(1.0 + i, -(m as int)), IntPow(1.0 + i, -((m - 1) as int)));
  }

  /** b^−(m−1) = b·b^−m. */
  lemma NegativePowerStep(b: real, m: nat)
    requires b > 0.0 && m >= 1
    ensures IntPow(b, -((m - 1) as int)) == b * IntPow(b, -(m as int))
  {
    IntPowNegated(b, m);
    IntPowNegated(b, m - 1);
    InverseStep(b, Pow(b, m - 1), IntPow(b, -(m as int)), IntPow(b, -((m - 1) as int)));
  }

  /** From q·(b·p) = 1 and r·p = 1: r = b·q. */
  lemma InverseStep(b: real, p: real, q: real, r: real)
    requires p > 0.0 && q * (b * p) == 1.0 && r * p == 1.0
    ensures r == b * q
  {
    assert (b * q) * p == 1.0;
    CancelFactor(p, r, b * q);
  }

  lemma PresentValueStepCore(pmt: real, i: real, q: real, r: real)
    requires i != 0.0 && r == (1.0 + i) * q
    ensures DiscountStep(i, pmt, Discounted(pmt, i, q), Discounted(pmt, i, r))
  {
    var u := (1.0 - q) / i;
    var v := (1.0 - r) / i;
    var w := (1.0 + i) * u - 1.0 - v;
    assert w * i == 0.0;
    CancelFactor(i, w, 0.0);
    assert (1.0 + i) * (pmt * u) == pmt * ((1.0 + i) * u);
  }

  lemma CancelFactor(c: real, u: real, v: real)
    requires c != 0.0 && c * u == c * v
    ensures u == v
  {
  }

  /** What n instalments cost in total, before rounding. */
  function TotalPaid(P: real, i: real, n: int): real
    requires i > -1.0 && n != 0
  {
    Payment(P, i, n) * n as real
  }

  lemma TotalPaidAtZeroRate(P: real, n: int)
    requires n != 0
    ensures TotalPaid(P, 0.0, n) == P
  {
  }
}
