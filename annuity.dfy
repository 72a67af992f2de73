/** The level-payment (annuity) formula of the loan calculator, over exact
    rationals: `calculate_monthly_payment` and what it promises.

    A loan of P at monthly rate r is repaid by n equal payments when, month
    after month, interest r * balance is charged and the rest of the payment
    is taken off the balance, and the balance is exactly zero after the n-th
    month. `Amortize` is that month-by-month reference; the lemmas below show
    that the closed formula is the one and only level payment that clears
    the loan, and that re-computing it one month later, for the balance then
    left and one month fewer, gives the same payment again. */
module Annuity {

  /** x to the n-th power; `(1 + r) ** n` in the calculator. */
  function Pow(x: real, n: nat): real
  {
    if n == 0 then 1.0 else x * Pow(x, n - 1)
  }

  /** The sum of (1 + r)^i for i < k: what k payments of 1 have grown to
      right after the k-th of them. */
  function Accumulated(r: real, k: nat): real
  {
    if k == 0 then 0.0 else Accumulated(r, k - 1) + Pow(1.0 + r, k - 1)
  }

  // ---------------------------------------------------------------------
  // Arithmetic over plain reals, kept apart from the recursive functions.
  // ---------------------------------------------------------------------

  /** The sign of a product with a positive factor is the sign of the other. */
  lemma FactorSign(a: real, s: real, c: real)
    requires s > 0.0 && a * s == c
    ensures c >= 0.0 ==> a >= 0.0
    ensures c > 0.0 ==> a > 0.0
    ensures c == 0.0 ==> a == 0.0
  {
  }

  /** Division by a non-zero amount, characterised by what it undoes. */
  function Quotient(a: real, b: real): (q: real)
    requires b != 0.0
    ensures q * b == a
  {
    a / b
  }

  /** q * s == P * (1 + r*s) with s >= 1 puts q between P*r and P*(1 + r). */
  lemma PaymentBounds(P: real, r: real, s: real, q: real)
    requires P >= 0.0 && r >= 0.0 && s >= 1.0 && q * s == P * (1.0 + r * s)
    ensures P * r <= q <= P * (1.0 + r)
  {
    assert (q - P * r) * s == P;
    FactorSign(q - P * r, s, P);
    assert (P * (1.0 + r) - q) * s == P * (s - 1.0);
    FactorSign(P * (1.0 + r) - q, s, P * (s - 1.0));
  }

  /** The non-zero-rate branch: with s the accumulated value of the payments
      and x == 1 + r*s the growth of the loan, q * (x - 1) == P*r*x gives
      q * s == P*x. */
  lemma PaymentAlgebra(P: real, r: real, x: real, s: real, q: real)
    requires r > 0.0 && s >= 1.0 && r * s == x - 1.0
    requires q * (x - 1.0) == P * r * x
    ensures q * s == P * x
    ensures P >= 0.0 ==> P * r <= q <= P * (1.0 + r)
  {
    var u := q * s;
    assert u * r == (P * x) * r;
    FactorSign(u - P * x, r, 0.0);
    if P >= 0.0 {
      PaymentBounds(P, r, s, q);
    }
  }

  /** The zero-rate branch: P / s repaid s times. */
  lemma ZeroRateAlgebra(P: real, s: real)
    requires s >= 1.0
    ensures P / s * s == P
    ensures P >= 0.0 ==> 0.0 <= P / s <= P
  {
    if P >= 0.0 {
      FactorSign(P / s, s, P);
      assert (P - P / s) * s == P * (s - 1.0);
      FactorSign(P - P / s, s, P * (s - 1.0));
    }
  }

  // ---------------------------------------------------------------------
  // The growth factors.
  // ---------------------------------------------------------------------

  lemma {:induction false} PowAtLeastOne(r: real, n: nat)
    requires r >= 0.0
    ensures Pow(1.0 + r, n) >= 1.0
  {
    if n == 0 {
      assert Pow(1.0 + r, n) == 1.0;
    } else {
      PowAtLeastOne(r, n - 1);
      var y := Pow(1.0 + r, n - 1);
      assert Pow(1.0 + r, n) == y + r * y;
      assert r * y >= 0.0;
    }
  }

  /** The geometric series: r * (1 + (1+r) + ... + (1+r)^(k-1)) == (1+r)^k - 1,
      and every term of the sum is at least one. */
  lemma {:induction false} AccumulatedFacts(r: real, k: nat)
    requires r >= 0.0
    ensures r * Accumulated(r, k) == Pow(1.0 + r, k) - 1.0
    ensures Accumulated(r, k) >= k as real
    ensures r == 0.0 ==> Accumulated(r, k) == k as real
  {
    if k == 0 {
      assert Pow(1.0 + r, k) == 1.0 && Accumulated(r, k) == 0.0;
    } else {
      AccumulatedFacts(r, k - 1);
      PowAtLeastOne(r, k - 1);
      var y, a := Pow(1.0 + r, k - 1), Accumulated(r, k - 1);
      assert Accumulated(r, k) == a + y;
      assert Pow(1.0 + r, k) == y + r * y;
      assert r * (a + y) == r * a + r * y;
    }
  }

  lemma AccumulatedAtLeastOne(r: real, n: nat)
    requires r >= 0.0 && n >= 1
    ensures Accumulated(r, n) >= 1.0
  {
    AccumulatedFacts(r, n);
  }

  // ---------------------------------------------------------------------
  // The payment.
  // ---------------------------------------------------------------------

  /** `calculate_monthly_payment(P, r, n)`: P / n without interest, the
      annuity formula P*r*(1+r)^n / ((1+r)^n - 1) otherwise. The payment grown
      over n months equals the loan grown over n months, and for a
      non-negative loan it covers one month's interest on the loan without
      exceeding the loan plus that interest. */
  function MonthlyPayment(P: real, r: real, n: nat): (pmt: real)
    requires r >= 0.0 && n >= 1
    ensures pmt * Accumulated(r, n) == P * Pow(1.0 + r, n)
    ensures P >= 0.0 ==> P * r <= pmt <= P * (1.0 + r)
  {
    var x, s := Pow(1.0 + r, n), Accumulated(r, n);
    if r == 0.0 then
      assert s == n as real && x == 1.0 by {
        AccumulatedFacts(r, n);
      }
      ZeroRateAlgebra(P, n as real);
      P / (n as real)
    else
      assert r * s == x - 1.0 && s >= 1.0 by {
        AccumulatedFacts(r, n);
      }
      assert x - 1.0 > 0.0 by {
        assert r * s >= r * 1.0;
      }
      var q := Quotient(P * r * x, x - 1.0);
      PaymentAlgebra(P, r, x, s, q);
      q
  }

  // ---------------------------------------------------------------------
  // The month-by-month reference and what the formula means for it.
  // ---------------------------------------------------------------------

  /** One month of the schedule when the principal portion is not capped:
      interest b * r is charged and the rest of payment p repays principal. */
  function Step(b: real, r: real, p: real): real
  {
    b - (p - b * r)
  }

  /** The balance left after k months of paying p on a loan of B at rate r. */
  function Amortize(B: real, r: real, p: real, k: nat): real
    decreases k
  {
    if k == 0 then B else Amortize(Step(B, r, p), r, p, k - 1)
  }

  /** The arithmetic of one month in closed form. */
  lemma StepAlgebra(B: real, r: real, p: real, x: real, s: real, X: real, S: real)
    requires X == (1.0 + r) * x && S == s + x
    ensures Step(B, r, p) * x - p * s == B * X - p * S
  {
    assert Step(B, r, p) * x == B * x + B * r * x - p * x;
    assert B * X == B * x + B * r * x;
  }

  /** The balance after k level payments: the loan grown by (1+r)^k less the
      payments grown by the accumulation factor. */
  lemma {:induction false} AmortizeClosedForm(B: real, r: real, p: real, k: nat)
    decreases k
    ensures Amortize(B, r, p, k) == B * Pow(1.0 + r, k) - p * Accumulated(r, k)
  {
    if k == 0 {
      assert Pow(1.0 + r, k) == 1.0 && Accumulated(r, k) == 0.0;
    } else {
      AmortizeClosedForm(Step(B, r, p), r, p, k - 1);
      StepAlgebra(B, r, p, Pow(1.0 + r, k - 1), Accumulated(r, k - 1), Pow(1.0 + r, k), Accumulated(r, k));
    }
  }

  /** With pmt * s == a and s positive, a - p * s vanishes exactly at p == pmt. */
  lemma LevelPaymentAlgebra(a: real, pmt: real, p: real, s: real)
    requires s > 0.0 && pmt * s == a
    ensures a - p * s == 0.0 <==> p == pmt
  {
    assert a - p * s == (pmt - p) * s;
    FactorSign(pmt - p, s, a - p * s);
  }

  /** Any pmt solving the annuity equation is the one level payment that
      amortizes the loan to zero. */
  lemma LevelPaymentUnique(P: real, r: real, n: nat, p: real, pmt: real)
    requires r >= 0.0 && n >= 1
    requires pmt * Accumulated(r, n) == P * Pow(1.0 + r, n)
    ensures Amortize(P, r, p, n) == 0.0 <==> p == pmt
  {
    AccumulatedAtLeastOne(r, n);
    LevelPaymentAlgebra(P * Pow(1.0 + r, n), pmt, p, Accumulated(r, n));
    AmortizeClosedForm(P, r, p, n);
  }

  /** n payments of p clear a loan of P exactly when p is the payment that
      `MonthlyPayment` computes: the formula is the one level payment that
      amortizes the loan to zero. */
  lemma LevelPaymentClearsLoan(P: real, r: real, n: nat, p: real)
    requires r >= 0.0 && n >= 1
    ensures Amortize(P, r, p, n) == 0.0 <==> p == MonthlyPayment(P, r, n)
  {
    LevelPaymentUnique(P, r, n, p, MonthlyPayment(P, r, n));
  }

  /** Re-computing the payment after one uncapped month, for the new balance
      and one month fewer, gives the same payment: re-amortizing changes the
      payment only when something besides the scheduled payment (an extra
      payment) has reduced the balance. */
  lemma ReAmortize(B: real, r: real, m: nat)
    requires r >= 0.0 && m >= 2
    ensures MonthlyPayment(Step(B, r, MonthlyPayment(B, r, m)), r, m - 1) == MonthlyPayment(B, r, m)
  {
    var p := MonthlyPayment(B, r, m);
    LevelPaymentClearsLoan(B, r, m, p);
    LevelPaymentClearsLoan(Step(B, r, p), r, m - 1, p);
  }

  /** Both sides of w * S == v * X with S, X at least one share their sign. */
  lemma EquationSign(v: real, X: real, w: real, S: real)
    requires X >= 1.0 && S >= 1.0 && w * S == v * X
    ensures v > 0.0 <==> w > 0.0
  {
    FactorSign(v, X, w * S);
    FactorSign(w, S, v * X);
  }

  /** A level payment solving the annuity equation for a balance still solves
      it, one month later, for the new balance and one month fewer. */
  lemma LevelPaymentCarriesOver(B: real, r: real, m: nat, p: real)
    requires r >= 0.0 && m >= 2
    requires p * Accumulated(r, m) == B * Pow(1.0 + r, m)
    ensures p * Accumulated(r, m - 1) == Step(B, r, p) * Pow(1.0 + r, m - 1)
  {
    LevelPaymentUnique(B, r, m, p, p);
    assert Amortize(B, r, p, m) == Amortize(Step(B, r, p), r, p, m - 1);
    AmortizeClosedForm(Step(B, r, p), r, p, m - 1);
  }

  /** A balance and the level payment solving its annuity equation share
      their sign. */
  lemma LevelPaymentSign(B: real, r: real, m: nat, p: real)
    requires r >= 0.0 && m >= 1
    requires p * Accumulated(r, m) == B * Pow(1.0 + r, m)
    ensures B > 0.0 <==> p > 0.0
  {
    PowAtLeastOne(r, m);
    AccumulatedAtLeastOne(r, m);
    EquationSign(B, Pow(1.0 + r, m), p, Accumulated(r, m));
  }

  /** A level payment solving the annuity equation for a positive loan is
      positive, and with at least two months to go one month of it leaves a
      positive balance. */
  lemma LevelPaymentKeepsBalancePositive(B: real, r: real, m: nat, p: real)
    requires r >= 0.0 && m >= 2 && B > 0.0
    requires p * Accumulated(r, m) == B * Pow(1.0 + r, m)
    ensures p > 0.0 && Step(B, r, p) > 0.0
  {
    LevelPaymentSign(B, r, m, p);
    LevelPaymentCarriesOver(B, r, m, p);
    LevelPaymentSign(Step(B, r, p), r, m - 1, p);
  }

  /** A positive loan has a positive payment, and one scheduled month of a
      loan with at least two months to go leaves a positive balance: only the
      last payment clears the loan. */
  lemma PaymentKeepsBalancePositive(B: real, r: real, m: nat)
    requires r >= 0.0 && m >= 2 && B > 0.0
    ensures MonthlyPayment(B, r, m) > 0.0
    ensures Step(B, r, MonthlyPayment(B, r, m)) > 0.0
  {
    LevelPaymentKeepsBalancePositive(B, r, m, MonthlyPayment(B, r, m));
  }

  /** With no interest, n payments of the result repay exactly P. */
  lemma ZeroRatePayment(P: real, n: nat)
    requires n >= 1
    ensures MonthlyPayment(P, 0.0, n) * (n as real) == P
  {
    AccumulatedFacts(0.0, n);
  }

  /** A one-month loan is repaid by a single payment of P plus one month's
      interest. */
  lemma OneMonthPayment(P: real, r: real)
    requires r >= 0.0
    ensures MonthlyPayment(P, r, 1) == P * (1.0 + r)
  {
    assert Accumulated(r, 1) == 1.0;
    assert Pow(1.0 + r, 1) == 1.0 + r;
  }
}
