/** The amortization schedule of the loan calculator:
    `generate_amortization_schedule`.

    The loan is repaid in blocks of at most twelve months (one calendar year
    each). At the start of a block the level payment is re-computed for the
    balance then left and the months then left; each month of the block
    charges interest on the balance and takes the rest of the payment, never
    more than the balance, off it; after a block that leaves both a balance
    and months to go, a yearly extra payment of at most the balance is made.

    `ScheduleOf` says, month by month and block by block, which ledger the
    loops compute; `GenerateSchedule` is the loops, proved to compute it and
    to keep the promises of the calculator: every payment covers its
    interest, the balance never goes negative, the loan is repaid exactly,
    and without extra payments every month pays the level payment computed
    for the whole loan, so the interest is n such payments less the loan. */
module Schedule {
  import opened Annuity

  /** One printed month: its number, the payment, its interest and principal
      parts, and the balance left after it. */
  datatype MonthEntry = MonthEntry(month: int, payment: real, interest: real, principal: real, remaining: real)
  {
    /** The balance the month started from. */
    function Opening(): real
    {
      remaining + principal
    }
  }

  /** One block of up to twelve months with its yearly summary: the interest
      and the principal (extra payment included) paid in it, the extra
      payment made after it (0 when none is made), and the balance left
      after it. */
  datatype YearBlock = YearBlock(months: seq<MonthEntry>, interest: real, principal: real, extra: real, remaining: real)

  /** Python's `min` on two amounts. */
  function Min(a: real, b: real): (m: real)
    ensures m <= a && m <= b
    ensures m == a || m == b
  {
    if a <= b then a else b
  }

  function SumInterest(months: seq<MonthEntry>): real
  {
    if months == [] then 0.0 else SumInterest(months[..|months| - 1]) + months[|months| - 1].interest
  }

  function SumPrincipal(months: seq<MonthEntry>): real
  {
    if months == [] then 0.0 else SumPrincipal(months[..|months| - 1]) + months[|months| - 1].principal
  }

  function SumYearInterest(years: seq<YearBlock>): real
  {
    if years == [] then 0.0 else SumYearInterest(years[..|years| - 1]) + years[|years| - 1].interest
  }

  function SumYearPrincipal(years: seq<YearBlock>): real
  {
    if years == [] then 0.0 else SumYearPrincipal(years[..|years| - 1]) + years[|years| - 1].principal
  }

  /** The balance after a run of months that started from `opening`. */
  function Closing(months: seq<MonthEntry>, opening: real): real
  {
    if months == [] then opening else months[|months| - 1].remaining
  }

  /** The balance after a run of blocks that started from the loan P. */
  function Balance(years: seq<YearBlock>, P: real): real
  {
    if years == [] then P else years[|years| - 1].remaining
  }

  // ---------------------------------------------------------------------
  // The ledger the loops compute.
  // ---------------------------------------------------------------------

  /** One pass of the monthly loop on the balance `remaining`: interest on
      the balance, the rest of the payment as principal but never more than
      the balance, and the balance left. */
  function MonthStep(r: real, month: int, pmt: real, remaining: real): MonthEntry
  {
    var interest := remaining * r;
    var principal := Min(pmt - interest, remaining);
    MonthEntry(month, pmt, interest, principal, remaining - principal)
  }

  /** The months are passes of the monthly loop paying pmt, numbered on from
      month m, the first on the balance B and each on the balance the one
      before it left. Consecutive pairs are bound as `i, j` with
      `j == i + 1` so that the quantifier triggers on `months[i]` and
      `months[j]` alone, without an arithmetic index term. */
  ghost predicate MonthsFrom(months: seq<MonthEntry>, r: real, pmt: real, B: real, m: int)
  {
    (|months| > 0 ==> months[0] == MonthStep(r, m, pmt, B)) &&
    forall i, j :: 0 <= i < j < |months| && j == i + 1 ==> months[j] == MonthStep(r, m + j, pmt, months[i].remaining)
  }

  /** The block the outer loop prints from the balance B in month m: the
      loop runs because B is positive and the term not over; the payment is
      re-computed for B and the months left; the twelve-month loop prints a
      month while the term is not over and a balance is left; and the extra
      payment is made when the block leaves a balance and months to go, and
      is the yearly amount capped at that balance. */
  ghost predicate YearOf(y: YearBlock, r: real, n: int, yearlyExtra: real, B: real, m: int)
    requires r >= 0.0
  {
    1 <= m <= n && B > 0.0 &&
    var pmt := MonthlyPayment(B, r, (n - m + 1) as nat);
    var k := |y.months|;
    var closing := Closing(y.months, B);
    var extra := if closing > 0.0 && m + k <= n then Min(yearlyExtra, closing) else 0.0;
    k <= 12 && MonthsFrom(y.months, r, pmt, B, m) &&
    (forall i :: 0 <= i < k ==> y.months[i].month <= n && y.months[i].Opening() > 0.0) &&
    (k == 12 || m + k > n || closing <= 0.0) &&
    y.interest == SumInterest(y.months) && y.extra == extra &&
    y.principal == SumPrincipal(y.months) + extra && y.remaining == closing - extra
  }

  /** The extra payment after a block is made only when the block leaves a
      balance and months to go, is never negative when the yearly amount is
      not, and never takes the balance below zero. */
  lemma YearExtra(y: YearBlock, r: real, n: int, yearlyExtra: real, B: real, m: int)
    requires r >= 0.0 && YearOf(y, r, n, yearlyExtra, B, m)
    ensures y.extra != 0.0 ==> Closing(y.months, B) > 0.0 && m + |y.months| <= n
    ensures yearlyExtra >= 0.0 ==> y.extra >= 0.0
    ensures y.extra <= Closing(y.months, B) && y.remaining >= 0.0
  {
    var k := |y.months|;
    if k > 0 {
      var pmt := MonthlyPayment(B, r, (n - m + 1) as nat);
      var before := if k == 1 then B else y.months[k - 2].remaining;
      assert y.months[k - 1] == MonthStep(r, m + k - 1, pmt, before);
    }
  }

  /** The blocks are passes of the outer loop on a loan P: block j starts in
      month 12 * j + 1, the first from P and each from the balance the one
      before it left (consecutive pairs bound as in `MonthsFrom`). */
  ghost predicate YearsFrom(years: seq<YearBlock>, P: real, r: real, n: int, yearlyExtra: real)
    requires r >= 0.0
  {
    (|years| > 0 ==> YearOf(years[0], r, n, yearlyExtra, P, 1)) &&
    forall i, j :: 0 <= i < j < |years| && j == i + 1 ==>
      YearOf(years[j], r, n, yearlyExtra, years[i].remaining, 12 * j + 1)
  }

  /** The ledger of a loan P over n months at monthly rate r: the blocks of
      the outer loop, which stops once the term is over or the balance is
      gone. */
  ghost predicate ScheduleOf(years: seq<YearBlock>, P: real, r: real, n: int, yearlyExtra: real)
    requires r >= 0.0
  {
    YearsFrom(years, P, r, n, yearlyExtra) &&
    if years == [] then n < 1 || P <= 0.0
    else
      var last := years[|years| - 1];
      12 * (|years| - 1) + |last.months| >= n || last.remaining <= 0.0
  }

  // ---------------------------------------------------------------------
  // What the months are.
  // ---------------------------------------------------------------------

  /** `pmt` is the level payment due on the balance B in month m of n, or
      the term is over and nothing is owed. */
  ghost predicate Due(r: real, n: int, pmt: real, B: real, m: int)
    requires r >= 0.0
  {
    1 <= m <= n + 1 &&
    (m <= n ==> B > 0.0 && pmt == MonthlyPayment(B, r, (n - m + 1) as nat)) &&
    (m > n ==> B == 0.0)
  }

  /** A month of a loan of n months as the calculator promises it: the
      payment is the level payment for the balance and the months left,
      interest is charged on the balance, the payment covers it, all the
      rest of the payment repays principal, and the balance left is not
      negative. */
  ghost predicate ScheduledMonth(e: MonthEntry, r: real, n: int)
    requires r >= 0.0
  {
    1 <= e.month <= n && e.Opening() > 0.0 && e.remaining >= 0.0 &&
    e.interest == e.Opening() * r && e.interest <= e.payment &&
    e.principal == e.payment - e.interest &&
    e.payment == MonthlyPayment(e.Opening(), r, (n - e.month + 1) as nat)
  }

  /** One month of the schedule when the payment due is paid: the month it
      prints is a scheduled month starting from the balance (the cap at the
      balance never cuts the principal short), its balance is the uncapped
      reference step, and the same payment is due on what it leaves in the
      next month; the last month clears the balance exactly. */
  lemma MonthOfSchedule(r: real, n: int, pmt: real, B: real, m: int)
    requires r >= 0.0 && Due(r, n, pmt, B, m) && m <= n
    ensures var e := MonthStep(r, m, pmt, B);
      ScheduledMonth(e, r, n) && e.Opening() == B && e.remaining == Step(B, r, pmt) &&
      Due(r, n, pmt, e.remaining, m + 1)
  {
    var k := (n - m + 1) as nat;
    var e := MonthStep(r, m, pmt, B);
    assert B * r <= pmt <= B * (1.0 + r);
    assert e.interest == B * r && e.principal == pmt - B * r;
    assert e.Opening() == B;
    if k == 1 {
      OneMonthPayment(B, r);
    } else {
      PaymentKeepsBalancePositive(B, r, k);
      ReAmortize(B, r, k);
    }
  }

  // ---------------------------------------------------------------------
  // The loops.
  // ---------------------------------------------------------------------

  /** Appending the block the outer loop computes next extends the ledger. */
  lemma YearsSnoc(years: seq<YearBlock>, y: YearBlock, P: real, r: real, n: int, yearlyExtra: real)
    requires r >= 0.0 && YearsFrom(years, P, r, n, yearlyExtra)
    requires YearOf(y, r, n, yearlyExtra, Balance(years, P), 12 * |years| + 1)
    ensures YearsFrom(years + [y], P, r, n, yearlyExtra)
  {
    var ext := years + [y];
    forall i, j | 0 <= i < j < |ext| && j == i + 1
      ensures YearOf(ext[j], r, n, yearlyExtra, ext[i].remaining, 12 * j + 1)
    {
      assert ext[i] == years[i];
      if j < |years| {
        assert ext[j] == years[j];
      }
    }
  }

  /** The months a block has printed so far, numbered on from month
      `start`, each a scheduled month paying `pmt`. */
  ghost predicate Paid(block: seq<MonthEntry>, r: real, n: int, pmt: real, start: int)
    requires r >= 0.0
  {
    forall i :: 0 <= i < |block| ==>
      block[i].month == start + i && block[i].payment == pmt && ScheduledMonth(block[i], r, n)
  }

  /** One more pass of the monthly loop continues the passes before it. */
  lemma MonthsSnoc(months: seq<MonthEntry>, e: MonthEntry, r: real, pmt: real, B: real, m: int)
    requires MonthsFrom(months, r, pmt, B, m) && e == MonthStep(r, m + |months|, pmt, Closing(months, B))
    ensures MonthsFrom(months + [e], r, pmt, B, m) && Closing(months + [e], B) == e.remaining
  {
    var ext := months + [e];
    forall i, j | 0 <= i < j < |ext| && j == i + 1
      ensures ext[j] == MonthStep(r, m + j, pmt, ext[i].remaining)
    {
      assert ext[i] == months[i];
      if j < |months| {
        assert ext[j] == months[j];
      }
    }
  }

  /** The sums of a block grow by the parts of the month appended to it. */
  lemma SumsSnoc(months: seq<MonthEntry>, e: MonthEntry)
    ensures SumInterest(months + [e]) == SumInterest(months) + e.interest
    ensures SumPrincipal(months + [e]) == SumPrincipal(months) + e.principal
  {
    assert (months + [e])[..|months|] == months;
  }

  /** One more pass of the monthly loop, with the payment due on the balance
      B the block has left, prints a scheduled month, and the payment is
      still due in the next month. */
  lemma PaidSnoc(block: seq<MonthEntry>, e: MonthEntry, r: real, n: int, pmt: real, start: int, B: real)
    requires r >= 0.0 && Paid(block, r, n, pmt, start)
    requires Due(r, n, pmt, B, start + |block|) && start + |block| <= n
    requires e == MonthStep(r, start + |block|, pmt, B)
    ensures Paid(block + [e], r, n, pmt, start) && Due(r, n, pmt, e.remaining, start + |block| + 1)
  {
    MonthOfSchedule(r, n, pmt, B, start + |block|);
    var ext := block + [e];
    forall i | 0 <= i < |ext|
      ensures ext[i].month == start + i && ext[i].payment == pmt && ScheduledMonth(ext[i], r, n)
    {
      if i < |block| {
        assert ext[i] == block[i];
      }
    }
  }

  /** `k` payments of `p`, added up one at a time as the loops add them;
      `RepeatTimes` shows this is `k * p`. */
  ghost function Repeat(p: real, k: nat): real
  {
    if k == 0 then 0.0 else Repeat(p, k - 1) + p
  }

  lemma {:induction false} RepeatAdd(p: real, a: nat, b: nat)
    ensures Repeat(p, a + b) == Repeat(p, a) + Repeat(p, b)
  {
    if b > 0 {
      RepeatAdd(p, a, b - 1);
    }
  }

  lemma {:induction false} RepeatTimes(p: real, k: nat)
    ensures Repeat(p, k) == (k as real) * p
  {
    if k > 0 {
      RepeatTimes(p, k - 1);
      assert (k as real) * p == ((k - 1) as real) * p + p;
    }
  }

  /** Every month of a block paid `pmt`, interest and principal together. */
  lemma {:induction false} PaidTotal(block: seq<MonthEntry>, r: real, n: int, pmt: real, start: int)
    requires r >= 0.0 && Paid(block, r, n, pmt, start)
    ensures SumInterest(block) + SumPrincipal(block) == Repeat(pmt, |block|)
  {
    if block != [] {
      var k := |block| - 1;
      assert Paid(block[..k], r, n, pmt, start) by {
        forall i | 0 <= i < k ensures block[..k][i] == block[i] { }
      }
      PaidTotal(block[..k], r, n, pmt, start);
      assert block[k].interest + block[k].principal == pmt;
    }
  }

  /** What the twelve-month loop keeps: the block printed so far are passes
      of the monthly loop paying `pmt` from the balance `opening` in month
      `start`, each a scheduled month; the balance, the month counter and
      the sums are those the block leaves, its principal is what it took off
      the balance, and the payment is still due. */
  ghost predicate BlockSoFar(block: seq<MonthEntry>, remaining: real, monthNum: int, yearInterest: real, yearPrincipal: real,
                             r: real, n: int, pmt: real, opening: real, start: int)
    requires r >= 0.0
  {
    MonthsFrom(block, r, pmt, opening, start) && Paid(block, r, n, pmt, start) &&
    remaining == Closing(block, opening) && monthNum == start + |block| &&
    yearInterest == SumInterest(block) && yearPrincipal == SumPrincipal(block) &&
    yearPrincipal == opening - remaining && Due(r, n, pmt, remaining, monthNum) &&
    (r == 0.0 ==> yearInterest == 0.0)
  }

  /** One pass of the monthly loop keeps `BlockSoFar`. */
  lemma BlockStep(block: seq<MonthEntry>, remaining: real, monthNum: int, yearInterest: real, yearPrincipal: real,
                  r: real, n: int, pmt: real, opening: real, start: int)
    requires r >= 0.0 && BlockSoFar(block, remaining, monthNum, yearInterest, yearPrincipal, r, n, pmt, opening, start)
    requires monthNum <= n && remaining > 0.0
    ensures var e := MonthStep(r, monthNum, pmt, remaining);
      BlockSoFar(block + [e], e.remaining, monthNum + 1, yearInterest + e.interest, yearPrincipal + e.principal,
                 r, n, pmt, opening, start)
  {
    var e := MonthStep(r, monthNum, pmt, remaining);
    MonthsSnoc(block, e, r, pmt, opening, start);
    PaidSnoc(block, e, r, n, pmt, start, remaining);
    SumsSnoc(block, e);
  }

  /** The twelve-month loop of one block: from the balance `opening` in
      month `start`, pay `monthlyPmt` while a pass is left, the term is not
      over and a balance is left, adding each month's parts to the block's
      sums and to the running totals. With the payment due, every month it
      prints is a scheduled month paying it, and it is still the payment due
      when the loop stops. */
  method PayYear(r: real, n: int, monthlyPmt: real, opening: real, start: int, interest0: real, principal0: real)
    returns (block: seq<MonthEntry>, remaining: real, monthNum: int, yearInterest: real, yearPrincipal: real,
             totalInterest: real, totalPrincipal: real)
    requires r >= 0.0 && Due(r, n, monthlyPmt, opening, start)
    ensures BlockSoFar(block, remaining, monthNum, yearInterest, yearPrincipal, r, n, monthlyPmt, opening, start)
    ensures |block| <= 12 && (|block| == 12 || monthNum > n || remaining <= 0.0)
    ensures totalInterest == interest0 + yearInterest && totalPrincipal == principal0 + yearPrincipal
  {
    block := [];
    remaining, monthNum := opening, start;
    yearInterest, yearPrincipal := 0.0, 0.0;
    totalInterest, totalPrincipal := interest0, principal0;
    for monthInYear := 1 to 13
      invariant |block| == monthInYear - 1
      invariant BlockSoFar(block, remaining, monthNum, yearInterest, yearPrincipal, r, n, monthlyPmt, opening, start)
      invariant totalInterest == interest0 + yearInterest && totalPrincipal == principal0 + yearPrincipal
    {
      if monthNum > n || remaining <= 0.0 {
        break;
      }
      BlockStep(block, remaining, monthNum, yearInterest, yearPrincipal, r, n, monthlyPmt, opening, start);
      var entry := MonthStep(r, monthNum, monthlyPmt, remaining);
      remaining := entry.remaining;

      totalInterest := totalInterest + entry.interest;
      totalPrincipal := totalPrincipal + entry.principal;
      yearInterest := yearInterest + entry.interest;
      yearPrincipal := yearPrincipal + entry.principal;

      block := block + [entry];
      monthNum := monthNum + 1;
    }
  }

  // ---------------------------------------------------------------------
  // The outer loop.
  // ---------------------------------------------------------------------

  /** Every month printed so far is numbered from 1 on, block j holding
      months 12 * j + 1 onwards, and is a scheduled month. */
  ghost predicate MonthsScheduled(years: seq<YearBlock>, r: real, n: int)
    requires r >= 0.0
  {
    forall j, i :: 0 <= j < |years| && 0 <= i < |years[j].months| ==>
      years[j].months[i].month == 12 * j + i + 1 && ScheduledMonth(years[j].months[i], r, n)
  }

  /** Without extra payments every month printed so far pays `p`. */
  ghost predicate PaysThroughout(years: seq<YearBlock>, p: real)
  {
    forall j, i :: 0 <= j < |years| && 0 <= i < |years[j].months| ==> years[j].months[i].payment == p
  }

  /** The month after a run of blocks. */
  function NextMonth(years: seq<YearBlock>): int
  {
    if years == [] then 1 else 12 * (|years| - 1) + |years[|years| - 1].months| + 1
  }

  /** What the outer loop keeps: the blocks so far are passes of the loop,
      the balance and the month counter are where they leave the loan, a
      block short of twelve months ends the loop, and the totals add up the
      blocks and what they repaid. Once a block is printed the counter is
      at most one past the term, the balance is not negative and is zero
      once the term is over; without prepayments a balance is still owed
      while months of the term are left. */
  ghost predicate LedgerSoFar(years: seq<YearBlock>, remaining: real, monthNum: int, totalInterest: real, totalPrincipal: real,
                              P: real, r: real, n: int, yearlyExtra: real)
    requires r >= 0.0
  {
    YearsFrom(years, P, r, n, yearlyExtra) && MonthsScheduled(years, r, n) &&
    remaining == Balance(years, P) && monthNum == NextMonth(years) &&
    (monthNum <= n && remaining > 0.0 ==> monthNum == 12 * |years| + 1) &&
    totalInterest == SumYearInterest(years) && totalPrincipal == SumYearPrincipal(years) &&
    totalPrincipal == P - remaining &&
    (r == 0.0 ==> totalInterest == 0.0) &&
    (years != [] ==> monthNum <= n + 1 && remaining >= 0.0 && (monthNum > n ==> remaining == 0.0)) &&
    (years != [] && yearlyExtra <= 0.0 && monthNum <= n ==> remaining > 0.0)
  }

  /** Without prepayments the payment the outer loop re-computes is always
      the one computed for the whole loan, and the totals add up to that
      payment once per month so far. */
  ghost predicate LevelSoFar(years: seq<YearBlock>, remaining: real, monthNum: int, totalInterest: real, totalPrincipal: real,
                             P: real, r: real, n: int)
    requires r >= 0.0 && n >= 1
  {
    var p := MonthlyPayment(P, r, n as nat);
    Due(r, n, p, remaining, monthNum) && PaysThroughout(years, p) &&
    totalInterest + totalPrincipal == Repeat(p, (monthNum - 1) as nat)
  }

  lemma MonthsScheduledSnoc(years: seq<YearBlock>, y: YearBlock, r: real, n: int, pmt: real)
    requires r >= 0.0 && MonthsScheduled(years, r, n) && Paid(y.months, r, n, pmt, 12 * |years| + 1)
    ensures MonthsScheduled(years + [y], r, n)
  {
    var ext := years + [y];
    forall j, i | 0 <= j < |ext| && 0 <= i < |ext[j].months|
      ensures ext[j].months[i].month == 12 * j + i + 1 && ScheduledMonth(ext[j].months[i], r, n)
    {
      if j < |years| {
        assert ext[j] == years[j];
      }
    }
  }

  lemma PaysThroughoutSnoc(years: seq<YearBlock>, y: YearBlock, r: real, n: int, p: real, start: int)
    requires r >= 0.0 && PaysThroughout(years, p) && Paid(y.months, r, n, p, start)
    ensures PaysThroughout(years + [y], p)
  {
    var ext := years + [y];
    forall j, i | 0 <= j < |ext| && 0 <= i < |ext[j].months|
      ensures ext[j].months[i].payment == p
    {
      if j < |years| {
        assert ext[j] == years[j];
      }
    }
  }

  lemma YearSumsSnoc(years: seq<YearBlock>, y: YearBlock)
    ensures SumYearInterest(years + [y]) == SumYearInterest(years) + y.interest
    ensures SumYearPrincipal(years + [y]) == SumYearPrincipal(years) + y.principal
  {
    assert (years + [y])[..|years|] == years;
  }

  /** The block the twelve-month loop prints from the balance B in month m,
      with the payment re-computed there and the extra payment after it, is
      the block `YearOf` describes. */
  lemma YearOfBlock(B: real, m: int, r: real, n: int, yearlyExtra: real, pmt: real,
                    block: seq<MonthEntry>, closing: real, m': int, yi: real, yp: real, extra: real, y: YearBlock)
    requires r >= 0.0 && 1 <= m <= n && B > 0.0 && pmt == MonthlyPayment(B, r, (n - m + 1) as nat)
    requires BlockSoFar(block, closing, m', yi, yp, r, n, pmt, B, m)
    requires |block| <= 12 && (|block| == 12 || m' > n || closing <= 0.0)
    requires extra == (if closing > 0.0 && m' <= n then Min(yearlyExtra, closing) else 0.0)
    requires y == YearBlock(block, yi, yp + extra, extra, closing - extra)
    ensures YearOf(y, r, n, yearlyExtra, B, m)
  {
  }

  /** One pass of the outer loop: the next block of the ledger, printed
      from where the blocks so far leave the loan, leaves the loop's state
      where it leaves the loan. */
  lemma YearStep(years: seq<YearBlock>, B: real, m: int, ti: real, tp: real, P: real, r: real, n: int, yearlyExtra: real,
                 pmt: real, closing: real, m': int, y: YearBlock, left: real, ti': real, tp': real)
    requires r >= 0.0 && LedgerSoFar(years, B, m, ti, tp, P, r, n, yearlyExtra) && m <= n && B > 0.0
    requires YearOf(y, r, n, yearlyExtra, B, m) && Paid(y.months, r, n, pmt, m)
    requires closing == Closing(y.months, B) && m' == m + |y.months| && Due(r, n, pmt, closing, m')
    requires SumPrincipal(y.months) == B - closing && (r == 0.0 ==> y.interest == 0.0)
    requires left == y.remaining && ti' == ti + y.interest && tp' == tp + y.principal
    ensures LedgerSoFar(years + [y], left, m', ti', tp', P, r, n, yearlyExtra)
  {
    YearsSnoc(years, y, P, r, n, yearlyExtra);
    MonthsScheduledSnoc(years, y, r, n, pmt);
    YearSumsSnoc(years, y);
  }

  /** Without prepayments a pass of the outer loop keeps paying the payment
      computed for the whole loan. */
  lemma LevelStep(years: seq<YearBlock>, B: real, m: int, ti: real, tp: real, P: real, r: real, n: int,
                  pmt: real, closing: real, m': int, y: YearBlock, left: real, ti': real, tp': real)
    requires r >= 0.0 && n >= 1 && LevelSoFar(years, B, m, ti, tp, P, r, n) && m <= n
    requires pmt == MonthlyPayment(B, r, (n - m + 1) as nat) && Paid(y.months, r, n, pmt, m)
    requires Due(r, n, pmt, closing, m') && left == closing && m' == m + |y.months|
    requires YearOf(y, r, n, 0.0, B, m) && ti' == ti + y.interest && tp' == tp + y.principal
    ensures LevelSoFar(years + [y], left, m', ti', tp', P, r, n)
  {
    var p, k := MonthlyPayment(P, r, n as nat), |y.months|;
    assert pmt == p;
    PaysThroughoutSnoc(years, y, r, n, p, m);
    PaidTotal(y.months, r, n, p, m);
    LevelYear(y, r, n, B, m);
    RepeatAdd(p, (m - 1) as nat, k);
  }

  /** Without prepayment a year's sums are those of its months alone. */
  lemma LevelYear(y: YearBlock, r: real, n: int, B: real, m: int)
    requires r >= 0.0 && YearOf(y, r, n, 0.0, B, m)
    ensures y.extra == 0.0 && y.interest == SumInterest(y.months) && y.principal == SumPrincipal(y.months)
  {
  }

  /** A level ledger that has run to its end has cost `n` payments, so its
      interest is `n` payments less the amount borrowed. */
  lemma LevelDone(years: seq<YearBlock>, remaining: real, monthNum: int, ti: real, tp: real, P: real, r: real, n: int)
    requires r >= 0.0 && n >= 1 && P > 0.0
    requires LedgerSoFar(years, remaining, monthNum, ti, tp, P, r, n, 0.0) && LevelSoFar(years, remaining, monthNum, ti, tp, P, r, n)
    requires !(monthNum <= n && remaining > 0.0)
    ensures ti == Repeat(MonthlyPayment(P, r, n as nat), n as nat) - P
  {
    assert years != [];
    assert monthNum == n + 1 && remaining == 0.0 && tp == P;
  }

  /** When the outer loop stops, its blocks are the whole ledger of the
      loan; there are none exactly when the term or the loan is not
      positive; otherwise they repay the loan exactly, and without
      prepayments they run the full term. */
  lemma LedgerDone(years: seq<YearBlock>, remaining: real, monthNum: int, ti: real, tp: real,
                   P: real, r: real, n: int, yearlyExtra: real)
    requires r >= 0.0 && LedgerSoFar(years, remaining, monthNum, ti, tp, P, r, n, yearlyExtra)
    requires !(monthNum <= n && remaining > 0.0)
    ensures ScheduleOf(years, P, r, n, yearlyExtra)
    ensures years == [] <==> n < 1 || P <= 0.0
    ensures years != [] ==> Balance(years, P) == 0.0 && tp == P
    ensures yearlyExtra <= 0.0 && years != [] ==> NextMonth(years) == n + 1
  {
  }

  /** The last block of a ledger starts within the term. */
  lemma YearsWithinTerm(years: seq<YearBlock>, P: real, r: real, n: int, yearlyExtra: real)
    requires r >= 0.0 && YearsFrom(years, P, r, n, yearlyExtra)
    ensures years == [] || 12 * (|years| - 1) + 1 <= n
  {
    var j := |years| - 1;
    if j > 0 {
      assert YearOf(years[j], r, n, yearlyExtra, years[j - 1].remaining, 12 * j + 1);
    }
  }

  /** The months of a block do not run past the term. */
  lemma MonthsWithinTerm(y: YearBlock, r: real, n: int, yearlyExtra: real, B: real, m: int)
    requires r >= 0.0 && YearOf(y, r, n, yearlyExtra, B, m)
    ensures m + |y.months| <= n + 1
  {
    var k := |y.months|;
    if k > 1 {
      var pmt := MonthlyPayment(B, r, (n - m + 1) as nat);
      assert y.months[k - 1] == MonthStep(r, m + k - 1, pmt, y.months[k - 2].remaining);
    }
  }

  /** A loan of a single month is paid off in that month: the calculator
      charges one month's interest, the whole amount goes to principal and
      nothing is left for a prepayment. */
  lemma OneMonthSchedule(years: seq<YearBlock>, P: real, r: real, yearlyExtra: real)
    requires r >= 0.0 && P > 0.0 && ScheduleOf(years, P, r, 1, yearlyExtra)
    ensures |years| == 1 && |years[0].months| == 1
    ensures years[0].months[0].interest == P * r && years[0].months[0].principal == P
    ensures years[0].months[0].remaining == 0.0 && years[0].extra == 0.0
    ensures SumYearPrincipal(years) == P
  {
    OneMonthPayment(P, r);
    assert years != [];
    YearsWithinTerm(years, P, r, 1, yearlyExtra);
    var y := years[0];
    assert YearOf(y, r, 1, yearlyExtra, P, 1);
    MonthsWithinTerm(y, r, 1, yearlyExtra, P, 1);
    assert y.months != [];
    assert y.months[0] == MonthStep(r, 1, P * (1.0 + r), P);
    assert y.months[..0] == [] && years[..0] == [];
    assert SumPrincipal(y.months) == P && Closing(y.months, P) == 0.0;
    assert y.principal == P;
  }

  /** `generate_amortization_schedule(P, r, n, yearly_extra)`: the two totals
      it returns, and the blocks and months it prints. The last ensures
      reads as `n * p - P` by `RepeatTimes`: without prepayments the total
      interest is n level payments less the loan. */
  method GenerateSchedule(P: real, r: real, n: int, yearlyExtra: real)
    returns (totalInterest: real, totalPrincipal: real, years: seq<YearBlock>)
    requires r >= 0.0
    ensures ScheduleOf(years, P, r, n, yearlyExtra)
    ensures totalInterest == SumYearInterest(years) && totalPrincipal == SumYearPrincipal(years)
    ensures MonthsScheduled(years, r, n)
    ensures years == [] <==> n < 1 || P <= 0.0
    ensures years != [] ==> Balance(years, P) == 0.0 && totalPrincipal == P
    ensures r == 0.0 ==> totalInterest == 0.0
    ensures yearlyExtra <= 0.0 && years != [] ==> NextMonth(years) == n + 1
    ensures yearlyExtra == 0.0 && n >= 1 ==> PaysThroughout(years, MonthlyPayment(P, r, n as nat))
    ensures yearlyExtra == 0.0 && n >= 1 && P > 0.0 ==> totalInterest == Repeat(MonthlyPayment(P, r, n as nat), n as nat) - P
  {
    totalInterest, totalPrincipal := 0.0, 0.0;
    years := [];
    var remaining := P;
    var monthNum := 1;

    while monthNum <= n && remaining > 0.0
      invariant LedgerSoFar(years, remaining, monthNum, totalInterest, totalPrincipal, P, r, n, yearlyExtra)
      invariant n >= 1 && P > 0.0 && yearlyExtra == 0.0 ==>
        LevelSoFar(years, remaining, monthNum, totalInterest, totalPrincipal, P, r, n)
      decreases n - monthNum + 1
    {
      var monthlyPmt := MonthlyPayment(remaining, r, (n - monthNum + 1) as nat);
      ghost var opening, start, interest0, principal0 := remaining, monthNum, totalInterest, totalPrincipal;
      var block, yearInterest, yearPrincipal;
      block, remaining, monthNum, yearInterest, yearPrincipal, totalInterest, totalPrincipal :=
        PayYear(r, n, monthlyPmt, remaining, monthNum, totalInterest, totalPrincipal);
      ghost var closing, blockPrincipal := remaining, yearPrincipal;

      var extra := 0.0;
      if remaining > 0.0 && monthNum <= n {
        extra := Min(yearlyExtra, remaining);
        remaining := remaining - extra;
        totalPrincipal := totalPrincipal + extra;
        yearPrincipal := yearPrincipal + extra;
      }
      var year := YearBlock(block, yearInterest, yearPrincipal, extra, remaining);
      YearOfBlock(opening, start, r, n, yearlyExtra, monthlyPmt, block, closing, monthNum, yearInterest, blockPrincipal, extra, year);
      YearStep(years, opening, start, interest0, principal0, P, r, n, yearlyExtra, monthlyPmt, closing, monthNum, year,
               remaining, totalInterest, totalPrincipal);
      if n >= 1 && P > 0.0 && yearlyExtra == 0.0 {
        LevelStep(years, opening, start, interest0, principal0, P, r, n, monthlyPmt, closing, monthNum, year,
                  remaining, totalInterest, totalPrincipal);
      }
      years := years + [year];
    }
    LedgerDone(years, remaining, monthNum, totalInterest, totalPrincipal, P, r, n, yearlyExtra);
    if n >= 1 && P > 0.0 && yearlyExtra == 0.0 {
      LevelDone(years, remaining, monthNum, totalInterest, totalPrincipal, P, r, n);
    }
  }
}
