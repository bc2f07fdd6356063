/** The account ledger behind the transactions screen: installment quote and payment for credits,
    projection and deposits / withdrawals for savings accounts. */
module Ledger {
  import opened Common
  import opened Tables

  datatype LedgerError =
    | NotCredit              // "No es un crédito."
    | NoPendingInstallments  // "No hay cuotas pendientes." (quote)
    | CreditAlreadyPaid      // "Crédito ya pagado." (payment)
    | NotSavings             // "No es una cuenta de ahorros."
    | InvalidValue           // the amount typed is not a number
    | InsufficientFunds      // "Fondos insuficientes."

  /** One installment: principal, interest, their sum, and the installments still pending. */
  datatype Quote = Quote(principal: real, interest: real, total: real, pendingTerm: int)

  datatype PaymentReceipt = PaymentReceipt(txnId: int, paid: real, newBalance: real, newPendingTerm: int)

  datatype SavingsReceipt = SavingsReceipt(txnId: int, date: string, amount: real, newBalance: real)

  /** The type code of the product an account was contracted on, through the join of
      PRODUCTOSCONTRATADOS with PRODUCTOS; None when the account is unknown. */
  function ProductType(d: Db, id: int): (r: Option<int>)
    ensures r.Some? <==> id in d.accounts && d.accounts[id].productId in d.products
    ensures r.Some? ==> r.value == d.products[d.accounts[id].productId].kind
    ensures Consistent(d) ==> (r.Some? <==> id in d.accounts)
    ensures Consistent(d) && r.Some? ==> r.value == CREDIT || r.value == SAVINGS
  {
    if id in d.accounts && d.accounts[id].productId in d.products
    then Some(d.products[d.accounts[id].productId].kind)
    else None
  }

  /** The interest rate of the product behind an account. */
  function RateOf(d: Db, id: int): real
    requires ProductType(d, id).Some?
  {
    d.products[d.accounts[id].productId].rate
  }

  /** Declining-balance amortisation: the principal due spreads the balance evenly over the
      installments still pending, the interest due is one period's interest on the balance. */
  function Due(balance: real, pendingTerm: int, rate: real): (q: Quote)
    requires pendingTerm > 0
    ensures q.principal * (pendingTerm as real) == balance
    ensures q.interest * 100.0 == balance * rate
    ensures q.total == q.principal + q.interest
    ensures q.pendingTerm == pendingTerm
  {
    var principal := balance / (pendingTerm as real);
    var interest := balance * (rate / 100.0);
    Quote(principal, interest, principal + interest, pendingTerm)
  }

  /** An account a credit installment can be charged to. */
  predicate Payable(d: Db, id: int)
  {
    ProductType(d, id) == Some(CREDIT) && d.accounts[id].pendingTerm > 0
  }

  /** Quoting the current installment of a credit; a pure read. */
  function InstallmentQuote(d: Db, id: int): (r: Result<Quote, LedgerError>)
    ensures r.Ok? <==> Payable(d, id)
    ensures r == Err(NotCredit) <==> ProductType(d, id) != Some(CREDIT)
    ensures r == Err(NoPendingInstallments) <==>
      ProductType(d, id) == Some(CREDIT) && d.accounts[id].pendingTerm <= 0
    ensures r.Ok? ==>
      var a := d.accounts[id];
      && r.value.pendingTerm == a.pendingTerm
      && r.value.principal * (a.pendingTerm as real) == a.balance
      && r.value.interest * 100.0 == a.balance * RateOf(d, id)
      && r.value.total == r.value.principal + r.value.interest
  {
    if ProductType(d, id) != Some(CREDIT) then Err(NotCredit)
    else
      var a := d.accounts[id];
      if a.pendingTerm <= 0 then Err(NoPendingInstallments)
      else Ok(Due(a.balance, a.pendingTerm, RateOf(d, id)))
  }

  /** The account after one installment: the balance drops by the principal (never below zero),
      one installment less is pending, and the interest joins the interest paid so far. */
  function Installment(a: Account, rate: real): (r: Account)
    requires a.pendingTerm > 0
    ensures r == a.(balance := r.balance, pendingTerm := r.pendingTerm, interestPaid := r.interestPaid)
    ensures r.pendingTerm == a.pendingTerm - 1
    ensures r.balance >= 0.0
    ensures r.balance == MaxReal(0.0, a.balance - Due(a.balance, a.pendingTerm, rate).principal)
    ensures r.interestPaid == a.interestPaid + Due(a.balance, a.pendingTerm, rate).interest
    ensures a.pendingTerm == 1 ==> r.balance == 0.0
  {
    var q := Due(a.balance, a.pendingTerm, rate);
    a.(balance := MaxReal(0.0, a.balance - q.principal),
       pendingTerm := MaxInt(0, a.pendingTerm - 1),
       interestPaid := a.interestPaid + q.interest)
  }

  /** On a credit that follows its schedule every installment repays the same principal,
      capital / term, so the clamp at zero never bites and the schedule is kept. */
  lemma InstallmentKeepsSchedule(a: Account, rate: real)
    requires OnSchedule(a) && a.pendingTerm > 0
    ensures Due(a.balance, a.pendingTerm, rate).principal == a.initialCapital / (a.termMonths as real)
    ensures Installment(a, rate).balance == a.balance - a.initialCapital / (a.termMonths as real)
    ensures OnSchedule(Installment(a, rate))
  {
    var n := Installment(a, rate);
    ScheduleArithmetic(a.initialCapital, a.termMonths as real, a.pendingTerm as real, n.pendingTerm as real,
                       a.balance, Due(a.balance, a.pendingTerm, rate).principal);
  }

  /** The arithmetic of one installment on schedule: with b t = c p, the principal x = b / p is
      c / t, and b - x is the non-negative balance that keeps the schedule with p - 1 pending. */
  lemma ScheduleArithmetic(c: real, t: real, p: real, p1: real, b: real, x: real)
    requires c > 0.0 && t > 0.0 && 1.0 <= p <= t && p1 == p - 1.0
    requires b * t == c * p && x * p == b
    ensures x == c / t
    ensures b - x >= 0.0
    ensures (b - x) * t == c * p1
  {
    assert (x * t) * p == c * p by {
      calc {
        (x * t) * p;
        (x * p) * t;
        b * t;
      }
    }
    assert x * t == c;
    assert (b - x) * t == c * p1;
    assert c * p1 >= 0.0;
  }

  /** Paying the current installment of a credit: one transaction for the quoted total is appended
      and only the balance, pending term and interest paid of that account change. */
  function Payment(d: Db, id: int, date: string): (r: (Result<PaymentReceipt, LedgerError>, Db))
    ensures r.0.Ok? <==> Payable(d, id)
    ensures r.0 == Err(NotCredit) <==> ProductType(d, id) != Some(CREDIT)
    ensures r.0 == Err(CreditAlreadyPaid) <==>
      ProductType(d, id) == Some(CREDIT) && d.accounts[id].pendingTerm <= 0
    ensures r.0.Err? ==> r.1 == d
    ensures r.0.Ok? ==> id in r.1.accounts
    ensures r.0.Ok? ==>
      var q := InstallmentQuote(d, id).value;
      var a := d.accounts[id];
      var a' := r.1.accounts[id];
      && r.1.txns == d.txns + [Txn(|d.txns| + 1, id, date, q.total)]
      && r.1.accounts == d.accounts[id := a']
      && r.1.clients == d.clients && r.1.products == d.products
      && r.1.nextAccountId == d.nextAccountId
      && a' == a.(balance := a'.balance, pendingTerm := a'.pendingTerm, interestPaid := a'.interestPaid)
      && a'.balance == MaxReal(0.0, a.balance - q.principal)
      && a'.pendingTerm == a.pendingTerm - 1
      && a'.interestPaid == a.interestPaid + q.interest
      && r.0.value == PaymentReceipt(|d.txns| + 1, q.total, a'.balance, a'.pendingTerm)
  {
    if ProductType(d, id) != Some(CREDIT) then (Err(NotCredit), d)
    else if d.accounts[id].pendingTerm <= 0 then (Err(CreditAlreadyPaid), d)
    else
      var a := d.accounts[id];
      var q := Due(a.balance, a.pendingTerm, RateOf(d, id));
      var t := Txn(|d.txns| + 1, id, date, q.total);
      var a' := Installment(a, RateOf(d, id));
      var d' := d.(accounts := d.accounts[id := a'], txns := d.txns + [t]);
      (Ok(PaymentReceipt(t.id, q.total, a'.balance, a'.pendingTerm)), d')
  }

  /** A payment keeps the database consistent: a credit stays on its schedule. */
  lemma PaymentKeepsConsistent(d: Db, id: int, date: string)
    requires Consistent(d)
    ensures Consistent(Payment(d, id, date).1)
  {
    if Payable(d, id) {
      var a := d.accounts[id];
      assert AccountOk(d, id);
      InstallmentKeepsSchedule(a, RateOf(d, id));
      var d' := Payment(d, id, date).1;
      assert AccountOk(d', id);
      forall k | k in d'.accounts ensures AccountOk(d', k) {
        if k != id { assert AccountOk(d, k); }
      }
    }
  }

  /** The principal every installment of an on-schedule credit repays: capital / term. */
  function FixedPrincipal(a: Account): real
    requires a.termMonths > 0
  {
    a.initialCapital / (a.termMonths as real)
  }

  /** The account after n consecutive installments. */
  function Installments(a: Account, rate: real, n: nat): (r: Account)
    requires n <= a.pendingTerm
    decreases n
  {
    if n == 0 then a else Installments(Installment(a, rate), rate, n - 1)
  }

  /** The sum of the pending terms p, p - 1, ..., p - n + 1 seen by n consecutive installments. */
  function PendingSum(p: int, n: nat): int
    decreases n
  {
    if n == 0 then 0 else p + PendingSum(p - 1, n - 1)
  }

  lemma {:induction false} PendingSumClosedForm(p: int, n: nat)
    ensures 2 * PendingSum(p, n) == n * (2 * p - n + 1)
    decreases n
  {
    if n > 0 {
      PendingSumClosedForm(p - 1, n - 1);
    }
  }

  /** One installment on a credit that follows its schedule charges rate% of capital / term for
      every installment still pending. */
  lemma InstallmentInterest(a: Account, rate: real)
    requires OnSchedule(a) && a.pendingTerm > 0
    ensures Installment(a, rate).interestPaid
            == a.interestPaid + FixedPrincipal(a) * (rate / 100.0) * (a.pendingTerm as real)
  {
    var x, p, t := FixedPrincipal(a), a.pendingTerm as real, a.termMonths as real;
    assert a.balance == x * p by {
      assert a.balance * t == a.initialCapital * p;
      assert x * t == a.initialCapital;
      assert (a.balance - x * p) * t == 0.0;
    }
  }

  /** n installments (n at most the pending term) keep a credit on its schedule, take n off the
      pending term and touch no other field than balance, pending term and interest paid. */
  lemma {:induction false} InstallmentsKeepSchedule(a: Account, rate: real, n: nat)
    requires OnSchedule(a)
    requires n <= a.pendingTerm
    ensures OnSchedule(Installments(a, rate, n))
    ensures Installments(a, rate, n).pendingTerm == a.pendingTerm - n
    ensures Installments(a, rate, n)
            == a.(balance := Installments(a, rate, n).balance,
                  pendingTerm := Installments(a, rate, n).pendingTerm,
                  interestPaid := Installments(a, rate, n).interestPaid)
    decreases n
  {
    if n > 0 {
      InstallmentKeepsSchedule(a, rate);
      InstallmentsKeepSchedule(Installment(a, rate), rate, n - 1);
    }
  }

  /** Over n installments the interest charged is k = rate% of capital / term for every
      installment-month still pending when an installment was paid. */
  lemma InstallmentsInterest(a: Account, rate: real, n: nat, k: real)
    requires OnSchedule(a)
    requires n <= a.pendingTerm
    requires k == FixedPrincipal(a) * (rate / 100.0)
    ensures Installments(a, rate, n).interestPaid == a.interestPaid + k * (PendingSum(a.pendingTerm, n) as real)
  {
    InstallmentsInterestSum(a, a, rate, n, k, PendingSum(a.pendingTerm, n) as real, Installments(a, rate, n));
  }

  /** The hypotheses of InstallmentsInterest for an account a reached from a0 by installments, with
      the sum of pending terms named m and the account after the n installments named last.
      The fixed a0 and last are parameters so that every step of the induction meets the same
      hypotheses verbatim, which keeps each step's proof small. */
  predicate InterestFrame(a0: Account, a: Account, rate: real, n: nat, k: real, m: real, last: Account)
  {
    && OnSchedule(a)
    && n <= a.pendingTerm
    && a.initialCapital == a0.initialCapital && a.termMonths == a0.termMonths
    && k == FixedPrincipal(a0) * (rate / 100.0)
    && m == PendingSum(a.pendingTerm, n) as real
    && last == Installments(a, rate, n)
  }

  lemma {:induction false} InstallmentsInterestSum(a0: Account, a: Account, rate: real, n: nat, k: real, m: real,
                                                   last: Account)
    requires InterestFrame(a0, a, rate, n, k, m, last)
    ensures last.interestPaid == a.interestPaid + k * m
    decreases n
  {
    if n > 0 {
      var a1, m1 := InterestStep(a0, a, rate, n, k, m, last);
      InstallmentsInterestSum(a0, a1, rate, n - 1, k, m1, last);
      ScaledSum(a.interestPaid, a1.interestPaid, last.interestPaid, k, a.pendingTerm as real, m1, m);
    }
  }

  /** The first of n installments on a credit that follows its schedule: k times the pending term
      is charged, and the other n - 1 installments start from an account that meets the same
      hypotheses, with the pending terms still to come summing to m1. */
  lemma InterestStep(a0: Account, a: Account, rate: real, n: nat, k: real, m: real, last: Account)
    returns (a1: Account, m1: real)
    requires InterestFrame(a0, a, rate, n, k, m, last) && n > 0
    ensures InterestFrame(a0, a1, rate, n - 1, k, m1, last)
    ensures a1.interestPaid == a.interestPaid + k * (a.pendingTerm as real)
    ensures m == (a.pendingTerm as real) + m1
  {
    a1 := ScheduleStep(a, rate, k);
    m1 := PendingSum(a1.pendingTerm, n - 1) as real;
  }

  /** One installment on a credit that follows its schedule keeps it on schedule with the same
      capital and term and charges k times the pending term. */
  lemma ScheduleStep(a: Account, rate: real, k: real) returns (a1: Account)
    requires OnSchedule(a) && a.pendingTerm > 0
    requires k == FixedPrincipal(a) * (rate / 100.0)
    ensures a1 == Installment(a, rate)
    ensures OnSchedule(a1) && a1.pendingTerm == a.pendingTerm - 1
    ensures a1.initialCapital == a.initialCapital && a1.termMonths == a.termMonths
    ensures a1.interestPaid == a.interestPaid + k * (a.pendingTerm as real)
  {
    a1 := Installment(a, rate);
    InstallmentInterest(a, rate);
    InstallmentKeepsSchedule(a, rate);
  }

  /** Two steps that add k p and then k q add k (p + q). */
  lemma ScaledSum(x0: real, x1: real, x2: real, k: real, p: real, q: real, pq: real)
    requires x1 == x0 + k * p && x2 == x1 + k * q && pq == p + q
    ensures x2 == x0 + k * pq
  {
  }

  /** The database after n installment payments on one account, all on the same date. */
  function Payments(d: Db, id: int, date: string, n: nat): Db
    decreases n
  {
    if n == 0 then d else Payments(Payment(d, id, date).1, id, date, n - 1)
  }

  /** n payments on a credit (n at most its pending term) apply n installments to that account,
      append n transactions, keep the database consistent and leave every other account alone. */
  lemma {:induction false} PaymentsFollowSchedule(d: Db, id: int, date: string, n: nat)
    requires Consistent(d)
    requires ProductType(d, id) == Some(CREDIT)
    requires n <= d.accounts[id].pendingTerm
    ensures
      var d' := Payments(d, id, date, n);
      && Consistent(d')
      && ProductType(d', id) == Some(CREDIT)
      && RateOf(d', id) == RateOf(d, id)
      && d'.accounts[id] == Installments(d.accounts[id], RateOf(d, id), n)
      && |d'.txns| == |d.txns| + n
      && d'.txns[..|d.txns|] == d.txns
      && d'.clients == d.clients && d'.products == d.products
      && (forall j :: j in d.accounts && j != id ==> j in d'.accounts && d'.accounts[j] == d.accounts[j])
    decreases n
  {
    if n > 0 {
      PaymentKeepsConsistent(d, id, date);
      var d1 := Payment(d, id, date).1;
      PaymentsFollowSchedule(d1, id, date, n - 1);
      var d' := Payments(d1, id, date, n - 1);
      assert d'.txns[..|d.txns|] == d.txns by {
        assert d'.txns[..|d1.txns|] == d1.txns;
      }
    }
  }

  /** After as many payments as installments were pending a credit is closed: balance and pending
      term are zero, one transaction per installment was logged, and the next payment is refused
      without writes. */
  lemma CreditClosesAfterTerm(d: Db, id: int, date: string)
    requires Consistent(d)
    requires ProductType(d, id) == Some(CREDIT)
    ensures d.accounts[id].pendingTerm >= 0
    ensures
      var d' := Payments(d, id, date, d.accounts[id].pendingTerm);
      && id in d'.accounts
      && d'.accounts[id] == Installments(d.accounts[id], RateOf(d, id), d.accounts[id].pendingTerm)
      && d'.accounts[id].balance == 0.0
      && d'.accounts[id].pendingTerm == 0
      && |d'.txns| == |d.txns| + d.accounts[id].pendingTerm
      && Payment(d', id, date) == (Err(CreditAlreadyPaid), d')
  {
    assert AccountOk(d, id);
    var a := d.accounts[id];
    var rate := RateOf(d, id);
    var t: nat := a.pendingTerm;
    var d' := Payments(d, id, date, t);
    PaymentsFollowSchedule(d, id, date, t);
    assert d'.accounts[id] == Installments(a, rate, t);
    InstallmentsClose(a, rate);
  }

  /** Paying every pending installment of a credit on its schedule closes it. */
  lemma InstallmentsClose(a: Account, rate: real)
    requires OnSchedule(a)
    ensures a.pendingTerm >= 0
    ensures Installments(a, rate, a.pendingTerm).balance == 0.0
    ensures Installments(a, rate, a.pendingTerm).pendingTerm == 0
  {
    var a' := Installments(a, rate, a.pendingTerm);
    InstallmentsKeepSchedule(a, rate, a.pendingTerm);
    assert a'.balance * (a'.termMonths as real) == 0.0;
  }

  /** The pending terms t, t - 1, ..., 1 of a whole credit add up to t (t + 1) / 2. */
  lemma TriangleSum(t: nat)
    ensures 2.0 * (PendingSum(t, t) as real) == (t * (t + 1)) as real
  {
    PendingSumClosedForm(t, t);
  }

  /** The projected savings balance after one period's interest; a pure read. */
  function Projection(d: Db, id: int): (r: Result<real, LedgerError>)
    ensures r.Ok? <==> ProductType(d, id) == Some(SAVINGS)
    ensures r.Err? ==> r.error == NotSavings
    ensures r.Ok? ==> (r.value - d.accounts[id].balance) * 100.0 == d.accounts[id].balance * RateOf(d, id)
    ensures r.Ok? && Consistent(d) && RateOf(d, id) >= 0.0 ==> r.value >= d.accounts[id].balance
  {
    if ProductType(d, id) != Some(SAVINGS) then Err(NotSavings)
    else
      var a := d.accounts[id];
      Ok(a.balance * (1.0 + RateOf(d, id) / 100.0))
  }

  /** Posting a deposit (positive value) or withdrawal (negative value) on a savings account.
      A posting that would leave the balance negative is refused and writes nothing. */
  function SavingsPosting(d: Db, id: int, value: Option<real>, date: string): (r: (Result<SavingsReceipt, LedgerError>, Db))
    ensures r.0.Ok? <==>
      ProductType(d, id) == Some(SAVINGS) && value.Some? && d.accounts[id].balance + value.value >= 0.0
    ensures r.0 == Err(NotSavings) <==> ProductType(d, id) != Some(SAVINGS)
    ensures r.0 == Err(InvalidValue) <==> ProductType(d, id) == Some(SAVINGS) && value.None?
    ensures r.0 == Err(InsufficientFunds) <==>
      ProductType(d, id) == Some(SAVINGS) && value.Some? && d.accounts[id].balance + value.value < 0.0
    ensures r.0.Err? ==> r.1 == d
    ensures r.0.Ok? ==>
      var a := d.accounts[id];
      && value.Some?
      && r.1.accounts == d.accounts[id := a.(balance := a.balance + value.value)]
      && r.1.txns == d.txns + [Txn(|d.txns| + 1, id, date, value.value)]
      && r.1.clients == d.clients && r.1.products == d.products
      && r.1.nextAccountId == d.nextAccountId
      && r.0.value == SavingsReceipt(|d.txns| + 1, date, value.value, a.balance + value.value)
      && r.0.value.newBalance >= 0.0
    ensures Consistent(d) ==> Consistent(r.1)
  {
    if ProductType(d, id) != Some(SAVINGS) then (Err(NotSavings), d)
    else if value.None? then (Err(InvalidValue), d)
    else
      var a := d.accounts[id];
      var newBalance := a.balance + value.value;
      if newBalance < 0.0 then (Err(InsufficientFunds), d)
      else
        var t := Txn(|d.txns| + 1, id, date, value.value);
        var d' := d.(accounts := d.accounts[id := a.(balance := newBalance)], txns := d.txns + [t]);
        assert Consistent(d) ==> Consistent(d') by {
          if Consistent(d) {
            assert AccountOk(d', id) by { assert AccountOk(d, id); }
            assert forall k :: k in d'.accounts ==> AccountOk(d', k) by {
              forall k | k in d'.accounts ensures AccountOk(d', k) {
                if k != id { assert AccountOk(d, k); }
              }
            }
          }
        }
        (Ok(SavingsReceipt(t.id, date, value.value, newBalance)), d')
  }

  /** A deposit of v followed by a withdrawal of v (or the reverse) restores every account and
      leaves exactly two new entries in the log. */
  lemma DepositThenWithdrawRestores(d: Db, id: int, v: real, date1: string, date2: string)
    requires Consistent(d)
    requires SavingsPosting(d, id, Some(v), date1).0.Ok?
    ensures
      var d1 := SavingsPosting(d, id, Some(v), date1).1;
      var r2 := SavingsPosting(d1, id, Some(-v), date2);
      && r2.0.Ok?
      && r2.0.value.newBalance == d.accounts[id].balance
      && r2.1.accounts == d.accounts
      && r2.1.txns == d.txns + [Txn(|d.txns| + 1, id, date1, v), Txn(|d.txns| + 2, id, date2, -v)]
  {
    var d1 := SavingsPosting(d, id, Some(v), date1).1;
    assert AccountOk(d, id);
    assert ProductType(d1, id) == Some(SAVINGS);
    assert d1.accounts[id].balance + -v == d.accounts[id].balance;
    var d2 := SavingsPosting(d1, id, Some(-v), date2).1;
    assert d2.accounts == d.accounts by {
      assert d2.accounts[id] == d.accounts[id];
    }
  }

  /** Withdrawing the whole balance is accepted and leaves exactly zero; withdrawing more is refused. */
  lemma WithdrawWholeBalance(d: Db, id: int, extra: real, date: string)
    requires Consistent(d)
    requires ProductType(d, id) == Some(SAVINGS)
    requires extra > 0.0
    ensures
      var b := d.accounts[id].balance;
      var r := SavingsPosting(d, id, Some(-b), date);
      r.0.Ok? && r.1.accounts[id].balance == 0.0
    ensures SavingsPosting(d, id, Some(-d.accounts[id].balance - extra), date) == (Err(InsufficientFunds), d)
  {
    assert AccountOk(d, id);
  }

  /** The projection is the balance a deposit of one period's interest would produce, and quoting it
      writes nothing. */
  lemma ProjectionIsInterestDeposit(d: Db, id: int, date: string)
    requires Consistent(d)
    requires ProductType(d, id) == Some(SAVINGS)
    requires RateOf(d, id) >= -100.0
    ensures
      var b := d.accounts[id].balance;
      var r := SavingsPosting(d, id, Some(b * RateOf(d, id) / 100.0), date);
      && r.0.Ok?
      && r.0.value.newBalance == Projection(d, id).value
  {
    assert AccountOk(d, id);
    var b, rate := d.accounts[id].balance, RateOf(d, id);
    assert b + b * rate / 100.0 == b * (1.0 + rate / 100.0);
    assert b * (1.0 + rate / 100.0) >= 0.0 by {
      assert 1.0 + rate / 100.0 >= 0.0;
    }
  }

  /** pagar_cuota: the payment as the handler runs it, on the store in place. */
  method PayInstallment(s: Store, id: int, date: string) returns (r: Result<PaymentReceipt, LedgerError>)
    requires s.Valid()
    modifies s
    ensures s.Valid()
    ensures (r, s.Snapshot()) == Payment(old(s.Snapshot()), id, date)
    ensures r.Err? ==> unchanged(s)
  {
    PaymentKeepsConsistent(s.Snapshot(), id, date);
    var kind := ProductType(s.Snapshot(), id);
    if kind != Some(CREDIT) {
      return Err(NotCredit);
    }
    var a := s.accounts[id];
    if a.pendingTerm <= 0 {
      return Err(CreditAlreadyPaid);
    }
    var rate := s.products[a.productId].rate;
    var principal := a.balance / (a.pendingTerm as real);
    var interest := a.balance * (rate / 100.0);
    var total := principal + interest;
    var newBalance := MaxReal(0.0, a.balance - principal);
    var newTerm := MaxInt(0, a.pendingTerm - 1);
    var txnId := |s.txns| + 1;
    s.txns := s.txns + [Txn(txnId, id, date, total)];
    s.accounts := s.accounts[id := a.(balance := newBalance, pendingTerm := newTerm,
                                      interestPaid := a.interestPaid + interest)];
    r := Ok(PaymentReceipt(txnId, total, newBalance, newTerm));
    assert s.accounts[id] == Installment(a, rate);
  }

  /** transaccion_ahorros: the deposit or withdrawal as the handler runs it, on the store in place. */
  method PostSavings(s: Store, id: int, value: Option<real>, date: string) returns (r: Result<SavingsReceipt, LedgerError>)
    requires s.Valid()
    modifies s
    ensures s.Valid()
    ensures (r, s.Snapshot()) == SavingsPosting(old(s.Snapshot()), id, value, date)
    ensures r.Err? ==> unchanged(s)
  {
    if ProductType(s.Snapshot(), id) != Some(SAVINGS) {
      return Err(NotSavings);
    }
    if value.None? {
      return Err(InvalidValue);
    }
    var balance := s.accounts[id].balance;
    var newBalance := balance + value.value;
    if newBalance < 0.0 {
      return Err(InsufficientFunds);
    }
    var txnId := |s.txns| + 1;
    s.txns := s.txns + [Txn(txnId, id, date, value.value)];
    s.accounts := s.accounts[id := s.accounts[id].(balance := newBalance)];
    r := Ok(SavingsReceipt(txnId, date, value.value, newBalance));
  }
}
