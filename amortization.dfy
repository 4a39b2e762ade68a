/** The amortization arithmetic shared by `LoanService.calculateLoan` and the
    older `LoanCalculatorComponent.calculate`: input normalisation, the monthly
    installment (EMI), and the schedule both of them build row by row, given
    here as a specification that the two loops are proved to follow. */
module Amortization {
  import opened Money
  import opened JsValues

  /** One installment: the row type of the component's schedule, and the
      numeric part of the service's `AmortizationRow`. */
  datatype Entry = Entry(month: int, opening: real, emi: real, interest: real,
                         principal: real, closing: real)

  /** The loan terms after the `Number(x) || 0` coercion and tenure resolution. */
  datatype Terms = Terms(principal: real, annualRate: real, months: real)

  /** Tenure resolution: a truthy `tenureMonths` wins, else a truthy
      `tenureYears` counts twelve months a year, else there are no months. */
  function TenureMonths(tenureYears: Num, tenureMonths: Num): (n: real)
    ensures Truthy(tenureMonths) ==> n == tenureMonths.value
    ensures !Truthy(tenureMonths) && Truthy(tenureYears) ==> n == tenureYears.value * 12.0
    ensures n == 0.0 <==> !Truthy(tenureMonths) && !Truthy(tenureYears)
  {
    if Truthy(tenureMonths) then tenureMonths.value
    else if Truthy(tenureYears) then tenureYears.value * 12.0
    else 0.0
  }

  /** The single normalisation step both callers start with. */
  function Normalise(principal: Num, annualRate: Num, tenureYears: Num, tenureMonths: Num): Terms {
    Terms(Coerce(principal), Coerce(annualRate), TenureMonths(tenureYears, tenureMonths))
  }

  /** Inputs for which the engine returns the zeroed result. */
  predicate Degenerate(t: Terms) {
    t.principal <= 0.0 || t.months <= 0.0
  }

  /** `annualRate / 100 / 12` */
  function MonthlyRate(annualRate: real): real {
    annualRate / 100.0 / 12.0
  }

  /** The closed form divides by `(1 + r)^n - 1`, which in exact arithmetic is
      zero for r != 0 only when r = -2 and n is even. */
  predicate EmiDefined(r: real, n: nat) {
    r == 0.0 || Pow(1.0 + r, n) != 1.0
  }

  /** The inputs that this model covers: the degenerate ones, and those with a
      whole number of months and a defined closed form. */
  predicate Supported(t: Terms) {
    Degenerate(t)
    || (t.months.Floor as real == t.months && EmiDefined(MonthlyRate(t.annualRate), t.months.Floor))
  }

  /** The number of installments of a supported, non-degenerate loan. */
  function Count(t: Terms): (n: nat)
    requires Supported(t) && !Degenerate(t)
    ensures n >= 1 && n as real == t.months
  {
    t.months.Floor
  }

  /** The annuity formula `(P * r * factor) / (factor - 1)`. */
  function Annuity(p: real, r: real, factor: real): real
    requires factor != 1.0
  {
    p * r * factor / (factor - 1.0)
  }

  /** The unrounded installment: `P / n` at rate zero, else the annuity formula
      with `factor = (1 + r)^n`. */
  function ExactEmi(p: real, r: real, n: nat): real
    requires n >= 1 && EmiDefined(r, n)
  {
    if r == 0.0 then p / n as real else Annuity(p, r, Pow(1.0 + r, n))
  }

  /** The EMI, rounded to cents. */
  function Emi(p: real, r: real, n: nat): real
    requires n >= 1 && EmiDefined(r, n)
  {
    Round2(ExactEmi(p, r, n))
  }

  /** The total payable, `Math.round(emi * n * 100) / 100`. */
  function TotalPayable(emi: real, n: nat): real {
    Round2(emi * n as real)
  }

  /** It is within half a cent of n payments of the EMI. */
  lemma TotalPayableError(emi: real, n: nat)
    ensures -0.005 < TotalPayable(emi, n) - emi * n as real <= 0.005
  {
    var x := emi * n as real;
    Round2Error(x);
  }

  /** The balance left after k exact (unrounded) payments e at monthly rate r:
      an independent reference definition of what the annuity formula solves. */
  function Outstanding(p: real, r: real, e: real, k: nat): real {
    if k == 0 then p else Outstanding(p, r, e, k - 1) * (1.0 + r) - e
  }

  /** One step of the closed form, as a polynomial identity: if (o, f) solve
      it, so do (o (1 + r) - e, (1 + r) f). */
  lemma AnnuityStep(o: real, p: real, r: real, e: real, f: real, o2: real, f2: real)
    requires o * r == p * r * f - e * (f - 1.0)
    requires o2 == o * (1.0 + r) - e && f2 == (1.0 + r) * f
    ensures o2 * r == p * r * f2 - e * (f2 - 1.0)
  {
    calc {
      o2 * r;
      (o * (1.0 + r) - e) * r;
      (o * r) * (1.0 + r) - e * r;
      (p * r * f - e * (f - 1.0)) * (1.0 + r) - e * r;
      p * r * ((1.0 + r) * f) - e * ((1.0 + r) * f - 1.0);
      p * r * f2 - e * (f2 - 1.0);
    }
  }

  /** After k exact payments the balance is `P f^k - e (f^k - 1) / r`
      (multiplied through by r so that it also holds at r = 0). */
  lemma {:induction false} OutstandingClosedForm(p: real, r: real, e: real, k: nat)
    ensures Outstanding(p, r, e, k) * r == p * r * Pow(1.0 + r, k) - e * (Pow(1.0 + r, k) - 1.0)
  {
    if k == 0 {
      ClosedFormBase(p, r, e);
    } else {
      OutstandingClosedForm(p, r, e, k - 1);
      ClosedFormStep(p, r, e, k);
    }
  }

  /** The closed form before any payment. */
  lemma ClosedFormBase(p: real, r: real, e: real)
    ensures Outstanding(p, r, e, 0) * r == p * r * Pow(1.0 + r, 0) - e * (Pow(1.0 + r, 0) - 1.0)
  {
    assert Outstanding(p, r, e, 0) == p && Pow(1.0 + r, 0) == 1.0;
  }

  /** The closed form carries over from k - 1 payments to k. */
  lemma ClosedFormStep(p: real, r: real, e: real, k: nat)
    requires k > 0
    requires Outstanding(p, r, e, k - 1) * r
             == p * r * Pow(1.0 + r, k - 1) - e * (Pow(1.0 + r, k - 1) - 1.0)
    ensures Outstanding(p, r, e, k) * r == p * r * Pow(1.0 + r, k) - e * (Pow(1.0 + r, k) - 1.0)
  {
    AnnuityStep(Outstanding(p, r, e, k - 1), p, r, e, Pow(1.0 + r, k - 1),
                Outstanding(p, r, e, k), Pow(1.0 + r, k));
  }

  /** At rate zero, k payments of e simply subtract k * e. */
  lemma {:induction false} OutstandingInterestFree(p: real, e: real, k: nat)
    ensures Outstanding(p, 0.0, e, k) == p - k as real * e
  {
    if k > 0 {
      OutstandingInterestFree(p, e, k - 1);
    }
  }

  lemma AnnuityEquation(p: real, r: real, f: real)
    requires f != 1.0
    ensures Annuity(p, r, f) * (f - 1.0) == p * r * f
  {
  }

  /** The closed form is zero once e solves the annuity equation. */
  lemma ClosedFormZero(o: real, p: real, r: real, e: real, f: real)
    requires r != 0.0
    requires o * r == p * r * f - e * (f - 1.0)
    requires e * (f - 1.0) == p * r * f
    ensures o == 0.0
  {
  }

  /** The exact EMI pays the loan off in exactly n months, at any rate. */
  lemma ExactEmiAmortizes(p: real, r: real, n: nat)
    requires n >= 1 && EmiDefined(r, n)
    ensures Outstanding(p, r, ExactEmi(p, r, n), n) == 0.0
  {
    var e := ExactEmi(p, r, n);
    if r != 0.0 {
      var f := Pow(1.0 + r, n);
      assert e * (f - 1.0) == p * r * f by {
        AnnuityEquation(p, r, f);
      }
      AnnuitySolves(p, r, n, e);
    } else {
      assert e == p / n as real;
      OutstandingInterestFree(p, e, n);
    }
  }

  /** Any payment that solves the annuity equation amortizes the loan. */
  lemma AnnuitySolves(p: real, r: real, n: nat, e: real)
    requires r != 0.0 && e * (Pow(1.0 + r, n) - 1.0) == p * r * Pow(1.0 + r, n)
    ensures Outstanding(p, r, e, n) == 0.0
  {
    OutstandingClosedForm(p, r, e, n);
    ClosedFormZero(Outstanding(p, r, e, n), p, r, e, Pow(1.0 + r, n));
  }

  /** One iteration of the schedule loop: interest on the balance, the
      principal part of the EMI (on the last installment, the whole remaining
      balance), and the closing balance clamped at zero; every figure rounded
      to cents. */
  function Installment(i: int, n: int, balance: real, emi: real, r: real): Entry {
    var interest := Round2(balance * r);
    var principal := if i == n then Round2(balance) else Round2(emi - interest);
    var closing := Max0(Round2(balance - principal));
    Entry(i, Round2(balance), emi, interest, principal, closing)
  }

  /** Installments i..n, starting from the given balance; each row's closing
      balance is the next row's starting balance. */
  function Entries(i: nat, n: nat, balance: real, emi: real, r: real): seq<Entry>
    decreases n + 1 - i
  {
    if i > n then []
    else
      var e := Installment(i, n, balance, emi, r);
      [e] + Entries(i + 1, n, e.closing, emi, r)
  }

  /** The first row of the rows from installment i on, and the rest. */
  lemma EntriesCons(i: nat, n: nat, balance: real, emi: real, r: real)
    requires i <= n
    ensures var e := Installment(i, n, balance, emi, r);
            Entries(i, n, balance, emi, r) == [e] + Entries(i + 1, n, e.closing, emi, r)
  {
  }

  /** Σ interest, accumulated front to back as the loops do. */
  function SumInterest(s: seq<Entry>): real {
    if s == [] then 0.0 else SumInterest(s[..|s| - 1]) + s[|s| - 1].interest
  }

  lemma SumInterestSnoc(es: seq<Entry>, e: Entry)
    ensures SumInterest(es + [e]) == SumInterest(es) + e.interest
  {
    assert (es + [e])[..|es|] == es;
  }

  /** One iteration of a schedule loop, on the specification side: with the
      rows before installment i done, installment i moves from the rows still
      to come to the rows done, and its interest joins the running total. */
  lemma EntriesStep(done: seq<Entry>, i: nat, n: nat, balance: real, emi: real, r: real, p: real)
    requires 1 <= i <= n
    requires done + Entries(i, n, balance, emi, r) == Entries(1, n, p, emi, r)
    ensures var e := Installment(i, n, balance, emi, r);
            && (done + [e]) + Entries(i + 1, n, e.closing, emi, r) == Entries(1, n, p, emi, r)
            && SumInterest(done + [e]) == SumInterest(done) + e.interest
  {
    var e := Installment(i, n, balance, emi, r);
    EntriesCons(i, n, balance, emi, r);
    assert done + ([e] + Entries(i + 1, n, e.closing, emi, r))
        == (done + [e]) + Entries(i + 1, n, e.closing, emi, r);
    SumInterestSnoc(done, e);
  }

  /** Σ principal components. */
  function SumPrincipal(s: seq<Entry>): real {
    if s == [] then 0.0 else s[0].principal + SumPrincipal(s[1..])
  }

  /** What every schedule the engine emits satisfies: months numbered 1..n,
      the same EMI on every row, closings never negative, each opening equal
      to the previous closing, and a final closing of zero. */
  predicate WellFormed(s: seq<Entry>, emi: real) {
    && (forall k :: 0 <= k < |s| ==> s[k].month == k + 1 && s[k].emi == emi && s[k].closing >= 0.0)
    && (forall k :: 0 <= k < |s| - 1 ==> s[k + 1].opening == s[k].closing)
    && (|s| > 0 ==> s[|s| - 1].closing == 0.0)
  }

  lemma InstallmentCents(i: int, n: int, balance: real, emi: real, r: real)
    ensures var e := Installment(i, n, balance, emi, r);
            IsCents(e.opening) && IsCents(e.interest) && IsCents(e.principal)
            && IsCents(e.closing) && e.closing >= 0.0
            && Round2(e.closing) == e.closing
  {
    var e := Installment(i, n, balance, emi, r);
    Round2IsCents(balance);
    Round2IsCents(balance * r);
    Round2IsCents(emi - e.interest);
    Round2IsCents(balance - e.principal);
    Max0Cents(Round2(balance - e.principal));
    Round2OfCents(e.closing);
  }

  /** The shape of the rows from installment i on: their number, their month
      numbers, the EMI they carry, their chaining, and a final closing of 0. */
  lemma {:induction false} EntriesShape(i: nat, n: nat, balance: real, emi: real, r: real)
    requires i <= n + 1
    ensures var s := Entries(i, n, balance, emi, r);
            && |s| == n + 1 - i
            && (forall k :: 0 <= k < |s| ==>
                  s[k].month == i + k && s[k].emi == emi && s[k].closing >= 0.0)
            && (forall k :: 0 <= k < |s| - 1 ==> s[k + 1].opening == s[k].closing)
            && (|s| > 0 ==> s[0].opening == Round2(balance) && s[|s| - 1].closing == 0.0)
    decreases n + 1 - i
  {
    if i <= n {
      var e := Installment(i, n, balance, emi, r);
      var rest := Entries(i + 1, n, e.closing, emi, r);
      var s := Entries(i, n, balance, emi, r);
      assert s == [e] + rest;
      InstallmentCents(i, n, balance, emi, r);
      EntriesShape(i + 1, n, e.closing, emi, r);
      if i == n {
        Round2Residue(balance);
      }
      forall k | 0 <= k < |s| - 1
        ensures s[k + 1].opening == s[k].closing
      {
        if k > 0 {
          assert s[k] == rest[k - 1] && s[k + 1] == rest[k];
        }
      }
    }
  }

  /** The schedule of an n-month loan is well formed and has n rows. */
  lemma EntriesWellFormed(n: nat, p: real, emi: real, r: real)
    ensures |Entries(1, n, p, emi, r)| == n
    ensures WellFormed(Entries(1, n, p, emi, r), emi)
    ensures n >= 1 ==> Entries(1, n, p, emi, r)[0].opening == Round2(p)
  {
    EntriesShape(1, n, p, emi, r);
  }

  /** Every row's closing is its opening less its principal part, clamped at 0. */
  predicate ExactClosings(s: seq<Entry>) {
    forall k :: 0 <= k < |s| ==> s[k].closing == Max0(s[k].opening - s[k].principal)
  }

  /** When the starting balance is a whole number of cents, every row's closing
      is exactly its opening less its principal part, clamped at zero. */
  lemma {:induction false} EntriesExactClosing(i: nat, n: nat, balance: real, emi: real, r: real)
    requires IsCents(balance)
    ensures ExactClosings(Entries(i, n, balance, emi, r))
    decreases n + 1 - i
  {
    if i <= n {
      var e := Installment(i, n, balance, emi, r);
      var rest := Entries(i + 1, n, e.closing, emi, r);
      var s := Entries(i, n, balance, emi, r);
      assert s == [e] + rest;
      InstallmentCents(i, n, balance, emi, r);
      Round2OfCents(balance);
      CentsSub(balance, e.principal);
      Round2OfCents(balance - e.principal);
      assert e.opening == balance;
      assert e.closing == Max0(e.opening - e.principal);
      EntriesExactClosing(i + 1, n, e.closing, emi, r);
      forall k | 0 <= k < |s|
        ensures s[k].closing == Max0(s[k].opening - s[k].principal)
      {
        if k > 0 {
          assert s[k] == rest[k - 1];
          assert rest[k - 1].closing == Max0(rest[k - 1].opening - rest[k - 1].principal);
        } else {
          assert s[k] == e;
        }
      }
    }
  }

  /** Rows i.. carry no interest, and all but the n-th repay exactly emi. */
  predicate InterestFreeRows(s: seq<Entry>, i: int, n: int, emi: real) {
    forall k :: 0 <= k < |s| ==> s[k].interest == 0.0 && (i + k < n ==> s[k].principal == emi)
  }

  /** At rate zero no row carries interest, and every row but the last repays
      exactly the (cent-valued) EMI. */
  lemma {:induction false} EntriesInterestFree(i: nat, n: nat, balance: real, emi: real)
    requires IsCents(emi)
    ensures InterestFreeRows(Entries(i, n, balance, emi, 0.0), i, n, emi)
    decreases n + 1 - i
  {
    if i <= n {
      var e := Installment(i, n, balance, emi, 0.0);
      var rest := Entries(i + 1, n, e.closing, emi, 0.0);
      var s := Entries(i, n, balance, emi, 0.0);
      assert s == [e] + rest;
      assert balance * 0.0 == 0.0;
      assert e.interest == Round2(0.0) == 0.0;
      Round2OfCents(emi);
      assert i < n ==> e.principal == Round2(emi - 0.0) == emi;
      EntriesInterestFree(i + 1, n, e.closing, emi);
      forall k | 0 <= k < |s|
        ensures s[k].interest == 0.0 && (i + k < n ==> s[k].principal == emi)
      {
        if k > 0 { assert s[k] == rest[k - 1]; }
      }
    }
  }

  /** No row repays more principal than it opened with. */
  predicate NoneClamped(s: seq<Entry>) {
    forall k :: 0 <= k < |s| ==> s[k].principal <= s[k].opening
  }

  /** With a cent-valued starting balance and no row clamped at zero, the
      principal parts add up to the starting balance exactly. */
  lemma {:induction false} EntriesRepayPrincipal(i: nat, n: nat, balance: real, emi: real, r: real)
    requires IsCents(balance) && i <= n
    requires NoneClamped(Entries(i, n, balance, emi, r))
    ensures SumPrincipal(Entries(i, n, balance, emi, r)) == balance
    decreases n + 1 - i
  {
    var e := Installment(i, n, balance, emi, r);
    var rest := Entries(i + 1, n, e.closing, emi, r);
    var s := Entries(i, n, balance, emi, r);
    assert s == [e] + rest && s[1..] == rest;
    InstallmentCents(i, n, balance, emi, r);
    Round2OfCents(balance);
    CentsSub(balance, e.principal);
    Round2OfCents(balance - e.principal);
    if i == n {
      assert rest == [];
    } else {
      forall k | 0 <= k < |rest|
        ensures rest[k].principal <= rest[k].opening
      {
        assert rest[k] == s[k + 1];
      }
      EntriesRepayPrincipal(i + 1, n, e.closing, emi, r);
    }
  }

  /** With an EMI of one cent at rate zero, every row before the last repays
      a cent whatever is left, so from m cents over installments i..n the
      principal column adds up to max(n - i, m) cents: more than the balance
      whenever the rows before the last outnumber the cents. */
  lemma {:induction false} OneCentPrincipalColumn(i: nat, n: nat, m: nat)
    requires i <= n
    ensures SumPrincipal(Entries(i, n, m as real * 0.01, 0.01, 0.0))
            == (if n - i > m then n - i else m) as real * 0.01
    decreases n - i
  {
    var e := Installment(i, n, m as real * 0.01, 0.01, 0.0);
    var m' := if m == 0 then 0 else m - 1;
    var rest := Entries(i + 1, n, e.closing, 0.01, 0.0);
    var s := Entries(i, n, m as real * 0.01, 0.01, 0.0);
    assert s == [e] + rest && s[1..] == rest;
    OneCentInstallment(i, n, m);
    if i == n {
      assert rest == [];
    } else {
      OneCentPrincipalColumn(i + 1, n, m');
      var k := if n - i - 1 > m' then n - i - 1 else m';
      assert (if n - i > m then n - i else m) == k + 1;
      assert SumPrincipal(s) == 0.01 + k as real * 0.01;
    }
  }

  /** One row of that schedule: the last repays the m cents left, any other
      one cent, leaving m - 1 cents (or none). */
  lemma OneCentInstallment(i: nat, n: nat, m: nat)
    requires i <= n
    ensures var e := Installment(i, n, m as real * 0.01, 0.01, 0.0);
            && e.principal == (if i == n then m as real * 0.01 else 0.01)
            && (i < n ==> e.closing == (if m == 0 then 0 else m - 1) as real * 0.01)
  {
    var b := m as real * 0.01;
    var e := Installment(i, n, b, 0.01, 0.0);
    assert e.interest == 0.0 by {
      assert b * 0.0 == 0.0 * 0.01;
      Round2WholeCents(0);
    }
    if i == n {
      Round2WholeCents(m);
    } else {
      assert e.principal == 0.01 by {
        assert 0.01 - 0.0 == 1 as real * 0.01;
        Round2WholeCents(1);
      }
      assert b - 0.01 == (m - 1) as real * 0.01;
      Round2WholeCents(m - 1);
    }
  }

  lemma Round2WholeCents(j: int)
    ensures Round2(j as real * 0.01) == j as real * 0.01
  {
    assert j as real * 0.01 * 100.0 + 0.5 == j as real + 0.5;
    assert (j as real + 0.5).Floor == j;
  }

  /** The overshoot breaks the one-cent bound: 0.05 over 10 months at rate
      zero has EMI 0.01, and the principal column adds up to 0.09. */
  lemma PrincipalColumnOverstates()
    ensures Emi(0.05, 0.0, 10) == 0.01
    ensures SumPrincipal(Entries(1, 10, 0.05, 0.01, 0.0)) == 0.09
  {
    assert Round2(0.05 / 10.0) == 0.01 by {
      assert 0.05 / 10.0 * 100.0 + 0.5 == 1.0;
    }
    assert SumPrincipal(Entries(1, 10, 0.05, 0.01, 0.0)) == 0.09 by {
      OneCentPrincipalColumn(1, 10, 5);
    }
  }

  /** An installment whose principal never exceeds what is owed: the row
      before the last repays at most the rounded balance. */
  function CappedInstallment(i: int, n: int, balance: real, emi: real, r: real): Entry {
    var interest := Round2(balance * r);
    var due := Round2(emi - interest);
    var principal := if i == n || due > Round2(balance) then Round2(balance) else due;
    var closing := Max0(Round2(balance - principal));
    Entry(i, Round2(balance), emi, interest, principal, closing)
  }

  /** The schedule built from capped installments. */
  function CappedEntries(i: nat, n: nat, balance: real, emi: real, r: real): seq<Entry>
    decreases n + 1 - i
  {
    if i > n then []
    else
      var e := CappedInstallment(i, n, balance, emi, r);
      [e] + CappedEntries(i + 1, n, e.closing, emi, r)
  }

  /** With the cap, the principal column adds up to the balance exactly, from
      any non-negative balance in whole cents and for every EMI and rate. */
  lemma {:induction false} CappedEntriesRepayPrincipal(i: nat, n: nat, balance: real, emi: real, r: real)
    requires IsCents(balance) && balance >= 0.0 && i <= n
    ensures SumPrincipal(CappedEntries(i, n, balance, emi, r)) == balance
    decreases n + 1 - i
  {
    var e := CappedInstallment(i, n, balance, emi, r);
    var rest := CappedEntries(i + 1, n, e.closing, emi, r);
    var s := CappedEntries(i, n, balance, emi, r);
    assert s == [e] + rest && s[1..] == rest;
    Round2OfCents(balance);
    Round2IsCents(emi - Round2(balance * r));
    assert IsCents(e.principal) && e.principal <= balance;
    CentsSub(balance, e.principal);
    Round2OfCents(balance - e.principal);
    assert e.closing == balance - e.principal;
    if i == n {
      assert rest == [];
    } else {
      CappedEntriesRepayPrincipal(i + 1, n, e.closing, emi, r);
    }
  }
}
