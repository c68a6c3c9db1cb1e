/**
 The payment history of the demo seed (backend/scripts/seed_demo.py): nested loops add one
 completed payment per month of every sponsorship and keep running totals on sponsorships
 and donors. Amounts are in cents; completion times are days (always at noon).
 */
module Ledger {
  import opened Options
  import opened Calendar
  import opened Decimals
  import opened Arrears
  import opened SeedCalendar

  datatype Currency = KWD | USD
  datatype Standing = Active | Paused | Late

  /** The sponsorship columns the loop only reads. */
  datatype Terms = Terms(
    id: nat, donorId: nat, startDate: Day, monthlyAmount: int, currency: Currency,
    standing: Standing, monthsOverdue: int)

  /** A completed payment carries its day, its completion day, its value in KWD and its receipt number. */
  datatype Outcome = Completed(payDate: Day, completedAt: Day, inDefault: int, receipt: nat) | Pending | Rejected

  /** One payment row; codes and receipts are the numbers their strings are formatted from. */
  datatype Payment = Payment(code: nat, donorId: nat, sponsorshipId: nat, amount: int, outcome: Outcome)

  /** (amount * Decimal("0.307")).quantize(Decimal("0.01"), ROUND_HALF_UP), or the amount itself in KWD. */
  function ToDefault(amount: int, currency: Currency): int {
    if currency.USD? then HalfUp(amount * 307, 1000) else amount
  }

  /** completed_at: the payment day clamped at 28. */
  function CompletionDay(d: Day): Day {
    Date(d.year, d.month, Min(d.day, 28))
  }

  function MonthlyPayment(t: Terms, payDate: Day, code: nat, receipt: nat): Payment {
    Payment(code, t.donorId, t.id, t.monthlyAmount,
            Completed(payDate, CompletionDay(payDate), ToDefault(t.monthlyAmount, t.currency), receipt))
  }

  // ── Totals over rows ─────────────────────────────────────────────────

  predicate PaidFor(p: Payment, sponsorship: nat) {
    p.outcome.Completed? && p.sponsorshipId == sponsorship
  }

  predicate GivenBy(p: Payment, donor: nat) {
    p.outcome.Completed? && p.donorId == donor
  }

  function PaidTotal(ps: seq<Payment>, id: nat): int {
    if ps == [] then 0
    else PaidTotal(ps[..|ps| - 1], id) + if PaidFor(ps[|ps| - 1], id) then ps[|ps| - 1].amount else 0
  }

  function PaidCount(ps: seq<Payment>, id: nat): nat {
    if ps == [] then 0
    else PaidCount(ps[..|ps| - 1], id) + if PaidFor(ps[|ps| - 1], id) then 1 else 0
  }

  /** The amounts of a sponsorship's completed rows as converted, row by row. */
  function ConvertedTotal(ps: seq<Payment>, id: nat): int {
    if ps == [] then 0
    else ConvertedTotal(ps[..|ps| - 1], id) + if PaidFor(ps[|ps| - 1], id) then ps[|ps| - 1].outcome.inDefault else 0
  }

  function DonatedTotal(ps: seq<Payment>, donor: nat): int {
    if ps == [] then 0
    else DonatedTotal(ps[..|ps| - 1], donor)
         + if GivenBy(ps[|ps| - 1], donor) then ps[|ps| - 1].outcome.inDefault else 0
  }

  function EarlierOf(a: Option<Day>, b: Day): Day {
    if a.None? then b else Earlier(a.value, b)
  }

  function LaterOf(a: Option<Day>, b: Day): Day {
    if a.None? then b else Later(a.value, b)
  }

  /** The latest payment day of a sponsorship's completed rows. */
  function LastPaid(ps: seq<Payment>, id: nat): Option<Day> {
    if ps == [] then None
    else
      var p, before := ps[|ps| - 1], LastPaid(ps[..|ps| - 1], id);
      if PaidFor(p, id) then Some(LaterOf(before, p.outcome.payDate)) else before
  }

  /** The earliest and the latest completion of a donor's rows. */
  function FirstGift(ps: seq<Payment>, donor: nat): Option<Day> {
    if ps == [] then None
    else
      var p, before := ps[|ps| - 1], FirstGift(ps[..|ps| - 1], donor);
      if GivenBy(p, donor) then Some(EarlierOf(before, p.outcome.completedAt)) else before
  }

  function LastGift(ps: seq<Payment>, donor: nat): Option<Day> {
    if ps == [] then None
    else
      var p, before := ps[|ps| - 1], LastGift(ps[..|ps| - 1], donor);
      if GivenBy(p, donor) then Some(LaterOf(before, p.outcome.completedAt)) else before
  }

  function CompletedCount(ps: seq<Payment>): nat {
    if ps == [] then 0
    else CompletedCount(ps[..|ps| - 1]) + if ps[|ps| - 1].outcome.Completed? then 1 else 0
  }

  /** The code of a row counts the rows up to it, its receipt the completed ones. */
  predicate NumberedAt(ps: seq<Payment>, i: nat)
    requires i < |ps|
  {
    ps[i].code == i + 1
    && (ps[i].outcome.Completed? ==> ps[i].outcome.receipt == CompletedCount(ps[..i]) + 1)
  }

  predicate Numbered(ps: seq<Payment>) {
    forall i: nat :: i < |ps| ==> NumberedAt(ps, i)
  }

  lemma {:induction false} TotalsAppend(ps: seq<Payment>, p: Payment, id: nat)
    ensures PaidTotal(ps + [p], id) == PaidTotal(ps, id) + if PaidFor(p, id) then p.amount else 0
    ensures PaidCount(ps + [p], id) == PaidCount(ps, id) + if PaidFor(p, id) then 1 else 0
    ensures LastPaid(ps + [p], id)
            == if PaidFor(p, id) then Some(LaterOf(LastPaid(ps, id), p.outcome.payDate)) else LastPaid(ps, id)
  {
    assert (ps + [p])[..|ps|] == ps;
  }

  lemma {:induction false} GiftsAppend(ps: seq<Payment>, p: Payment, donor: nat)
    ensures DonatedTotal(ps + [p], donor)
            == DonatedTotal(ps, donor) + if GivenBy(p, donor) then p.outcome.inDefault else 0
    ensures FirstGift(ps + [p], donor)
            == if GivenBy(p, donor) then Some(EarlierOf(FirstGift(ps, donor), p.outcome.completedAt))
               else FirstGift(ps, donor)
    ensures LastGift(ps + [p], donor)
            == if GivenBy(p, donor) then Some(LaterOf(LastGift(ps, donor), p.outcome.completedAt))
               else LastGift(ps, donor)
  {
    assert (ps + [p])[..|ps|] == ps;
  }

  lemma {:induction false} NumberedAppend(ps: seq<Payment>, p: Payment)
    requires Numbered(ps) && p.code == |ps| + 1
    requires p.outcome.Completed? ==> p.outcome.receipt == CompletedCount(ps) + 1
    ensures Numbered(ps + [p])
    ensures CompletedCount(ps + [p]) == CompletedCount(ps) + if p.outcome.Completed? then 1 else 0
  {
    var all := ps + [p];
    assert all[..|ps|] == ps;
    forall i: nat | i < |all|
      ensures NumberedAt(all, i)
    {
      if i < |ps| {
        assert NumberedAt(ps, i) && all[..i] == ps[..i];
      }
    }
  }

  // ── The schedule of payments ─────────────────────────────────────────

  /** How many monthly payments the inner loop makes before today stops it. */
  function PaymentMonths(start: Day, today: Day): nat {
    var n := MonthsBetween(start, today);
    var final := AddMonths(start, n);
    if final.Some? && AtMost(final.value, today) then n + 1 else n
  }

  /** The m-th payment day exists and is not after today exactly for the first PaymentMonths months. */
  lemma {:induction false} PaymentDays(start: Day, today: Day, m: nat)
    requires m <= MonthsBetween(start, today)
    ensures AddMonths(start, m).Some?
    ensures AtMost(AddMonths(start, m).value, today) <==> m < PaymentMonths(start, today)
  {
    var n := MonthsBetween(start, today);
    AddMonthsIndex(start, m);
    AddMonthsIndex(start, n);
    OrderByMonthIndex(AddMonths(start, m).value, today);
  }

  /** `ps` is `base` followed by one completed payment of a sponsorship for each of `days`. */
  predicate Posted(ps: seq<Payment>, base: seq<Payment>, t: Terms, days: seq<Day>, receipts: nat) {
    && |ps| == |base| + |days| && ps[..|base|] == base
    && forall m :: 0 <= m < |days| ==>
         ps[|base| + m] == MonthlyPayment(t, days[m], |base| + m + 1, receipts + m + 1)
  }

  lemma {:induction false} PostedStep(ps: seq<Payment>, base: seq<Payment>, t: Terms, days: seq<Day>,
                                      receipts: nat, d: Day)
    requires Posted(ps, base, t, days, receipts)
    ensures Posted(ps + [MonthlyPayment(t, d, |ps| + 1, receipts + |days| + 1)], base, t, days + [d], receipts)
  {
    var all := ps + [MonthlyPayment(t, d, |ps| + 1, receipts + |days| + 1)];
    assert all[..|base|] == ps[..|base|];
  }

  /** The first payment days of a schedule: one a month from the start. */
  predicate Monthly(start: Day, days: seq<Day>) {
    forall m :: 0 <= m < |days| ==> AddMonths(start, m) == Some(days[m])
  }

  function LastOf(days: seq<Day>): Option<Day> {
    if days == [] then None else Some(days[|days| - 1])
  }

  /** Running values of the inner loop against the rows so far. */
  predicate Running(ps: seq<Payment>, id: nat, total: int, n: nat, last: Option<Day>) {
    total == PaidTotal(ps, id) && n == PaidCount(ps, id) && last == LastPaid(ps, id)
  }

  lemma {:induction false} RunningStep(ps: seq<Payment>, p: Payment, id: nat, total: int, n: nat, last: Option<Day>)
    requires Running(ps, id, total, n, last) && PaidFor(p, id)
    requires last.Some? ==> Before(last.value, p.outcome.payDate)
    ensures Running(ps + [p], id, total + p.amount, n + 1, Some(p.outcome.payDate))
  {
    TotalsAppend(ps, p, id);
  }

  /** The rows and running values of one sponsorship's inner loop, on top of the rows `base`. */
  predicate Rows(ps: seq<Payment>, base: seq<Payment>, t: Terms, days: seq<Day>, total: int) {
    && Numbered(ps) && CompletedCount(ps) == CompletedCount(base) + |days|
    && Posted(ps, base, t, days, CompletedCount(base))
    && Running(ps, t.id, total, |days|, LastOf(days))
  }

  lemma {:induction false} RowsStep(ps: seq<Payment>, base: seq<Payment>, t: Terms, days: seq<Day>, total: int, d: Day)
    requires Rows(ps, base, t, days, total)
    requires LastOf(days).Some? ==> Before(LastOf(days).value, d)
    ensures var p := MonthlyPayment(t, d, |ps| + 1, CompletedCount(ps) + 1);
            Rows(ps + [p], base, t, days + [d], total + t.monthlyAmount)
  {
    var p := MonthlyPayment(t, d, |ps| + 1, CompletedCount(ps) + 1);
    NumberedAppend(ps, p);
    PostedStep(ps, base, t, days, CompletedCount(base), d);
    RunningStep(ps, p, t.id, total, |days|, LastOf(days));
    assert LastOf(days + [d]) == Some(d);
  }

  lemma {:induction false} NoRowsYet(ps: seq<Payment>, t: Terms)
    requires Numbered(ps) && NoneFor(ps, t.id)
    ensures Rows(ps, ps, t, [], 0)
  {
    NoRowsNoTotals(ps, t.id);
  }

  lemma {:induction false} DaysAscend(start: Day, days: seq<Day>, next: Day)
    requires Monthly(start, days) && AddMonths(start, |days|) == Some(next)
    ensures LastOf(days).Some? ==> Before(LastOf(days).value, next)
    ensures Monthly(start, days + [next])
  {
    if days != [] {
      AddMonthsIncreasing(start, |days| - 1, |days|);
    }
  }

  lemma {:induction false} OneMore(n: int, amount: int)
    ensures (n + 1) * amount == n * amount + amount
  {
  }

  predicate NoneFor(ps: seq<Payment>, sponsorship: nat) {
    forall i :: 0 <= i < |ps| ==> ps[i].sponsorshipId != sponsorship
  }

  predicate NoneFrom(ps: seq<Payment>, donor: nat) {
    forall i :: 0 <= i < |ps| ==> ps[i].donorId != donor
  }

  /** Rows of other sponsorships do not move a sponsorship's totals. */
  lemma {:induction false} OtherRowsKeepTotals(ps: seq<Payment>, added: seq<Payment>, id: nat)
    requires NoneFor(added, id)
    ensures PaidTotal(ps + added, id) == PaidTotal(ps, id) && PaidCount(ps + added, id) == PaidCount(ps, id)
    ensures LastPaid(ps + added, id) == LastPaid(ps, id)
  {
    if added == [] {
      assert ps + added == ps;
    } else {
      var n := |added| - 1;
      OtherRowsKeepTotals(ps, added[..n], id);
      TotalsAppend(ps + added[..n], added[n], id);
      assert ps + added == ps + added[..n] + [added[n]];
    }
  }

  lemma {:induction false} OtherGiftsKeepTotals(ps: seq<Payment>, added: seq<Payment>, donor: nat)
    requires NoneFrom(added, donor)
    ensures DonatedTotal(ps + added, donor) == DonatedTotal(ps, donor)
    ensures FirstGift(ps + added, donor) == FirstGift(ps, donor) && LastGift(ps + added, donor) == LastGift(ps, donor)
  {
    if added == [] {
      assert ps + added == ps;
    } else {
      var n := |added| - 1;
      OtherGiftsKeepTotals(ps, added[..n], donor);
      GiftsAppend(ps + added[..n], added[n], donor);
      assert ps + added == ps + added[..n] + [added[n]];
    }
  }

  lemma {:induction false} NoRowsNoTotals(ps: seq<Payment>, id: nat)
    requires NoneFor(ps, id)
    ensures PaidTotal(ps, id) == 0 && PaidCount(ps, id) == 0 && LastPaid(ps, id) == None
  {
    OtherRowsKeepTotals([], ps, id);
    assert [] + ps == ps;
  }

  /** A row of this sponsorship: its donor, its monthly amount and, once completed, that amount in KWD. */
  predicate RowOf(p: Payment, t: Terms) {
    p.sponsorshipId == t.id && p.donorId == t.donorId && p.amount == t.monthlyAmount
    && (p.outcome.Completed? ==> p.outcome.inDefault == ToDefault(p.amount, t.currency))
  }

  /** Every row that names the sponsorship is one of its rows. */
  predicate RowsOf(ps: seq<Payment>, t: Terms) {
    forall i :: 0 <= i < |ps| && ps[i].sponsorshipId == t.id ==> RowOf(ps[i], t)
  }

  /** `longer` is `ps` with further rows, all of one sponsorship. */
  predicate ExtendedBy(ps: seq<Payment>, longer: seq<Payment>, t: Terms) {
    |ps| <= |longer| && longer[..|ps|] == ps
    && forall i :: |ps| <= i < |longer| ==> RowOf(longer[i], t)
  }

  lemma {:induction false} PostedExtends(ps: seq<Payment>, base: seq<Payment>, t: Terms, days: seq<Day>, receipts: nat)
    requires Posted(ps, base, t, days, receipts)
    ensures ExtendedBy(base, ps, t)
  {
    forall i | |base| <= i < |ps|
      ensures RowOf(ps[i], t)
    {
      assert ps[|base| + (i - |base|)] == MonthlyPayment(t, days[i - |base|], i + 1, receipts + (i - |base|) + 1);
    }
  }

  // ── The rows of a sponsorship, in calendar and currency terms ────────

  /** A completion is dated by its payment day, but never later in the month than the 28th. */
  predicate Dated(o: Outcome)
    requires o.Completed?
  {
    && o.completedAt.year == o.payDate.year && o.completedAt.month == o.payDate.month
    && (if o.payDate.day > 28 then o.completedAt.day == 28 else o.completedAt == o.payDate)
  }

  /** The amount in KWD: 0.307 KWD to the USD, to the nearest cent, half a cent counting up. */
  predicate Converted(amount: int, currency: Currency, inDefault: int) {
    match currency
    case KWD => inDefault == amount
    case USD =>
      if amount >= 0 then -1000 < 2000 * inDefault - 614 * amount <= 1000
      else -1000 <= 2000 * inDefault - 614 * amount < 1000
  }

  /** The completed payment of month m. */
  predicate MonthPaid(p: Payment, t: Terms, m: nat) {
    && p.sponsorshipId == t.id && p.donorId == t.donorId && p.amount == t.monthlyAmount && p.outcome.Completed?
    && AddMonths(t.startDate, m) == Some(p.outcome.payDate)
    && Dated(p.outcome) && Converted(p.amount, t.currency, p.outcome.inDefault)
  }

  predicate MonthsPaid(rows: seq<Payment>, t: Terms, n: nat) {
    n <= |rows| && forall m: nat :: m < n ==> MonthPaid(rows[m], t, m)
  }

  /** The 11th sponsorship also has a pending payment, the 12th a failed one. */
  predicate Unfinished(rows: seq<Payment>, t: Terms, s: nat) {
    if s == 10 || s == 11 then
      |rows| == 1 && rows[0].sponsorshipId == t.id && rows[0].donorId == t.donorId && rows[0].amount == t.monthlyAmount
      && rows[0].outcome == if s == 10 then Pending else Rejected
    else rows == []
  }

  /** All rows of the s-th sponsorship: one completed payment for each month up to today, and what is unfinished. */
  predicate History(rows: seq<Payment>, t: Terms, today: Day, s: nat) {
    var n := PaymentMonths(t.startDate, today);
    MonthsPaid(rows, t, n) && Unfinished(rows[n..], t, s)
  }

  lemma {:induction false} PaymentInMonth(t: Terms, m: nat, d: Day, code: nat, receipt: nat)
    requires AddMonths(t.startDate, m) == Some(d)
    ensures MonthPaid(MonthlyPayment(t, d, code, receipt), t, m)
  {
    if t.currency.USD? {
      HalfUpNearest(t.monthlyAmount * 307, 1000, ToDefault(t.monthlyAmount, t.currency));
    }
  }

  lemma {:induction false} PostedMonths(ps: seq<Payment>, base: seq<Payment>, t: Terms, days: seq<Day>, receipts: nat)
    requires Posted(ps, base, t, days, receipts) && Monthly(t.startDate, days)
    ensures MonthsPaid(ps[|base|..], t, |days|) && |ps[|base|..]| == |days|
  {
    forall m: nat | m < |days|
      ensures MonthPaid(ps[|base|..][m], t, m)
    {
      assert ps[|base| + m] == MonthlyPayment(t, days[m], |base| + m + 1, receipts + m + 1);
      PaymentInMonth(t, m, days[m], |base| + m + 1, receipts + m + 1);
    }
  }

  /** The rows of one sponsorship, in order. */
  function RowsFor(ps: seq<Payment>, id: nat): seq<Payment> {
    if ps == [] then []
    else RowsFor(ps[..|ps| - 1], id) + if ps[|ps| - 1].sponsorshipId == id then [ps[|ps| - 1]] else []
  }

  lemma {:induction false} OtherRowsFiltered(ps: seq<Payment>, added: seq<Payment>, id: nat)
    requires NoneFor(added, id)
    ensures RowsFor(ps + added, id) == RowsFor(ps, id)
  {
    if added == [] {
      assert ps + added == ps;
    } else {
      var n := |added| - 1;
      OtherRowsFiltered(ps, added[..n], id);
      assert (ps + added)[..|ps + added| - 1] == ps + added[..n];
    }
  }

  lemma {:induction false} OwnRowsFiltered(ps: seq<Payment>, added: seq<Payment>, id: nat)
    requires forall i :: 0 <= i < |added| ==> added[i].sponsorshipId == id
    ensures RowsFor(ps + added, id) == RowsFor(ps, id) + added
  {
    if added == [] {
      assert ps + added == ps;
    } else {
      var n := |added| - 1;
      OwnRowsFiltered(ps, added[..n], id);
      assert (ps + added)[..|ps + added| - 1] == ps + added[..n];
    }
  }

  /** What a pass adds is all there is of its sponsorship, if there was nothing before. */
  lemma {:induction false} FirstRowsFiltered(before: seq<Payment>, after: seq<Payment>, t: Terms)
    requires NoneFor(before, t.id) && ExtendedBy(before, after, t)
    ensures RowsFor(after, t.id) == after[|before|..]
  {
    var added := after[|before|..];
    assert after == before + added;
    OwnRowsFiltered(before, added, t.id);
    NoRowsFiltered(before, t.id);
    assert [] + added == added;
  }

  lemma {:induction false} NoRowsFiltered(ps: seq<Payment>, id: nat)
    requires NoneFor(ps, id)
    ensures RowsFor(ps, id) == []
  {
    if ps != [] {
      NoRowsFiltered(ps[..|ps| - 1], id);
    }
  }

  lemma {:induction false} DatedPayment(t: Terms, d: Day, code: nat, receipt: nat)
    ensures DatedRow(MonthlyPayment(t, d, code, receipt))
  {
  }

  predicate DatedRow(p: Payment) {
    p.outcome.Completed? ==> Dated(p.outcome)
  }

  predicate AllDated(ps: seq<Payment>) {
    forall i: nat :: i < |ps| ==> DatedRow(ps[i])
  }

  lemma {:induction false} DatedAppend(ps: seq<Payment>, p: Payment)
    requires AllDated(ps) && DatedRow(p)
    ensures AllDated(ps + [p])
  {
  }

  /** What the tail of the loop sets as the next due date; None is its ValueError. */
  function NextDue(t: Terms, today: Day, last: Option<Day>, current: Option<Day>): Option<Option<Day>> {
    if t.standing.Active? && last.Some? then
      var next := AddMonths(last.value, 1);
      if next.None? then None else Some(next)
    else if t.standing.Late? then
      var next := AddMonths(today, -t.monthsOverdue);
      if next.None? then None else Some(next)
    else Some(current)
  }

  /** Next month and the months overdue both lie within the calendar. */
  predicate DueInCalendar(t: Terms, today: Day) {
    MonthIndex(today) < LAST_MONTH && 0 <= t.monthsOverdue && InCalendar(MonthIndex(today) - t.monthsOverdue)
  }

  lemma {:induction false} NextDueExists(t: Terms, today: Day, last: Option<Day>, current: Option<Day>)
    requires last.Some? ==> AtMost(last.value, today)
    ensures DueInCalendar(t, today) ==> NextDue(t, today, last, current).Some?
  {
    if last.Some? {
      OrderByMonthIndex(last.value, today);
      AddMonthsIndex(last.value, 1);
    }
    AddMonthsIndex(today, -t.monthsOverdue);
  }

  /** The last payment day of a complete history. */
  function LastPayment(start: Day, today: Day): Option<Day> {
    var n := PaymentMonths(start, today);
    if n == 0 then None else AddMonths(start, n - 1)
  }

  lemma {:induction false} LastNotAfterToday(start: Day, today: Day)
    ensures LastPayment(start, today).Some? ==> AtMost(LastPayment(start, today).value, today)
  {
    if PaymentMonths(start, today) > 0 {
      PaymentDays(start, today, PaymentMonths(start, today) - 1);
    }
  }

  lemma {:induction false} LastOfHistory(start: Day, today: Day, days: seq<Day>)
    requires Monthly(start, days) && |days| == PaymentMonths(start, today)
    ensures LastOf(days) == LastPayment(start, today)
  {
  }

  lemma {:induction false} OnlyOwnRows(before: seq<Payment>, after: seq<Payment>, t: Terms)
    requires NoneFor(before, t.id) && ExtendedBy(before, after, t)
    ensures RowsOf(after, t)
  {
    assert forall i :: 0 <= i < |before| ==> after[i] == after[..|before|][i];
  }

  // ── Objects ──────────────────────────────────────────────────────────

  class Donor {
    const id: nat
    var totalDonated: int
    var firstDonationAt: Option<Day>
    var lastDonationAt: Option<Day>

    constructor (id: nat)
      ensures this.id == id && Agrees([])
    {
      this.id := id;
      totalDonated, firstDonationAt, lastDonationAt := 0, None, None;
    }

    /** The denormalised columns equal the sum, minimum and maximum over the donor's rows. */
    predicate Agrees(ps: seq<Payment>)
      reads this
    {
      totalDonated == DonatedTotal(ps, id)
      && firstDonationAt == FirstGift(ps, id)
      && lastDonationAt == LastGift(ps, id)
    }

    /** The running columns after one more completed payment of this donor. */
    method Credit(p: Payment, ghost ps: seq<Payment>)
      requires Agrees(ps) && GivenBy(p, id)
      modifies this
      ensures Agrees(ps + [p])
    {
      GiftsAppend(ps, p, id);
      var completedAt := p.outcome.completedAt;
      if firstDonationAt.None? || Before(completedAt, firstDonationAt.value) {
        firstDonationAt := Some(completedAt);
      }
      if lastDonationAt.None? || Before(lastDonationAt.value, completedAt) {
        lastDonationAt := Some(completedAt);
      }
      totalDonated := totalDonated + p.outcome.inDefault;
    }
  }

  class Sponsorship {
    const terms: Terms
    var totalPaid: int
    var paymentsCount: nat
    var lastPaymentDate: Option<Day>
    var lastPaymentAmount: Option<int>
    var nextPaymentDate: Option<Day>

    constructor (terms: Terms, nextPaymentDate: Option<Day>)
      ensures this.terms == terms && this.nextPaymentDate == nextPaymentDate
    {
      this.terms := terms;
      this.nextPaymentDate := nextPaymentDate;
      totalPaid, paymentsCount := 0, 0;
      lastPaymentDate, lastPaymentAmount := None, None;
    }

    predicate Agrees(ps: seq<Payment>)
      reads this
    {
      totalPaid == PaidTotal(ps, terms.id)
      && paymentsCount == PaidCount(ps, terms.id)
      && lastPaymentDate == LastPaid(ps, terms.id)
      && lastPaymentAmount == (if lastPaymentDate.Some? then Some(terms.monthlyAmount) else None)
    }

    method SetTotals(total: int, n: nat, last: Option<Day>, ghost ps: seq<Payment>, ghost today: Day)
      requires total == PaidTotal(ps, terms.id) && n == PaidCount(ps, terms.id) && last == LastPaid(ps, terms.id)
      requires n == PaymentMonths(terms.startDate, today) && total == n * terms.monthlyAmount
      requires last == LastPayment(terms.startDate, today)
      modifies this
      ensures PaidUp(this, ps, today) && nextPaymentDate == old(nextPaymentDate)
    {
      totalPaid := total;
      paymentsCount := n;
      lastPaymentDate := last;
      lastPaymentAmount := if last.Some? then Some(terms.monthlyAmount) else None;
    }

    method SetNextDue(today: Day) returns (ok: bool)
      modifies this`nextPaymentDate
      ensures ok <==> NextDue(terms, today, lastPaymentDate, old(nextPaymentDate)).Some?
      ensures ok ==> NextDue(terms, today, lastPaymentDate, old(nextPaymentDate)) == Some(nextPaymentDate)
    {
      var next := NextDue(terms, today, lastPaymentDate, nextPaymentDate);
      ok := next.Some?;
      if ok {
        nextPaymentDate := next.value;
      }
    }
  }

  class PaymentLedger {
    var payments: seq<Payment>
    var paymentSeq: nat
    var receiptSeq: nat

    predicate Valid()
      reads this
    {
      && Numbered(payments) && paymentSeq == |payments| && receiptSeq == CompletedCount(payments)
      && AllDated(payments)
    }

    constructor ()
      ensures Valid() && payments == []
    {
      payments, paymentSeq, receiptSeq := [], 0, 0;
    }

    /** The inner loop of one sponsorship after payments on `days`, on top of the rows `base`. */
    ghost predicate Midway(t: Terms, donor: Donor, base: seq<Payment>, days: seq<Day>, total: int)
      reads this, donor
    {
      && Valid() && donor.id == t.donorId && donor.Agrees(payments)
      && Rows(payments, base, t, days, total)
    }

    /** The inner loop: one payment a month from the start, stopping once a payment day lies after today. */
    method PayMonths(t: Terms, donor: Donor, today: Day)
      returns (total: int, n: nat, last: Option<Day>, ghost days: seq<Day>)
      requires Midway(t, donor, payments, [], 0)
      modifies this, donor
      ensures n == |days| == PaymentMonths(t.startDate, today) && last == LastOf(days)
      ensures Monthly(t.startDate, days) && total == n * t.monthlyAmount
      ensures Midway(t, donor, old(payments), days, total)
    {
      total, n, last, days := 0, 0, None, [];
      var months := MonthsBetween(t.startDate, today);
      for m := 0 to months + 1
        invariant n == m == |days| <= PaymentMonths(t.startDate, today) && last == LastOf(days)
        invariant Monthly(t.startDate, days) && total == n * t.monthlyAmount
        invariant Midway(t, donor, old(payments), days, total)
      {
        PaymentDays(t.startDate, today, m);
        var payDate := AddMonths(t.startDate, m).value;
        if Before(today, payDate) {
          break;
        }
        DaysAscend(t.startDate, days, payDate);
        OneMore(n, t.monthlyAmount);
        AddCompleted(t, donor, payDate, old(payments), days, total);
        total, n, last, days := total + t.monthlyAmount, n + 1, Some(payDate), days + [payDate];
      }
    }

    /** One iteration: the row, and the donor's running columns. */
    method AddCompleted(t: Terms, donor: Donor, payDate: Day,
                        ghost base: seq<Payment>, ghost days: seq<Day>, ghost total: int)
      requires Midway(t, donor, base, days, total)
      requires LastOf(days).Some? ==> Before(LastOf(days).value, payDate)
      modifies this, donor
      ensures Midway(t, donor, base, days + [payDate], total + t.monthlyAmount)
    {
      CompletedStep(payments, base, t, days, total, payDate);
      paymentSeq := paymentSeq + 1;
      receiptSeq := receiptSeq + 1;
      var p := MonthlyPayment(t, payDate, paymentSeq, receiptSeq);
      donor.Credit(p, payments);
      payments := payments + [p];
    }

    /** The two extra rows the seed adds for sponsorships 10 and 11: one pending, one failed. */
    method AddUnfinished(t: Terms, outcome: Outcome)
      requires Valid() && !outcome.Completed?
      modifies this
      ensures Valid()
      ensures payments
              == old(payments) + [Payment(|old(payments)| + 1, t.donorId, t.id, t.monthlyAmount, outcome)]
    {
      paymentSeq := paymentSeq + 1;
      var p := Payment(paymentSeq, t.donorId, t.id, t.monthlyAmount, outcome);
      NumberedAppend(payments, p);
      DatedAppend(payments, p);
      payments := payments + [p];
    }

    /** The completed payments of one sponsorship, and its columns over them. */
    method PostMonths(sp: Sponsorship, donor: Donor, today: Day)
      requires Valid() && donor.id == sp.terms.donorId && donor.Agrees(payments) && NoneFor(payments, sp.terms.id)
      modifies this, sp, donor
      ensures Valid() && donor.Agrees(payments) && ExtendedBy(old(payments), payments, sp.terms)
      ensures PaidUp(sp, payments, today) && sp.nextPaymentDate == old(sp.nextPaymentDate)
      ensures |payments[|old(payments)|..]| == sp.paymentsCount
      ensures MonthsPaid(payments[|old(payments)|..], sp.terms, sp.paymentsCount)
    {
      var t := sp.terms;
      NoRowsYet(payments, t);
      var total, n, last, days := PayMonths(t, donor, today);
      LoopFinished(payments, old(payments), t, days, total, today);
      sp.SetTotals(total, n, last, payments, today);
    }

    /** One pass of the outer loop, for the s-th sponsorship; false is the ValueError of the next due date. */
    method PostSponsorship(s: nat, sp: Sponsorship, donor: Donor, today: Day) returns (ok: bool)
      requires Valid() && donor.id == sp.terms.donorId && donor.Agrees(payments) && NoneFor(payments, sp.terms.id)
      modifies this, sp, donor
      ensures Valid() && donor.Agrees(payments) && ExtendedBy(old(payments), payments, sp.terms)
      ensures PaidUp(sp, payments, today)
      ensures ok ==> History(payments[|old(payments)|..], sp.terms, today, s)
      ensures ok <==> NextDue(sp.terms, today, sp.lastPaymentDate, old(sp.nextPaymentDate)).Some?
      ensures ok ==> NextDue(sp.terms, today, sp.lastPaymentDate, old(sp.nextPaymentDate)) == Some(sp.nextPaymentDate)
    {
      PostMonths(sp, donor, today);
      ok := sp.SetNextDue(today);
      if ok && (s == 10 || s == 11) {
        ghost var before := payments;
        AddUnfinished(sp.terms, if s == 10 then Pending else Rejected);
        TotalsAppend(before, payments[|before|], sp.terms.id);
        GiftsAppend(before, payments[|before|], donor.id);
        UnfinishedAppend(before, payments, |old(payments)|, sp.terms, sp.paymentsCount, s);
      }
    }

    /** One pass of the outer loop, with the donor looked up by id. */
    method PostOne(s: nat, sp: Sponsorship, donors: seq<Donor>, today: Day) returns (ok: bool)
      requires Valid() && NoneFor(payments, sp.terms.id)
      requires DistinctDonors(donors) && HasDonor(donors, sp.terms.donorId)
      requires AllAgree(donors, payments)
      modifies this, sp, donors
      ensures Valid() && ExtendedBy(old(payments), payments, sp.terms)
      ensures AllAgree(donors, payments)
      ensures ok ==> Settled(sp, s, payments, today, old(sp.nextPaymentDate))
      ensures DueInCalendar(sp.terms, today) ==> ok
    {
      var j := FindDonor(donors, sp.terms.donorId);
      ghost var before := payments;
      ok := PostSponsorship(s, sp, donors[j], today);
      LastNotAfterToday(sp.terms.startDate, today);
      NextDueExists(sp.terms, today, sp.lastPaymentDate, old(sp.nextPaymentDate));
      OnlyOwnRows(before, payments, sp.terms);
      FirstRowsFiltered(before, payments, sp.terms);
      forall k | 0 <= k < |donors|
        ensures donors[k].Agrees(payments)
      {
        if k != j {
          assert donors[k].Agrees(before);
          AgreesCarries(donors[k], before, payments, sp.terms);
        }
      }
    }

    /** The whole payment loop over all sponsorships; false is a ValueError, after which nothing is committed. */
    method PostPayments(sponsorships: seq<Sponsorship>, donors: seq<Donor>, today: Day) returns (ok: bool)
      requires Valid() && payments == []
      requires DistinctSponsorships(sponsorships) && DistinctDonors(donors)
      requires forall i :: 0 <= i < |sponsorships| ==> HasDonor(donors, sponsorships[i].terms.donorId)
      requires AllAgree(donors, [])
      modifies this, sponsorships, donors
      ensures Valid()
      ensures AllAgree(donors, payments) && Owned(payments, sponsorships)
      ensures ok ==> forall i :: 0 <= i < |sponsorships| ==>
                Settled(sponsorships[i], i, payments, today, old(sponsorships[i].nextPaymentDate))
      ensures (forall i :: 0 <= i < |sponsorships| ==> DueInCalendar(sponsorships[i].terms, today)) ==> ok
    {
      ghost var dues := seq(|sponsorships|,
                            i requires 0 <= i < |sponsorships| reads sponsorships => sponsorships[i].nextPaymentDate);
      for s := 0 to |sponsorships|
        invariant Valid() && AllAgree(donors, payments)
        invariant SettledUpTo(sponsorships, s, payments, today, dues)
        invariant UntouchedFrom(sponsorships, s, payments, dues)
        invariant Owned(payments, sponsorships)
      {
        ghost var before := payments;
        ok := PostOne(s, sponsorships[s], donors, today);
        OwnedExtended(before, payments, sponsorships, s);
        if !ok {
          return;
        }
        SettledCarriesAll(sponsorships, s, before, payments, today, dues);
      }
      ok := true;
    }
  }

  lemma {:induction false} CompletedStep(ps: seq<Payment>, base: seq<Payment>, t: Terms, days: seq<Day>,
                                         total: int, d: Day)
    requires Rows(ps, base, t, days, total) && AllDated(ps)
    requires LastOf(days).Some? ==> Before(LastOf(days).value, d)
    ensures var p := MonthlyPayment(t, d, |ps| + 1, CompletedCount(ps) + 1);
            && Rows(ps + [p], base, t, days + [d], total + t.monthlyAmount) && AllDated(ps + [p])
            && Numbered(ps + [p]) && CompletedCount(ps + [p]) == CompletedCount(ps) + 1
            && GivenBy(p, t.donorId)
  {
    var p := MonthlyPayment(t, d, |ps| + 1, CompletedCount(ps) + 1);
    RowsStep(ps, base, t, days, total, d);
    DatedPayment(t, d, |ps| + 1, CompletedCount(ps) + 1);
    DatedAppend(ps, p);
    NumberedAppend(ps, p);
  }

  /** The rows and running values of a finished inner loop. */
  lemma {:induction false} LoopFinished(ps: seq<Payment>, base: seq<Payment>, t: Terms, days: seq<Day>,
                                        total: int, today: Day)
    requires Rows(ps, base, t, days, total) && Monthly(t.startDate, days) && |days| == PaymentMonths(t.startDate, today)
    ensures total == PaidTotal(ps, t.id) && |days| == PaidCount(ps, t.id)
    ensures LastOf(days) == LastPaid(ps, t.id) == LastPayment(t.startDate, today)
    ensures ExtendedBy(base, ps, t) && |ps[|base|..]| == |days| && MonthsPaid(ps[|base|..], t, |days|)
  {
    PostedExtends(ps, base, t, days, CompletedCount(base));
    PostedMonths(ps, base, t, days, CompletedCount(base));
    LastOfHistory(t.startDate, today, days);
  }

  lemma {:induction false} UnfinishedAppend(before: seq<Payment>, after: seq<Payment>, base: nat, t: Terms,
                                            n: nat, s: nat)
    requires base <= |before| && |after| == |before| + 1 && after[..|before|] == before
    requires |before[base..]| == n && MonthsPaid(before[base..], t, n)
    requires Unfinished([after[|before|]], t, s)
    ensures MonthsPaid(after[base..], t, n) && Unfinished(after[base..][n..], t, s)
  {
    var rows := after[base..];
    assert rows[n..] == [after[|before|]];
    forall m: nat | m < n
      ensures MonthPaid(rows[m], t, m)
    {
      assert rows[m] == before[base..][m];
    }
  }

  /** Every row is one of the sponsorships'. */
  predicate Owned(ps: seq<Payment>, sponsorships: seq<Sponsorship>) {
    forall k :: 0 <= k < |ps| ==> exists i :: 0 <= i < |sponsorships| && sponsorships[i].terms.id == ps[k].sponsorshipId
  }

  lemma {:induction false} OwnedExtended(before: seq<Payment>, after: seq<Payment>,
                                         sponsorships: seq<Sponsorship>, s: nat)
    requires s < |sponsorships| && Owned(before, sponsorships) && ExtendedBy(before, after, sponsorships[s].terms)
    ensures Owned(after, sponsorships)
  {
    assert forall k :: 0 <= k < |before| ==> after[k] == after[..|before|][k];
  }

  lemma {:induction false} AgreesCarries(d: Donor, before: seq<Payment>, after: seq<Payment>, t: Terms)
    requires d.Agrees(before) && ExtendedBy(before, after, t) && t.donorId != d.id
    ensures d.Agrees(after)
  {
    assert after == before + after[|before|..];
    OtherGiftsKeepTotals(before, after[|before|..], d.id);
  }

  lemma {:induction false} SettledCarries(sp: Sponsorship, s: nat, before: seq<Payment>, after: seq<Payment>, t: Terms,
                                          today: Day, due: Option<Day>)
    requires Settled(sp, s, before, today, due) && ExtendedBy(before, after, t) && t.id != sp.terms.id
    ensures Settled(sp, s, after, today, due)
  {
    assert after == before + after[|before|..];
    OtherRowsFiltered(before, after[|before|..], sp.terms.id);
    OtherRowsKeepTotals(before, after[|before|..], sp.terms.id);
    forall i | 0 <= i < |after| && after[i].sponsorshipId == sp.terms.id
      ensures RowOf(after[i], sp.terms)
    {
      assert after[i] == before[i];
    }
  }

  ghost predicate AllAgree(donors: seq<Donor>, ps: seq<Payment>)
    reads donors
  {
    forall j :: 0 <= j < |donors| ==> donors[j].Agrees(ps)
  }

  ghost predicate SettledUpTo(sps: seq<Sponsorship>, s: nat, ps: seq<Payment>, today: Day, dues: seq<Option<Day>>)
    requires s <= |sps| == |dues|
    reads sps
  {
    forall i :: 0 <= i < s ==> Settled(sps[i], i, ps, today, dues[i])
  }

  ghost predicate UntouchedFrom(sps: seq<Sponsorship>, s: nat, ps: seq<Payment>, dues: seq<Option<Day>>)
    requires s <= |sps| == |dues|
    reads sps
  {
    forall i :: s <= i < |sps| ==> NoneFor(ps, sps[i].terms.id) && sps[i].nextPaymentDate == dues[i]
  }

  lemma {:induction false} SettledCarriesAll(sps: seq<Sponsorship>, s: nat, before: seq<Payment>,
                                             after: seq<Payment>, today: Day, dues: seq<Option<Day>>)
    requires s < |sps| == |dues| && DistinctSponsorships(sps)
    requires SettledUpTo(sps, s, before, today, dues) && UntouchedFrom(sps, s + 1, before, dues)
    requires ExtendedBy(before, after, sps[s].terms) && Settled(sps[s], s, after, today, dues[s])
    ensures SettledUpTo(sps, s + 1, after, today, dues) && UntouchedFrom(sps, s + 1, after, dues)
  {
    forall i | 0 <= i < s
      ensures Settled(sps[i], i, after, today, dues[i])
    {
      SettledCarries(sps[i], i, before, after, sps[s].terms, today, dues[i]);
    }
    forall i | s + 1 <= i < |sps|
      ensures NoneFor(after, sps[i].terms.id)
    {
      NoneForCarries(before, after, sps[s].terms, sps[i].terms.id);
    }
  }

  lemma {:induction false} NoneForCarries(before: seq<Payment>, after: seq<Payment>, t: Terms, id: nat)
    requires NoneFor(before, id) && ExtendedBy(before, after, t) && t.id != id
    ensures NoneFor(after, id)
  {
    assert forall i :: 0 <= i < |before| ==> after[i] == after[..|before|][i];
  }

  predicate DistinctSponsorships(sponsorships: seq<Sponsorship>) {
    forall i, j :: 0 <= i < j < |sponsorships| ==>
      sponsorships[i] != sponsorships[j] && sponsorships[i].terms.id != sponsorships[j].terms.id
  }

  predicate DistinctDonors(donors: seq<Donor>) {
    forall i, j :: 0 <= i < j < |donors| ==> donors[i] != donors[j] && donors[i].id != donors[j].id
  }

  predicate HasDonor(donors: seq<Donor>, id: nat) {
    exists j :: 0 <= j < |donors| && donors[j].id == id
  }

  /** next(d for d in donors if d.id == id) */
  method FindDonor(donors: seq<Donor>, id: nat) returns (j: nat)
    requires HasDonor(donors, id)
    ensures j < |donors| && donors[j].id == id
    ensures forall k :: 0 <= k < j ==> donors[k].id != id
  {
    j := 0;
    while donors[j].id != id
      invariant j < |donors|
      invariant forall k :: 0 <= k < j ==> donors[k].id != id
      decreases |donors| - j
    {
      j := j + 1;
    }
  }

  /** A sponsorship's columns are the totals over its rows, and those are one payment a month up to today. */
  predicate PaidUp(sp: Sponsorship, ps: seq<Payment>, today: Day)
    reads sp
  {
    && sp.Agrees(ps)
    && sp.paymentsCount == PaymentMonths(sp.terms.startDate, today)
    && sp.totalPaid == sp.paymentsCount * sp.terms.monthlyAmount
    && sp.lastPaymentDate == LastPayment(sp.terms.startDate, today)
  }

  /** The s-th sponsorship after the loop: its columns, all of its rows and its next due date. */
  predicate Settled(sp: Sponsorship, s: nat, ps: seq<Payment>, today: Day, due: Option<Day>)
    reads sp
  {
    && PaidUp(sp, ps, today) && RowsOf(ps, sp.terms)
    && History(RowsFor(ps, sp.terms.id), sp.terms, today, s)
    && NextDue(sp.terms, today, sp.lastPaymentDate, due) == Some(sp.nextPaymentDate)
  }
}
