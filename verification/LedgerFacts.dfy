/**
 What the demo seed's payment history amounts to, and how it stands against the collections
 rules: complete histories, unique numbers, bounded conversion drift, and due dates.
 */
module LedgerFacts {
  import opened Options
  import opened Calendar
  import opened Decimals
  import opened Arrears
  import opened SeedCalendar
  import opened Ledger

  /** No two rows share a code, and no two completed rows share a receipt. */
  lemma {:induction false} NumbersDistinct(ps: seq<Payment>, i: nat, j: nat)
    requires Numbered(ps) && i < j < |ps|
    ensures ps[i].code != ps[j].code
    ensures ps[i].outcome.Completed? && ps[j].outcome.Completed? ==> ps[i].outcome.receipt < ps[j].outcome.receipt
  {
    assert NumberedAt(ps, i) && NumberedAt(ps, j);
    if ps[i].outcome.Completed? {
      CompletedGrows(ps, i, j);
    }
  }

  lemma {:induction false} CompletedGrows(ps: seq<Payment>, i: nat, j: nat)
    requires i < j <= |ps| && ps[i].outcome.Completed?
    ensures CompletedCount(ps[..i]) < CompletedCount(ps[..j])
    decreases j
  {
    assert ps[..j][..j - 1] == ps[..j - 1];
    if i < j - 1 {
      CompletedGrows(ps, i, j - 1);
    }
  }

  /** first_donation_at and last_donation_at are attained bounds over the donor's completed payments. */
  lemma {:induction false} GiftsAreExtremes(ps: seq<Payment>, donor: nat)
    ensures FirstGift(ps, donor).Some? <==> LastGift(ps, donor).Some?
    ensures FirstGift(ps, donor).Some? <==> exists i :: 0 <= i < |ps| && GivenBy(ps[i], donor)
    ensures forall i :: 0 <= i < |ps| && GivenBy(ps[i], donor) ==>
              AtMost(FirstGift(ps, donor).value, ps[i].outcome.completedAt)
              && AtMost(ps[i].outcome.completedAt, LastGift(ps, donor).value)
    ensures FirstGift(ps, donor).Some? ==>
              (exists i :: 0 <= i < |ps| && GivenBy(ps[i], donor)
                           && ps[i].outcome.completedAt == FirstGift(ps, donor).value)
              && (exists i :: 0 <= i < |ps| && GivenBy(ps[i], donor)
                              && ps[i].outcome.completedAt == LastGift(ps, donor).value)
  {
    if ps != [] {
      var n := |ps| - 1;
      GiftsAreExtremes(ps[..n], donor);
      forall i | 0 <= i < n && GivenBy(ps[i], donor)
        ensures AtMost(FirstGift(ps, donor).value, ps[i].outcome.completedAt)
                && AtMost(ps[i].outcome.completedAt, LastGift(ps, donor).value)
      {
        assert GivenBy(ps[..n][i], donor);
      }
      if FirstGift(ps[..n], donor).Some? {
        var i :| 0 <= i < n && GivenBy(ps[..n][i], donor)
                 && ps[..n][i].outcome.completedAt == FirstGift(ps[..n], donor).value;
        var j :| 0 <= j < n && GivenBy(ps[..n][j], donor)
                 && ps[..n][j].outcome.completedAt == LastGift(ps[..n], donor).value;
        assert GivenBy(ps[i], donor) && GivenBy(ps[j], donor);
      }
      if GivenBy(ps[n], donor) {
        assert GivenBy(ps[n], donor);
      }
    }
  }

  /** The day of a completion is capped at the 28th, and otherwise orders as the payment days do. */
  lemma {:induction false} DatedInOrder(a: Outcome, b: Outcome)
    requires a.Completed? && b.Completed? && Dated(a) && Dated(b) && AtMost(a.payDate, b.payDate)
    ensures AtMost(a.completedAt, b.completedAt) && AtMost(a.completedAt, a.payDate)
  {
  }

  /**
   The donor columns in calendar terms: they are dated by payments of the donor, and no payment
   of the donor was due before the first or, up to the cap at the 28th, after the last.
   */
  lemma {:induction false} GiftsByPaymentDay(ps: seq<Payment>, donor: nat)
    requires AllDated(ps) && FirstGift(ps, donor).Some?
    ensures LastGift(ps, donor).Some?
    ensures var first, last := FirstGift(ps, donor).value, LastGift(ps, donor).value;
            && (exists i :: 0 <= i < |ps| && GivenBy(ps[i], donor) && CappedAt28(first, ps[i].outcome.payDate))
            && (exists i :: 0 <= i < |ps| && GivenBy(ps[i], donor) && CappedAt28(last, ps[i].outcome.payDate))
            && (forall i :: 0 <= i < |ps| && GivenBy(ps[i], donor) ==>
                  AtMost(first, ps[i].outcome.payDate) && !LaterUpTo28(ps[i].outcome.payDate, last))
  {
    GiftsAreExtremes(ps, donor);
    forall i | 0 <= i < |ps| && GivenBy(ps[i], donor)
      ensures CappedAt28(ps[i].outcome.completedAt, ps[i].outcome.payDate)
    {
      assert DatedRow(ps[i]);
    }
  }

  predicate CappedAt28(completed: Day, paid: Day) {
    completed.year == paid.year && completed.month == paid.month
    && completed.day == if paid.day > 28 then 28 else paid.day
  }

  /** In a later month, or on a later day of the month that is still at most the 28th. */
  predicate LaterUpTo28(paid: Day, last: Day) {
    MonthIndex(last) < MonthIndex(paid)
    || (MonthIndex(last) == MonthIndex(paid) && last.day < (if paid.day > 28 then 28 else paid.day))
  }

  /** Converting row by row stays within half a cent per payment of converting the total. */
  lemma {:induction false} ConversionDrift(ps: seq<Payment>, t: Terms)
    requires t.currency.USD? && RowsOf(ps, t)
    ensures -500 * PaidCount(ps, t.id)
            <= 1000 * ConvertedTotal(ps, t.id) - 307 * PaidTotal(ps, t.id)
            <= 500 * PaidCount(ps, t.id)
  {
    if ps != [] {
      var n := |ps| - 1;
      ConversionDrift(ps[..n], t);
      if PaidFor(ps[n], t.id) {
        assert RowOf(ps[n], t);
        HalfUpNearest(ps[n].amount * 307, 1000, ps[n].outcome.inDefault);
      }
    }
  }

  /** A KWD history converts without any drift. */
  lemma {:induction false} NoDriftInDefault(ps: seq<Payment>, t: Terms)
    requires t.currency.KWD? && RowsOf(ps, t)
    ensures ConvertedTotal(ps, t.id) == PaidTotal(ps, t.id)
  {
    if ps != [] {
      NoDriftInDefault(ps[..|ps| - 1], t);
      assert PaidFor(ps[|ps| - 1], t.id) ==> RowOf(ps[|ps| - 1], t);
    }
  }

  /** Started k months ago, a sponsorship gets exactly k + 1 payments: the loop's break is never taken. */
  lemma {:induction false} HistoryIsComplete(start: Day, today: Day, k: int)
    requires k >= 0 && AddMonths(today, -k) == Some(start)
    ensures MonthsBetween(start, today) == k && PaymentMonths(start, today) == k + 1
    ensures LastPayment(start, today) == AddMonths(start, k)
    ensures LastPayment(start, today).Some? && MonthIndex(LastPayment(start, today).value) == MonthIndex(today)
  {
    AddMonthsIndex(today, -k);
    BackAndForth(today, k);
    AddMonthsIndex(start, k);
  }

  /** An active sponsorship of the seed is due strictly after today: nothing behind, never late. */
  lemma {:induction false} ActiveIsCurrent(t: Terms, today: Day, k: int, current: Option<Day>, grace: int)
    requires t.standing.Active? && grace >= 0
    requires k >= 0 && AddMonths(today, -k) == Some(t.startDate) && MonthIndex(today) < LAST_MONTH
    ensures var due := NextDue(t, today, LastPayment(t.startDate, today), current);
            && due.Some? && due.value.Some?
            && Before(today, due.value.value)
            && MonthsBehind(due.value.value, today) == 0
            && IsLatePayer("active", due.value, today, grace) != Some(true)
  {
    HistoryIsComplete(t.startDate, today, k);
    var last := LastPayment(t.startDate, today).value;
    AddMonthsIndex(last, 1);
    DueAfterToday(today, AddMonths(last, 1).value, grace);
  }

  lemma {:induction false} DueAfterToday(today: Day, next: Day, grace: int)
    requires grace >= 0
    requires MonthIndex(next) == MonthIndex(today) + 1
    ensures Before(today, next) && MonthsBehind(next, today) == 0
    ensures IsLatePayer("active", Some(next), today, grace) != Some(true)
  {
    OrderByMonthIndex(today, next);
    OrderIsOrdinalOrder(today, next);
    if LatePaymentCutoff(today, grace).Some? {
      LateIffPastGrace("active", next, today, grace);
    }
  }

  /**
   An overdue sponsorship of the seed stores months_overdue months, and the collections rule
   counts one more: the instalment due on the date itself.
   */
  lemma {:induction false} OverdueOwesOneMore(t: Terms, today: Day, last: Option<Day>, current: Option<Day>)
    requires t.standing.Late? && t.monthsOverdue >= 0 && AddMonths(today, -t.monthsOverdue).Some?
    ensures var due := NextDue(t, today, last, current);
            due.Some? && due.value.Some? && MonthsBehind(due.value.value, today) == t.monthsOverdue + 1
  {
    AddMonthsIndex(today, -t.monthsOverdue);
    BehindSinceMonth(AddMonths(today, -t.monthsOverdue).value, today, t.monthsOverdue);
  }

  lemma {:induction false} BehindSinceMonth(due: Day, today: Day, k: int)
    requires k >= 0 && MonthIndex(due) == MonthIndex(today) - k && due.day <= today.day
    ensures MonthsBehind(due, today) == k + 1
  {
    OrderByMonthIndex(due, today);
    OrderByMonthIndex(today, due);
    RawMonthsByIndex(due, today);
  }

  /** The same day so many months on, or that month's last day. */
  predicate SameDayAfter(from: Day, months: int, to: Day) {
    MonthIndex(to) == MonthIndex(from) + months
    && to.day == if from.day <= DaysInMonth(to.year, to.month) then from.day else DaysInMonth(to.year, to.month)
  }

  /** A paused sponsorship, or an active one without a payment yet, keeps the due date it has. */
  lemma {:induction false} DueDateKept(t: Terms, today: Day, last: Option<Day>, current: Option<Day>)
    requires t.standing.Paused? || (t.standing.Active? && last.None?)
    ensures NextDue(t, today, last, current) == Some(current)
  {
  }

  /** What the whole loop leaves behind for a sponsorship that started k months ago. */
  lemma {:induction false} SeededStanding(sp: Sponsorship, s: nat, ps: seq<Payment>, today: Day,
                                          due: Option<Day>, k: int)
    requires Settled(sp, s, ps, today, due)
    requires k >= 0 && AddMonths(today, -k) == Some(sp.terms.startDate) && DueInCalendar(sp.terms, today)
    ensures PaidCount(ps, sp.terms.id) == k + 1
    ensures PaidTotal(ps, sp.terms.id) == (k + 1) * sp.terms.monthlyAmount
    ensures sp.nextPaymentDate.Some? ==>
              match sp.terms.standing
              case Active =>
                SameDayAfter(LastPayment(sp.terms.startDate, today).value, 1, sp.nextPaymentDate.value)
                && MonthsBehind(sp.nextPaymentDate.value, today) == 0
              case Late =>
                SameDayAfter(today, -sp.terms.monthsOverdue, sp.nextPaymentDate.value)
                && MonthsBehind(sp.nextPaymentDate.value, today) == sp.terms.monthsOverdue + 1
              case Paused => sp.nextPaymentDate == due
    ensures !sp.terms.standing.Paused? ==> sp.nextPaymentDate.Some?
  {
    HistoryIsComplete(sp.terms.startDate, today, k);
    match sp.terms.standing
    case Active =>
      ActiveIsCurrent(sp.terms, today, k, due, 0);
      AddMonthsIndex(LastPayment(sp.terms.startDate, today).value, 1);
    case Late =>
      AddMonthsIndex(today, -sp.terms.monthsOverdue);
      OverdueOwesOneMore(sp.terms, today, sp.lastPaymentDate, due);
    case Paused =>
  }
}
