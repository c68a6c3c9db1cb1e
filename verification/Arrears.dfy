/**
 Late-payment rules (backend/app/core/collections.py) against the schedule they describe:
 next_payment_date is moved by `_next_monthly`, one month at a time, and the closed-form
 month counts must agree with counting those moves.
 */
module Arrears {
  import opened Options
  import opened Calendar
  import opened Decimals

  function Min(a: int, b: int): int {
    if a <= b then a else b
  }

  function Max(a: int, b: int): int {
    if a >= b then a else b
  }

  /** `_next_monthly`: the same day next month, clamped at 28; fails after December 9999. */
  function NextMonthly(start: Day): Option<Day> {
    var (year, month) := if start.month + 1 > 12 then (start.year + 1, 1) else (start.year, start.month + 1);
    MakeDate(year, month, Min(start.day, 28))
  }

  /** `_next_monthly` applied k times. */
  function Scheduled(start: Day, k: nat): Option<Day>
    decreases k
  {
    if k == 0 then Some(start)
    else
      var previous := Scheduled(start, k - 1);
      if previous.None? then None else NextMonthly(previous.value)
  }

  /** The count of `months_elapsed` before its final max(..., 0). */
  function RawMonths(start: Day, today: Day): int {
    var months := (today.year - start.year) * 12 + (today.month - start.month);
    if today.day < Min(start.day, 28) then months - 1 else months
  }

  function MonthsElapsed(start: Day, today: Day): int {
    if AtMost(today, start) then 0 else Max(RawMonths(start, today), 0)
  }

  function InstallmentsDue(start: Day, end: Option<Day>, today: Day): int {
    var due := MonthsElapsed(start, today);
    if end.Some? then Min(due, MonthsElapsed(start, end.value)) else due
  }

  function MonthsBehind(nextPayment: Day, today: Day): int {
    if Before(today, nextPayment) then 0 else 1 + MonthsElapsed(nextPayment, today)
  }

  function LatePaymentCutoff(today: Day, graceDays: int): Option<Day> {
    PlusDays(today, -graceDays)
  }

  /**
   `is_late_payer`; the cutoff is only computed once the status and the date pass, so None
   (the OverflowError of the date subtraction) can only come from a chased sponsorship.
   */
  function IsLatePayer(status: string, nextPayment: Option<Day>, today: Day, graceDays: int): Option<bool> {
    if !(status == "active" || status == "overdue") || nextPayment.None? then Some(false)
    else
      var cutoff := LatePaymentCutoff(today, graceDays);
      if cutoff.None? then None else Some(Before(nextPayment.value, cutoff.value))
  }

  /** `amount_outstanding`, in cents of the sponsorship's currency. */
  function AmountOutstanding(monthly: Decimal, behind: int): int {
    QuantizeCents(Decimal(monthly.coefficient * behind, monthly.scale))
  }

  // ── The schedule in closed form ──────────────────────────────────────

  lemma {:induction false} NextMonthlyMonth(d: Day)
    ensures NextMonthly(d).None? <==> MonthIndex(d) == LAST_MONTH
    ensures NextMonthly(d).Some? ==>
              MonthIndex(NextMonthly(d).value) == MonthIndex(d) + 1 && NextMonthly(d).value.day == Min(d.day, 28)
  {
  }

  lemma {:induction false} ScheduledClosedForm(start: Day, k: nat)
    ensures Scheduled(start, k).Some? <==> MonthIndex(start) + k <= LAST_MONTH
    ensures Scheduled(start, k).Some? ==>
              MonthIndex(Scheduled(start, k).value) == MonthIndex(start) + k
              && Scheduled(start, k).value.day == if k == 0 then start.day else Min(start.day, 28)
    decreases k
  {
    if k > 0 {
      ScheduledClosedForm(start, k - 1);
      if Scheduled(start, k - 1).Some? {
        NextMonthlyMonth(Scheduled(start, k - 1).value);
      }
    }
  }

  lemma {:induction false} RawMonthsByIndex(start: Day, today: Day)
    ensures RawMonths(start, today)
            == MonthIndex(today) - MonthIndex(start) - if today.day < Min(start.day, 28) then 1 else 0
  {
  }

  // ── Main results ─────────────────────────────────────────────────────

  /** `months_elapsed` never needs its max(..., 0): past the first test the count is non-negative. */
  lemma {:induction false} FloorNeverBinds(start: Day, today: Day)
    requires Before(start, today)
    ensures RawMonths(start, today) >= 0
  {
    OrderByMonthIndex(start, today);
    RawMonthsByIndex(start, today);
  }

  /** `months_elapsed` is the number of `_next_monthly` moves from start that do not pass today. */
  lemma {:induction false} ElapsedCountsMoves(start: Day, today: Day, k: nat)
    ensures k <= MonthsElapsed(start, today)
            <==> k == 0 || (Scheduled(start, k).Some? && AtMost(Scheduled(start, k).value, today))
  {
    ScheduledClosedForm(start, k);
    OrderByMonthIndex(start, today);
    RawMonthsByIndex(start, today);
    if Scheduled(start, k).Some? {
      OrderByMonthIndex(Scheduled(start, k).value, today);
      OrderByMonthIndex(today, Scheduled(start, k).value);
    }
  }

  /** Before the start nothing has elapsed, and later days never lower the count. */
  lemma {:induction false} ElapsedMonotone(start: Day, today: Day, later: Day)
    requires AtMost(today, later)
    ensures 0 <= MonthsElapsed(start, today) <= MonthsElapsed(start, later)
  {
    OrderByMonthIndex(start, today);
    OrderByMonthIndex(today, later);
    RawMonthsByIndex(start, today);
    RawMonthsByIndex(start, later);
    OrderByMonthIndex(start, later);
  }

  /** A committed term caps the count exactly as stopping the clock at its end would. */
  lemma {:induction false} TermStopsTheClock(start: Day, end: Day, today: Day)
    ensures InstallmentsDue(start, Some(end), today) == MonthsElapsed(start, Earlier(today, end))
  {
    if Before(end, today) {
      ElapsedMonotone(start, end, today);
    } else {
      ElapsedMonotone(start, today, end);
    }
  }

  /**
   If k instalments are settled, so that the next due date is k+1 moves after the start, the
   arrears are what has come due beyond those k, by months_elapsed and ignoring any term.
   Settling one more (moving the due date once) lowers them by one, never below zero.
   */
  lemma {:induction false} ArrearsConserved(start: Day, today: Day, k: nat)
    requires Scheduled(start, k + 1).Some?
    ensures MonthsBehind(Scheduled(start, k + 1).value, today) == Max(0, MonthsElapsed(start, today) - k)
    ensures Scheduled(start, k + 2).Some? ==>
              MonthsBehind(Scheduled(start, k + 2).value, today)
              == Max(0, MonthsBehind(Scheduled(start, k + 1).value, today) - 1)
  {
    BehindFromSchedule(start, today, k);
    if Scheduled(start, k + 2).Some? {
      BehindFromSchedule(start, today, k + 1);
    }
  }

  lemma {:induction false} BehindFromSchedule(start: Day, today: Day, k: nat)
    requires Scheduled(start, k + 1).Some?
    ensures MonthsBehind(Scheduled(start, k + 1).value, today) == Max(0, MonthsElapsed(start, today) - k)
  {
    var next := Scheduled(start, k + 1).value;
    ScheduledClosedForm(start, k + 1);
    RawMonthsByIndex(start, today);
    RawMonthsByIndex(next, today);
    OrderByMonthIndex(start, today);
    OrderByMonthIndex(next, today);
    OrderByMonthIndex(today, next);
  }

  /** A two-decimal amount as a whole number of cents. */
  function Cents(monthly: Decimal): int
    requires monthly.scale <= 2
  {
    monthly.coefficient * Pow10(2 - monthly.scale)
  }

  lemma {:induction false} OutstandingExact(monthly: Decimal, behind: int)
    requires monthly.scale <= 2
    ensures AmountOutstanding(monthly, behind) == behind * Cents(monthly)
  {
    Reorder(monthly.coefficient, behind, Pow10(2 - monthly.scale));
  }

  lemma {:induction false} Reorder(a: int, b: int, c: int)
    ensures a * b * c == b * (a * c)
  {
  }

  lemma {:induction false} Factor(a: int, b: int, c: int)
    ensures a * c + b * c == (a + b) * c
  {
  }

  /**
   Money view of an open-ended sponsorship: k instalments paid plus the outstanding sum is what
   months_elapsed makes due.
   */
  lemma {:induction false} MoneyConserved(start: Day, today: Day, k: nat, monthly: Decimal)
    requires Scheduled(start, k + 1).Some?
    requires k <= MonthsElapsed(start, today)
    requires monthly.scale <= 2
    ensures k * Cents(monthly) + AmountOutstanding(monthly, MonthsBehind(Scheduled(start, k + 1).value, today))
            == MonthsElapsed(start, today) * Cents(monthly)
  {
    var behind := MonthsElapsed(start, today) - k;
    assert MonthsBehind(Scheduled(start, k + 1).value, today) == behind by {
      BehindFromSchedule(start, today, k);
    }
    OutstandingExact(monthly, behind);
    Factor(k, behind, Cents(monthly));
  }

  /**
   Against `installments_due`, which a term caps while `months_behind` keeps counting: paid and
   missed instalments add up to what is due exactly when no more than that was paid and the
   term, if there is one, has not been outlived by a whole month.
   */
  lemma {:induction false} InstallmentsConservedIff(start: Day, end: Option<Day>, today: Day, k: nat)
    requires Scheduled(start, k + 1).Some?
    ensures k + MonthsBehind(Scheduled(start, k + 1).value, today) == InstallmentsDue(start, end, today)
            <==> k <= MonthsElapsed(start, today)
                 && (end.Some? ==> MonthsElapsed(start, today) <= MonthsElapsed(start, end.value))
  {
    BehindFromSchedule(start, today, k);
  }

  /** The same in money, unless there is no amount at stake. */
  lemma {:induction false} MoneyConservedIff(start: Day, end: Option<Day>, today: Day, k: nat, monthly: Decimal)
    requires Scheduled(start, k + 1).Some? && monthly.scale <= 2
    ensures k * Cents(monthly) + AmountOutstanding(monthly, MonthsBehind(Scheduled(start, k + 1).value, today))
            == InstallmentsDue(start, end, today) * Cents(monthly)
            <==> Cents(monthly) == 0
                 || (k <= MonthsElapsed(start, today)
                     && (end.Some? ==> MonthsElapsed(start, today) <= MonthsElapsed(start, end.value)))
  {
    var behind := MonthsBehind(Scheduled(start, k + 1).value, today);
    InstallmentsConservedIff(start, end, today, k);
    OutstandingExact(monthly, behind);
    Factor(k, behind, Cents(monthly));
    Cancel(k + behind, InstallmentsDue(start, end, today), Cents(monthly));
  }

  lemma {:induction false} Cancel(a: int, b: int, c: int)
    ensures a * c == b * c <==> a == b || c == 0
  {
  }

  /**
   Once a fully paid term is outlived by a month, a sponsor whose due date moved on as usual
   counts as behind again.
   */
  lemma {:induction false} TermOutlived(start: Day, end: Day, today: Day)
    requires MonthsElapsed(start, end) < MonthsElapsed(start, today)
    requires Scheduled(start, MonthsElapsed(start, end) + 1).Some?
    ensures var k := InstallmentsDue(start, Some(end), today);
            k == MonthsElapsed(start, end)
            && MonthsBehind(Scheduled(start, k + 1).value, today) == MonthsElapsed(start, today) - k > 0
  {
    BehindFromSchedule(start, today, MonthsElapsed(start, end));
  }

  /** A term of January to March 2024, paid in full: in June nothing more is due, and three instalments are missing. */
  lemma {:induction false} OutlivedByThreeMonths(k: nat)
    requires k == 2
    ensures var start, end, today := Date(2024, 1, 1), Date(2024, 3, 1), Date(2024, 6, 1);
            InstallmentsDue(start, Some(end), today) == k
            && Scheduled(start, k + 1).Some? && MonthsBehind(Scheduled(start, k + 1).value, today) == 3
  {
    ScheduledClosedForm(Date(2024, 1, 1), k + 1);
    BehindFromSchedule(Date(2024, 1, 1), Date(2024, 6, 1), k);
  }

  /** For finer amounts the result is the cent nearest to the exact arrears, even on a tie. */
  lemma {:induction false} OutstandingIsNearestCent(monthly: Decimal, behind: int)
    requires monthly.scale > 2
    ensures var unit: int := Pow10(monthly.scale - 2);
            var error := 2 * (monthly.coefficient * behind) - 2 * unit * AmountOutstanding(monthly, behind);
            -unit <= error <= unit
            && (error == unit || error == -unit ==> AmountOutstanding(monthly, behind) % 2 == 0)
  {
    HalfEvenNearest(monthly.coefficient * behind, Pow10(monthly.scale - 2), AmountOutstanding(monthly, behind));
  }

  /** With a non-negative grace, a late payer owes at least one instalment and stays late. */
  lemma {:induction false} LateMeansBehind(status: string, next: Day, today: Day, later: Day, graceDays: int)
    requires graceDays >= 0
    requires IsLatePayer(status, Some(next), today, graceDays) == Some(true)
    requires AtMost(today, later)
    ensures MonthsBehind(next, today) >= 1
    ensures IsLatePayer(status, Some(next), later, graceDays) == Some(true)
    ensures MonthsBehind(next, later) >= MonthsBehind(next, today)
  {
    var cutoff := LatePaymentCutoff(today, graceDays).value;
    OrderIsOrdinalOrder(today, later);
    OrderIsOrdinalOrder(next, cutoff);
    OrderIsOrdinalOrder(next, today);
    EveryDayInRange(later);
    OrderIsOrdinalOrder(next, LatePaymentCutoff(later, graceDays).value);
    OrderIsOrdinalOrder(next, later);
    OrderIsOrdinalOrder(later, next);
    ElapsedMonotone(next, today, later);
  }

  /**
   The code takes any integer grace. "Late implies at least one instalment owed" holds for
   every date exactly when the grace is at least -1, or so far below that no cutoff exists.
   */
  lemma {:induction false} LateMeansBehindIff(graceDays: int)
    ensures (forall next: Day, today: Day ::
               IsLatePayer("active", Some(next), today, graceDays) == Some(true) ==> MonthsBehind(next, today) >= 1)
            <==> graceDays >= -1 || graceDays <= -LAST_ORDINAL
  {
    if graceDays >= -1 || graceDays <= -LAST_ORDINAL {
      forall next: Day, today: Day | IsLatePayer("active", Some(next), today, graceDays) == Some(true)
        ensures MonthsBehind(next, today) >= 1
      {
        LateIsDue(next, today, graceDays);
      }
    } else {
      var today: Day := Date(1, 1, 1);
      FirstOrdinal(today);
      var next := SecondDay(today);
      LateBeforeDue(graceDays, today, next);
      assert IsLatePayer("active", Some(next), today, graceDays) == Some(true) && MonthsBehind(next, today) < 1;
    }
  }

  lemma {:induction false} SecondDay(first: Day) returns (second: Day)
    requires Ordinal(first) == 1
    ensures Ordinal(second) == 2
  {
    assert !IsLastDay(first) by {
      EveryDayInRange(first);
    }
    NextDayOrdinal(first);
    second := NextDay(first).value;
  }

  lemma {:induction false} LateIsDue(next: Day, today: Day, graceDays: int)
    requires graceDays >= -1 || graceDays <= -LAST_ORDINAL
    requires IsLatePayer("active", Some(next), today, graceDays) == Some(true)
    ensures MonthsBehind(next, today) >= 1
  {
    EveryDayInRange(today);
    LateIffPastGrace("active", next, today, graceDays);
    OrderIsOrdinalOrder(today, next);
    ElapsedMonotone(next, today, today);
  }

  lemma {:induction false} LateBeforeDue(graceDays: int, today: Day, next: Day)
    requires -LAST_ORDINAL < graceDays < -1
    requires Ordinal(today) == 1 && Ordinal(next) == 2
    ensures IsLatePayer("active", Some(next), today, graceDays) == Some(true)
    ensures MonthsBehind(next, today) == 0
  {
    LateIffPastGrace("active", next, today, graceDays);
    OrderIsOrdinalOrder(today, next);
  }

  /** Without a due date nobody is late, and the question fails only for a chased sponsorship without a cutoff date. */
  lemma {:induction false} LatenessDefined(status: string, next: Option<Day>, today: Day, graceDays: int)
    ensures next.None? ==> IsLatePayer(status, next, today, graceDays) == Some(false)
    ensures IsLatePayer(status, next, today, graceDays).None?
            <==> (status == "active" || status == "overdue") && next.Some?
                 && !(1 <= Ordinal(today) - graceDays <= LAST_ORDINAL)
  {
  }

  /** Lateness is exactly: chased status, and due more than graceDays before today. */
  lemma {:induction false} LateIffPastGrace(status: string, next: Day, today: Day, graceDays: int)
    requires LatePaymentCutoff(today, graceDays).Some?
    ensures IsLatePayer(status, Some(next), today, graceDays) == Some(true)
            <==> (status == "active" || status == "overdue") && Ordinal(today) - Ordinal(next) > graceDays
  {
    OrderIsOrdinalOrder(next, LatePaymentCutoff(today, graceDays).value);
  }
}
