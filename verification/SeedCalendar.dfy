/**
 Month helpers of the two demo seeds: `_add_months`, `_months_between` and the two versions
 of `_month_window` (floor division in backend/scripts/seed_demo.py, a while loop in
 backend/app/scripts/demo_seed.py).
 */
module SeedCalendar {
  import opened Options
  import opened Calendar
  import opened Arrears

  /** `_add_months`: the same day of another month, clamped to that month's length; None for its ValueError. */
  function AddMonths(anchor: Day, months: int): Option<Day> {
    var total := anchor.month - 1 + months;
    var year := anchor.year + total / 12;
    var month := total % 12 + 1;
    MakeDate(year, month, Min(anchor.day, DaysInMonth(year, month)))
  }

  function MonthsBetween(start: Day, end: Day): int {
    Max(0, (end.year - start.year) * 12 + (end.month - start.month))
  }

  predicate InCalendar(monthIndex: int) {
    12 * MIN_YEAR <= monthIndex <= LAST_MONTH
  }

  lemma {:induction false} IndexSplit(i: int)
    ensures InCalendar(i) <==> MIN_YEAR <= i / 12 <= MAX_YEAR
  {
  }

  lemma {:induction false} YearAndMonth(year: int, month: int, i: int)
    requires 12 * year + month - 1 == i && 1 <= month <= 12
    ensures year == i / 12 && month == i % 12 + 1
  {
  }

  /** It moves the month index by exactly `months`, and fails exactly when that leaves the calendar. */
  lemma {:induction false} AddMonthsIndex(d: Day, months: int)
    ensures AddMonths(d, months).Some? <==> InCalendar(MonthIndex(d) + months)
    ensures AddMonths(d, months).Some? ==>
              var e := AddMonths(d, months).value;
              MonthIndex(e) == MonthIndex(d) + months && e.day == Min(d.day, DaysInMonth(e.year, e.month))
  {
    var total := d.month - 1 + months;
    assert total == 12 * (total / 12) + total % 12;
    IndexSplit(MonthIndex(d) + months);
    YearAndMonth(d.year + total / 12, total % 12 + 1, MonthIndex(d) + months);
  }

  /** Strictly increasing in the number of months, even where days are clamped. */
  lemma {:induction false} AddMonthsIncreasing(d: Day, m: int, n: int)
    requires m < n
    requires AddMonths(d, m).Some? && AddMonths(d, n).Some?
    ensures Before(AddMonths(d, m).value, AddMonths(d, n).value)
  {
    AddMonthsIndex(d, m);
    AddMonthsIndex(d, n);
    OrderByMonthIndex(AddMonths(d, m).value, AddMonths(d, n).value);
  }

  /** `months_elapsed` inverts `_add_months`: the end-of-month clamp never costs a month. */
  lemma {:induction false} ElapsedAfterAddMonths(d: Day, m: nat)
    requires AddMonths(d, m).Some?
    ensures MonthsElapsed(d, AddMonths(d, m).value) == m
  {
    var e := AddMonths(d, m).value;
    AddMonthsIndex(d, m);
    OrderByMonthIndex(d, e);
    OrderByMonthIndex(e, d);
    RawMonthsByIndex(d, e);
  }

  /**
   Going k months back and k months forward never passes the day it started from, and returns
   to it exactly when the day exists in the month k months back (so always up to day 28).
   */
  lemma {:induction false} BackAndForth(t: Day, k: int)
    requires AddMonths(t, -k).Some?
    ensures var back := AddMonths(t, -k).value;
            && AddMonths(back, k).Some?
            && AtMost(AddMonths(back, k).value, t)
            && (AddMonths(back, k).value == t <==> t.day <= DaysInMonth(back.year, back.month))
  {
    var back := AddMonths(t, -k).value;
    AddMonthsIndex(t, -k);
    OrderByMonthIndex(t, t);
    AddMonthsIndex(back, k);
    var forth := AddMonths(back, k).value;
    OrderByMonthIndex(forth, t);
  }

  // ── Month windows ────────────────────────────────────────────────────

  datatype Window = Window(first: Day, last: Day)

  /** The month with index i, from its first to its last day. */
  function WholeMonth(i: int): Window
    requires InCalendar(i)
  {
    IndexSplit(i);
    var (year, month) := (i / 12, i % 12 + 1);
    Window(Date(year, month, 1), Date(year, month, DaysInMonth(year, month)))
  }

  /** `_month_window` of scripts/seed_demo.py. */
  function MonthWindow(monthsAgo: int, today: Day): Option<Window> {
    var first := AddMonths(Date(today.year, today.month, 1), -monthsAgo);
    if first.None? then None
    else
      var f := first.value;
      var last := MakeDate(f.year, f.month, DaysInMonth(f.year, f.month));
      if last.None? then None else Some(Window(f, last.value))
  }

  lemma {:induction false} MonthWindowIsWholeMonth(monthsAgo: int, today: Day)
    ensures var i := MonthIndex(today) - monthsAgo;
            MonthWindow(monthsAgo, today) == if InCalendar(i) then Some(WholeMonth(i)) else None
  {
    var start: Day := Date(today.year, today.month, 1);
    AddMonthsIndex(start, -monthsAgo);
    if InCalendar(MonthIndex(start) - monthsAgo) {
      var f := AddMonths(start, -monthsAgo).value;
      YearAndMonth(f.year, f.month, MonthIndex(today) - monthsAgo);
    }
  }

  /**
   What the looping version computes. It moves months back one year at a time, so it cannot
   handle a window after the current year, and it takes the last day from the first day of
   the following month, which does not exist for December 9999.
   */
  function LoopedWindow(monthsAgo: int, today: Day): Option<Window> {
    var i := MonthIndex(today) - monthsAgo;
    if today.month - monthsAgo <= 12 && InCalendar(i) && i < LAST_MONTH then Some(WholeMonth(i)) else None
  }

  /** `_month_window` of app/scripts/demo_seed.py. */
  method MonthWindowByLoop(monthsAgo: int, today: Day) returns (window: Option<Window>)
    ensures window == LoopedWindow(monthsAgo, today)
  {
    var year, month := today.year, today.month - monthsAgo;
    while month <= 0
      invariant 12 * year + month - 1 == MonthIndex(today) - monthsAgo
      invariant month <= Max(12, today.month - monthsAgo)
      invariant month > 12 ==> month == today.month - monthsAgo
      decreases -month
    {
      month := month + 12;
      year := year - 1;
    }
    var start := MakeDate(year, month, 1);
    WindowMonth(year, month, MonthIndex(today) - monthsAgo);
    if start.None? {
      return None;
    }
    var (nextYear, nextMonth) := if month == 12 then (year + 1, 1) else (year, month + 1);
    var following := MakeDate(nextYear, nextMonth, 1);
    if following.None? {
      return None;
    }
    MinusOneDay(following.value);
    DayBeforeNextMonth(start.value, following.value);
    var end := PlusDays(following.value, -1);
    if end.None? {
      return None;
    }
    return Some(Window(start.value, end.value));
  }

  /** The day before the first of the following month is the last of this one. */
  lemma {:induction false} DayBeforeNextMonth(start: Day, following: Day)
    requires following.day == 1 && MonthIndex(following) == MonthIndex(start) + 1
    ensures PreviousDay(following) == Some(Date(start.year, start.month, DaysInMonth(start.year, start.month)))
  {
  }

  lemma {:induction false} WindowMonth(year: int, month: int, i: int)
    requires 12 * year + month - 1 == i && month >= 1
    ensures MakeDate(year, month, 1).Some? <==> month <= 12 && InCalendar(i)
    ensures MakeDate(year, month, 1).Some? ==>
              WholeMonth(i) == Window(Date(year, month, 1), Date(year, month, DaysInMonth(year, month)))
  {
    if month <= 12 {
      YearAndMonth(year, month, i);
      IndexSplit(i);
    }
  }

  /** The two versions agree except for windows after the current year and for December 9999. */
  lemma {:induction false} WindowsAgreeIff(monthsAgo: int, today: Day)
    ensures LoopedWindow(monthsAgo, today) == MonthWindow(monthsAgo, today)
            <==> (today.month - monthsAgo <= 12 && MonthIndex(today) - monthsAgo != LAST_MONTH)
                 || MonthIndex(today) - monthsAgo > LAST_MONTH
  {
    MonthWindowIsWholeMonth(monthsAgo, today);
  }

  /** Consecutive windows tile the calendar: each ends the day before the next begins. */
  lemma {:induction false} WindowsTile(monthsAgo: int, today: Day)
    requires MonthWindow(monthsAgo, today).Some? && MonthWindow(monthsAgo - 1, today).Some?
    ensures NextDay(MonthWindow(monthsAgo, today).value.last) == Some(MonthWindow(monthsAgo - 1, today).value.first)
    ensures monthsAgo == 0 ==>
              AtMost(MonthWindow(0, today).value.first, today) && AtMost(today, MonthWindow(0, today).value.last)
  {
    MonthWindowIsWholeMonth(monthsAgo, today);
    MonthWindowIsWholeMonth(monthsAgo - 1, today);
    var i := MonthIndex(today) - monthsAgo;
    YearAndMonth(today.year, today.month, MonthIndex(today));
    if i % 12 == 11 {
      YearAndMonth(i / 12 + 1, 1, i + 1);
    } else {
      YearAndMonth(i / 12, i % 12 + 2, i + 1);
    }
  }
}
