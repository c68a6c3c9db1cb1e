/**
 Python's proleptic Gregorian `date`: years 1 to 9999, ordered lexicographically, with
 day arithmetic (`date + timedelta`) by single steps. The ordinal gives dates a second,
 independent order; the two are shown to agree.
 */
module Calendar {
  import opened Options

  datatype RawDate = Date(year: int, month: int, day: int)

  const MIN_YEAR := 1
  const MAX_YEAR := 9999

  predicate IsLeap(y: int) {
    y % 4 == 0 && (y % 100 != 0 || y % 400 == 0)
  }

  /** calendar.monthrange(y, m)[1] */
  function DaysInMonth(y: int, m: int): (n: int)
    ensures 28 <= n <= 31
  {
    if m == 2 then (if IsLeap(y) then 29 else 28)
    else if m == 4 || m == 6 || m == 9 || m == 11 then 30
    else 31
  }

  predicate IsDate(y: int, m: int, d: int) {
    MIN_YEAR <= y <= MAX_YEAR && 1 <= m <= 12 && 1 <= d <= DaysInMonth(y, m)
  }

  type Day = d: RawDate | IsDate(d.year, d.month, d.day) witness Date(1, 1, 1)

  /** The `date(y, m, d)` constructor, with None for its ValueError. */
  function MakeDate(y: int, m: int, d: int): Option<Day> {
    if IsDate(y, m, d) then Some(Date(y, m, d)) else None
  }

  predicate Before(a: Day, b: Day) {
    a.year < b.year
    || (a.year == b.year && (a.month < b.month || (a.month == b.month && a.day < b.day)))
  }

  predicate AtMost(a: Day, b: Day) {
    a == b || Before(a, b)
  }

  function Earlier(a: Day, b: Day): Day {
    if Before(b, a) then b else a
  }

  function Later(a: Day, b: Day): Day {
    if Before(a, b) then b else a
  }

  /** Months since year 0; dates compare by this first and by day second. */
  function MonthIndex(d: Day): int {
    12 * d.year + d.month - 1
  }

  lemma {:induction false} OrderByMonthIndex(a: Day, b: Day)
    ensures Before(a, b) <==> MonthIndex(a) < MonthIndex(b) || (MonthIndex(a) == MonthIndex(b) && a.day < b.day)
    ensures MonthIndex(a) == MonthIndex(b) ==> a.year == b.year && a.month == b.month
  {
  }

  function YearLength(y: int): int {
    if IsLeap(y) then 366 else 365
  }

  function DaysBeforeYear(y: int): (n: int)
    requires y >= 1
    ensures n >= 365 * (y - 1)
    decreases y
  {
    if y == 1 then 0 else DaysBeforeYear(y - 1) + YearLength(y - 1)
  }

  function DaysBeforeMonth(y: int, m: int): (n: int)
    requires 1 <= m <= 13
    ensures n >= 28 * (m - 1)
    decreases m
  {
    if m == 1 then 0 else DaysBeforeMonth(y, m - 1) + DaysInMonth(y, m - 1)
  }

  /** date.toordinal(): 1 for 1 January of year 1. */
  function Ordinal(d: Day): int {
    DaysBeforeYear(d.year) + DaysBeforeMonth(d.year, d.month) + d.day
  }

  lemma {:induction false} MonthsFillYear(y: int)
    ensures DaysBeforeMonth(y, 13) == YearLength(y)
  {
    assert DaysBeforeMonth(y, 3) == 31 + DaysInMonth(y, 2);
    assert DaysBeforeMonth(y, 5) == 92 + DaysInMonth(y, 2);
    assert DaysBeforeMonth(y, 7) == 153 + DaysInMonth(y, 2);
    assert DaysBeforeMonth(y, 9) == 215 + DaysInMonth(y, 2);
    assert DaysBeforeMonth(y, 11) == 276 + DaysInMonth(y, 2);
  }

  function ClosedForm(y: int): int {
    365 * (y - 1) + (y - 1) / 4 - (y - 1) / 100 + (y - 1) / 400
  }

  lemma {:induction false} ClosedFormStep(y: int)
    ensures ClosedForm(y + 1) == ClosedForm(y) + YearLength(y)
  {
    QuotientStep(y, 4);
    QuotientStep(y, 100);
    QuotientStep(y, 400);
    MultiplesNest(y);
  }

  lemma {:induction false} MultiplesNest(y: int)
    ensures y % 400 == 0 ==> y % 100 == 0
    ensures y % 100 == 0 ==> y % 4 == 0
  {
    if y % 100 == 0 {
      QuotientUnique(y, 4, 25 * (y / 100), 0);
    }
    if y % 400 == 0 {
      QuotientUnique(y, 100, 4 * (y / 400), 0);
    }
  }

  /** The leap-year rule sums to the closed form that date.toordinal() uses. */
  lemma {:induction false} DaysBeforeYearClosedForm(y: int)
    requires y >= 1
    ensures DaysBeforeYear(y) == ClosedForm(y)
    decreases y
  {
    if y > 1 {
      DaysBeforeYearClosedForm(y - 1);
      ClosedFormStep(y - 1);
    }
  }

  lemma {:induction false} QuotientStep(y: int, k: int)
    requires k > 0
    ensures y / k == (y - 1) / k + if y % k == 0 then 1 else 0
  {
    var q, r := (y - 1) / k, (y - 1) % k;
    assert y - 1 == k * q + r;
    if r + 1 < k {
      QuotientUnique(y, k, q, r + 1);
    } else {
      assert y == k * (q + 1) + 0;
      QuotientUnique(y, k, q + 1, 0);
    }
  }

  lemma {:induction false} QuotientUnique(n: int, k: int, q: int, r: int)
    requires k > 0 && n == k * q + r && 0 <= r < k
    ensures n / k == q && n % k == r
  {
    var d := n / k - q;
    assert k * d == r - n % k;
    MultipleApart(k, d);
  }

  lemma {:induction false} MultipleApart(k: int, d: int)
    requires k > 0
    ensures d >= 1 ==> k * d >= k
    ensures d <= -1 ==> k * d <= -k
  {
  }

  lemma {:induction false} YearsOrdered(y: int, z: int)
    requires 1 <= y <= z
    ensures DaysBeforeYear(y) + (if y < z then YearLength(y) else 0) <= DaysBeforeYear(z)
    decreases z
  {
    if y < z {
      YearsOrdered(y, z - 1);
    }
  }

  lemma {:induction false} MonthsOrdered(y: int, m: int, n: int)
    requires 1 <= m <= n <= 13
    ensures DaysBeforeMonth(y, m) + (if m < n then DaysInMonth(y, m) else 0) <= DaysBeforeMonth(y, n)
    decreases n
  {
    if m < n {
      MonthsOrdered(y, m, n - 1);
    }
  }

  lemma {:induction false} BeforeRaisesOrdinal(a: Day, b: Day)
    requires Before(a, b)
    ensures Ordinal(a) < Ordinal(b)
  {
    if a.year < b.year {
      YearsOrdered(a.year, b.year);
      MonthsFillYear(a.year);
      MonthsOrdered(a.year, a.month, 13);
      MonthsOrdered(b.year, 1, b.month);
    } else if a.month < b.month {
      MonthsOrdered(a.year, a.month, b.month);
    }
  }

  /** The calendar order is the order of ordinals, and an ordinal names one day. */
  lemma {:induction false} OrderIsOrdinalOrder(a: Day, b: Day)
    ensures Before(a, b) <==> Ordinal(a) < Ordinal(b)
    ensures a == b <==> Ordinal(a) == Ordinal(b)
  {
    if Before(a, b) {
      BeforeRaisesOrdinal(a, b);
    } else if Before(b, a) {
      BeforeRaisesOrdinal(b, a);
    }
  }

  function NextDay(d: Day): Option<Day> {
    if d.day < DaysInMonth(d.year, d.month) then MakeDate(d.year, d.month, d.day + 1)
    else if d.month < 12 then MakeDate(d.year, d.month + 1, 1)
    else MakeDate(d.year + 1, 1, 1)
  }

  function PreviousDay(d: Day): Option<Day> {
    if d.day > 1 then MakeDate(d.year, d.month, d.day - 1)
    else if d.month > 1 then MakeDate(d.year, d.month - 1, DaysInMonth(d.year, d.month - 1))
    else MakeDate(d.year - 1, 12, 31)
  }

  lemma {:induction false} NextDayOrdinal(d: Day)
    ensures NextDay(d).None? <==> IsLastDay(d)
    ensures NextDay(d).Some? ==> Ordinal(NextDay(d).value) == Ordinal(d) + 1
  {
    if d.month == 12 && d.day == 31 {
      MonthsFillYear(d.year);
      assert DaysBeforeMonth(d.year, 13) == DaysBeforeMonth(d.year, 12) + 31;
    }
  }

  lemma {:induction false} PreviousDayUndone(d: Day)
    ensures PreviousDay(d).None? <==> IsFirstDay(d)
    ensures PreviousDay(d).Some? ==> NextDay(PreviousDay(d).value) == Some(d)
  {
  }

  lemma {:induction false} PreviousDayOrdinal(d: Day)
    ensures PreviousDay(d).None? <==> IsFirstDay(d)
    ensures PreviousDay(d).Some? ==> Ordinal(PreviousDay(d).value) == Ordinal(d) - 1
  {
    PreviousDayUndone(d);
    if PreviousDay(d).Some? {
      NextDayOrdinal(PreviousDay(d).value);
    }
  }

  const LAST_ORDINAL := 3652059
  const LAST_MONTH := 12 * MAX_YEAR + 11

  predicate IsFirstDay(d: Day) {
    d.year <= MIN_YEAR && d.month == 1 && d.day == 1
  }

  predicate IsLastDay(d: Day) {
    d.year >= MAX_YEAR && d.month == 12 && d.day == 31
  }

  lemma {:induction false} FirstOrdinal(d: Day)
    requires IsFirstDay(d)
    ensures Ordinal(d) == 1
  {
  }

  lemma {:induction false} LastOrdinal(d: Day)
    requires IsLastDay(d)
    ensures Ordinal(d) == LAST_ORDINAL
  {
    DaysBeforeYearClosedForm(d.year);
    assert ClosedForm(d.year) == 3651694;
    MonthsFillYear(d.year);
    assert DaysBeforeMonth(d.year, 13) == DaysBeforeMonth(d.year, 12) + DaysInMonth(d.year, 12);
  }

  lemma {:induction false} EveryDayInRange(d: Day)
    ensures 1 <= Ordinal(d) <= LAST_ORDINAL
    ensures Ordinal(d) == 1 <==> IsFirstDay(d)
    ensures Ordinal(d) == LAST_ORDINAL <==> IsLastDay(d)
  {
    if IsFirstDay(d) {
      FirstOrdinal(d);
    }
    var last: Day := Date(MAX_YEAR, 12, 31);
    NotAboveLast(d, last);
  }

  lemma {:induction false} NotAboveLast(d: Day, last: Day)
    requires IsLastDay(last)
    ensures Ordinal(d) <= LAST_ORDINAL
    ensures Ordinal(d) == LAST_ORDINAL <==> IsLastDay(d)
  {
    LastOrdinal(last);
    OrderIsOrdinalOrder(d, last);
  }

  lemma {:induction false} DayWithOrdinal(k: int) returns (d: Day)
    requires 1 <= k <= LAST_ORDINAL
    ensures Ordinal(d) == k
    decreases k
  {
    if k == 1 {
      d := Date(MIN_YEAR, 1, 1);
      FirstOrdinal(d);
    } else {
      var previous := DayWithOrdinal(k - 1);
      assert !IsLastDay(previous) by {
        EveryDayInRange(previous);
      }
      NextDayOrdinal(previous);
      d := NextDay(previous).value;
    }
  }

  predicate HasOrdinal(y: int, m: int, d: int, k: int) {
    IsDate(y, m, d) && Ordinal(Date(y, m, d)) == k
  }

  lemma {:induction false} OneDayPerOrdinal(k: int)
    requires 1 <= k <= LAST_ORDINAL
    ensures exists y, m, d | MIN_YEAR <= y <= MAX_YEAR && 1 <= m <= 12 && 1 <= d <= 31 :: HasOrdinal(y, m, d, k)
    ensures forall y, m, d, y', m', d' | HasOrdinal(y, m, d, k) && HasOrdinal(y', m', d', k) ::
              y == y' && m == m' && d == d'
  {
    var e := DayWithOrdinal(k);
    assert HasOrdinal(e.year, e.month, e.day, k);
    forall y, m, d, y', m', d' | HasOrdinal(y, m, d, k) && HasOrdinal(y', m', d', k)
      ensures y == y' && m == m' && d == d'
    {
      OrderIsOrdinalOrder(Date(y, m, d), Date(y', m', d'));
    }
  }

  /** date.fromordinal() */
  function FromOrdinal(k: int): (e: Day)
    requires 1 <= k <= LAST_ORDINAL
    ensures Ordinal(e) == k
  {
    OneDayPerOrdinal(k);
    var y, m, d :| MIN_YEAR <= y <= MAX_YEAR && 1 <= m <= 12 && 1 <= d <= 31 && HasOrdinal(y, m, d, k);
    Date(y, m, d)
  }

  /** d + timedelta(days=n), with None for the OverflowError outside years 1 to 9999. */
  function PlusDays(d: Day, n: int): (r: Option<Day>)
    ensures r.Some? <==> 1 <= Ordinal(d) + n <= LAST_ORDINAL
    ensures r.Some? ==> Ordinal(r.value) == Ordinal(d) + n
  {
    if 1 <= Ordinal(d) + n <= LAST_ORDINAL then Some(FromOrdinal(Ordinal(d) + n)) else None
  }

  /** Subtracting one day is the previous calendar day. */
  lemma {:induction false} MinusOneDay(d: Day)
    ensures PlusDays(d, -1) == PreviousDay(d)
  {
    EveryDayInRange(d);
    PreviousDayOrdinal(d);
    SameDay(PlusDays(d, -1), PreviousDay(d));
  }

  lemma {:induction false} SameDay(a: Option<Day>, b: Option<Day>)
    requires a.Some? <==> b.Some?
    requires a.Some? ==> Ordinal(a.value) == Ordinal(b.value)
    ensures a == b
  {
    if a.Some? {
      OrderIsOrdinalOrder(a.value, b.value);
    }
  }
}
