/**
 Reporting cadence (backend/app/core/reporting.py): one pair of cutoff dates classifies a
 child row by row, and the set-based reports compare against the same two dates.
 */
module Reporting {
  import opened Options
  import opened Calendar

  datatype DueStatus = OnTrack | DueSoon | Overdue

  const DEFAULT_REPORT_CADENCE_DAYS := 90
  const REPORT_OVERDUE_GRACE_DAYS := 7

  datatype Cutoffs = Cutoffs(onTrackFloor: Day, dueSoonFloor: Day)

  /** `due_status_cutoffs`, with None for the OverflowError of either subtraction. */
  function DueStatusCutoffs(cadence: int, today: Day, grace: int): Option<Cutoffs> {
    var onTrackFloor := PlusDays(today, -cadence);
    if onTrackFloor.None? then None
    else
      var dueSoonFloor := PlusDays(onTrackFloor.value, -grace);
      if dueSoonFloor.None? then None else Some(Cutoffs(onTrackFloor.value, dueSoonFloor.value))
  }

  /** `report_due_status`; a child who never reported is classified before any date is computed. */
  function ReportDueStatus(last: Option<Day>, cadence: int, today: Day, grace: int): Option<DueStatus> {
    if last.None? then Some(Overdue)
    else
      var cutoffs := DueStatusCutoffs(cadence, today, grace);
      if cutoffs.None? then None
      else if AtMost(cutoffs.value.onTrackFloor, last.value) then Some(OnTrack)
      else if AtMost(cutoffs.value.dueSoonFloor, last.value) then Some(DueSoon)
      else Some(Overdue)
  }

  /** `effective_cadence`: an unset or zero cadence falls back to the default. */
  function EffectiveCadence(cadence: Option<int>): int {
    if cadence.None? || cadence.value == 0 then DEFAULT_REPORT_CADENCE_DAYS else cadence.value
  }

  // ── Set-based counts, as the reports' SQL filters take them ──────────

  predicate CountsAs(status: DueStatus, last: Option<Day>, c: Cutoffs) {
    match status
    case OnTrack => last.Some? && AtMost(c.onTrackFloor, last.value)
    case DueSoon => last.Some? && AtMost(c.dueSoonFloor, last.value) && Before(last.value, c.onTrackFloor)
    case Overdue => last.None? || Before(last.value, c.dueSoonFloor)
  }

  function CountByCutoffs(rows: seq<Option<Day>>, status: DueStatus, c: Cutoffs): nat {
    if rows == [] then 0
    else (if CountsAs(status, rows[0], c) then 1 else 0) + CountByCutoffs(rows[1..], status, c)
  }

  function CountByRow(rows: seq<Option<Day>>, status: DueStatus, cadence: int, today: Day, grace: int): nat {
    if rows == [] then 0
    else (if ReportDueStatus(rows[0], cadence, today, grace) == Some(status) then 1 else 0)
         + CountByRow(rows[1..], status, cadence, today, grace)
  }

  /** With a non-negative grace the two ways of counting agree and cover every row once. */
  lemma {:induction false} CountsAgree(rows: seq<Option<Day>>, cadence: int, today: Day, grace: int)
    requires DueStatusCutoffs(cadence, today, grace).Some? && grace >= 0
    ensures var c := DueStatusCutoffs(cadence, today, grace).value;
            && (forall s: DueStatus :: CountByCutoffs(rows, s, c) == CountByRow(rows, s, cadence, today, grace))
            && CountByCutoffs(rows, OnTrack, c) + CountByCutoffs(rows, DueSoon, c) + CountByCutoffs(rows, Overdue, c)
               == |rows|
  {
    if rows != [] {
      var c := DueStatusCutoffs(cadence, today, grace).value;
      CountsAgree(rows[1..], cadence, today, grace);
      RowAgrees(rows[0], cadence, today, grace);
      forall s: DueStatus
        ensures CountByCutoffs(rows, s, c) == CountByRow(rows, s, cadence, today, grace)
      {
      }
    }
  }

  lemma {:induction false} RowAgrees(last: Option<Day>, cadence: int, today: Day, grace: int)
    requires DueStatusCutoffs(cadence, today, grace).Some? && grace >= 0
    ensures forall s: DueStatus ::
              CountsAs(s, last, DueStatusCutoffs(cadence, today, grace).value)
              <==> ReportDueStatus(last, cadence, today, grace) == Some(s)
  {
    var c := DueStatusCutoffs(cadence, today, grace).value;
    OrderIsOrdinalOrder(c.onTrackFloor, c.dueSoonFloor);
    if last.Some? {
      OrderIsOrdinalOrder(last.value, c.dueSoonFloor);
      OrderIsOrdinalOrder(last.value, c.onTrackFloor);
    }
  }

  ghost predicate CountsMatch(rows: seq<Option<Day>>, cadence: int, today: Day, grace: int)
    requires DueStatusCutoffs(cadence, today, grace).Some?
  {
    forall s: DueStatus ::
      CountByCutoffs(rows, s, DueStatusCutoffs(cadence, today, grace).value)
      == CountByRow(rows, s, cadence, today, grace)
  }

  /**
   Both functions take any grace. A negative one puts the second cutoff after the first, and a
   child last seen in between is then on track by row but also counted as overdue by the cutoffs.
   */
  lemma {:induction false} CountsAgreeIff(cadence: int, today: Day, grace: int)
    requires DueStatusCutoffs(cadence, today, grace).Some?
    ensures (forall rows :: CountsMatch(rows, cadence, today, grace)) <==> grace >= 0
  {
    if grace >= 0 {
      forall rows
        ensures CountsMatch(rows, cadence, today, grace)
      {
        CountsAgree(rows, cadence, today, grace);
      }
    } else {
      var c := DueStatusCutoffs(cadence, today, grace).value;
      OrderIsOrdinalOrder(c.onTrackFloor, c.dueSoonFloor);
      CountedTwice(c.onTrackFloor, cadence, today, grace);
    }
  }

  lemma {:induction false} CountedTwice(last: Day, cadence: int, today: Day, grace: int)
    requires DueStatusCutoffs(cadence, today, grace).Some?
    requires ReportDueStatus(Some(last), cadence, today, grace) == Some(OnTrack)
    requires CountsAs(Overdue, Some(last), DueStatusCutoffs(cadence, today, grace).value)
    ensures !CountsMatch([Some(last)], cadence, today, grace)
  {
    var rows, c := [Some(last)], DueStatusCutoffs(cadence, today, grace).value;
    assert rows[1..] == [];
    assert CountByCutoffs(rows, Overdue, c) == 1 && CountByRow(rows, Overdue, cadence, today, grace) == 0;
  }

  /** The status read off the days since the last report, with the cadence and the grace as the two switching points. */
  lemma {:induction false} StatusByDaysSince(last: Day, cadence: int, today: Day, grace: int)
    requires DueStatusCutoffs(cadence, today, grace).Some?
    ensures ReportDueStatus(Some(last), cadence, today, grace)
            == Some(var since := Ordinal(today) - Ordinal(last);
                    if since <= cadence then OnTrack else if since <= cadence + grace then DueSoon else Overdue)
  {
    var c := DueStatusCutoffs(cadence, today, grace).value;
    OrderIsOrdinalOrder(c.onTrackFloor, last);
    OrderIsOrdinalOrder(c.dueSoonFloor, last);
  }

  /** An organisation without a cadence, or with 0, reports every 90 days: due soon for 7 more, then overdue. */
  lemma {:induction false} OrganisationStatus(stored: Option<int>, last: Day, today: Day)
    requires DueStatusCutoffs(EffectiveCadence(stored), today, REPORT_OVERDUE_GRACE_DAYS).Some?
    ensures var since := Ordinal(today) - Ordinal(last);
            var status := ReportDueStatus(Some(last), EffectiveCadence(stored), today, REPORT_OVERDUE_GRACE_DAYS);
            if stored.None? || stored.value == 0
            then (status == Some(OnTrack) <==> since <= 90) && (status == Some(Overdue) <==> since > 97)
            else (status == Some(OnTrack) <==> since <= stored.value)
                 && (status == Some(Overdue) <==> since > stored.value + 7)
  {
    StatusByDaysSince(last, EffectiveCadence(stored), today, REPORT_OVERDUE_GRACE_DAYS);
  }

  function Severity(s: DueStatus): nat {
    match s case OnTrack => 0 case DueSoon => 1 case Overdue => 2
  }

  /** Without a new report a child only moves on_track, due_soon, overdue as days pass. */
  lemma {:induction false} StatusOnlyWorsens(last: Option<Day>, cadence: int, today: Day, later: Day, grace: int)
    requires AtMost(today, later)
    requires DueStatusCutoffs(cadence, today, grace).Some? && DueStatusCutoffs(cadence, later, grace).Some?
    ensures Severity(ReportDueStatus(last, cadence, today, grace).value)
            <= Severity(ReportDueStatus(last, cadence, later, grace).value)
  {
    if last.Some? {
      StatusByDaysSince(last.value, cadence, today, grace);
      StatusByDaysSince(last.value, cadence, later, grace);
      OrderIsOrdinalOrder(today, later);
    }
  }
}
