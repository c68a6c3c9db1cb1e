/**
 Runs in which random ids and codes never repeat: exactly when a call ends in a 500, and what
 the other answers then are.
 */
module FreshRuns {
  import opened Registration
  import opened Protocol
  import opened ProtocolRuns

  // ── When a step fails ────────────────────────────────────────────────

  predicate EndsIn500(s: State, s': State) {
    |s'.history| == |s.history| + 1
    && s'.history[|s.history|].Settled? && s'.history[|s.history|].verdict.Failed?
  }

  /** A crash, or an insert whose drawn id or code is already taken. */
  predicate Fails(env: Env, s: State, a: Action)
    requires Enabled(env, s, a)
  {
    a.Crash?
    || (a.FlushFamily? && AnyFamilyClash(s.db.families, BuildFamily(s.calls[a.c].req, s.calls[a.c].draw)))
    || (a.FlushOrphan? && AnyRowClash(s.db.orphans, OrphanOf(env, s.calls[a.c])))
  }

  lemma {:induction false} FailsExactly(env: Env, s: State, a: Action)
    requires Enabled(env, s, a)
    ensures EndsIn500(s, Apply(env, s, a)) <==> Fails(env, s, a)
  {
  }

  // ── Fresh draws ──────────────────────────────────────────────────────

  predicate DrawsApart(d: Draw, e: Draw) {
    d.orphanId != e.orphanId && d.orphanCode != e.orphanCode
    && d.familyId != e.familyId && d.familyCode != e.familyCode
  }

  /** No stored row has an id or a code of the draw. */
  predicate Unused(db: Db, d: Draw) {
    (forall i :: 0 <= i < |db.orphans| ==> db.orphans[i].id != d.orphanId && db.orphans[i].code != d.orphanCode)
    && (forall i :: 0 <= i < |db.families| ==> db.families[i].id != d.familyId && db.families[i].code != d.familyCode)
  }

  /** What the arrivals of a run draw is unused and never drawn twice. */
  predicate FreshDraws(db: Db, run: seq<Action>) {
    (forall i :: 0 <= i < |run| && run[i].Arrive? ==> Unused(db, run[i].draw))
    && (forall i, j :: 0 <= i < j < |run| && run[i].Arrive? && run[j].Arrive? ==>
          DrawsApart(run[i].draw, run[j].draw))
  }

  /** The same of a state in mid-run: draws of unfinished calls and of arrivals to come. */
  ghost predicate Fresh(s: State, rest: seq<Action>) {
    && FreshDraws(s.db, rest)
    && (forall c :: Unfinished(s, c) ==> Unused(s.db, s.calls[c].draw))
    && (forall c, d :: Unfinished(s, c) && Unfinished(s, d) && c != d ==> DrawsApart(s.calls[c].draw, s.calls[d].draw))
    && (forall c, i :: Unfinished(s, c) && 0 <= i < |rest| && rest[i].Arrive? ==>
          DrawsApart(s.calls[c].draw, rest[i].draw))
  }

  lemma {:induction false} InsertKeepsUnused(env: Env, db: Db, req: Request, d: Draw, e: Draw)
    requires Unused(db, e) && DrawsApart(d, e)
    ensures Unused(Insert(env, db, req, d), e)
  {
  }

  lemma {:induction false} DeleteKeepsUnused(db: Db, org: nat, user: nat, id: nat, e: Draw)
    requires Unused(db, e)
    ensures Unused(SoftDelete(db, org, user, id), e)
  {
  }

  /** Without its first action, a fresh rest stays fresh over rows that keep its draws unused. */
  lemma {:induction false} FreshTail(db: Db, db': Db, a: Action, rest: seq<Action>)
    requires FreshDraws(db, [a] + rest)
    requires forall i :: 0 <= i < |rest| && rest[i].Arrive? ==> Unused(db', rest[i].draw)
    ensures FreshDraws(db', rest)
  {
    var all := [a] + rest;
    forall i, j | 0 <= i < j < |rest| && rest[i].Arrive? && rest[j].Arrive?
      ensures DrawsApart(rest[i].draw, rest[j].draw)
    {
      assert all[i + 1] == rest[i] && all[j + 1] == rest[j];
    }
  }

  /** The draws that still matter after a step were unused before it, and apart from the one it may have stored. */
  lemma {:induction false} StepKeepsUnused(env: Env, s: State, a: Action, e: Draw)
    requires Enabled(env, s, a) && Unused(s.db, e)
    requires a.Commit? ==> DrawsApart(s.calls[a.c].draw, e)
    ensures Unused(Apply(env, s, a).db, e)
  {
    if a.Commit? {
      InsertKeepsUnused(env, s.db, s.calls[a.c].req, s.calls[a.c].draw, e);
    } else if a.Delete? {
      DeleteKeepsUnused(s.db, a.org, a.user, a.id, e);
    } else {
      OnlyCommitsWrite(env, s, a);
    }
  }

  /** A call unfinished after a step was unfinished before it with the same draw, or has just arrived. */
  lemma {:induction false} StillUnfinished(env: Env, s: State, a: Action, c: nat)
    requires Enabled(env, s, a) && Unfinished(Apply(env, s, a), c)
    ensures !a.Commit? || a.c != c
    ensures (Unfinished(s, c) && Apply(env, s, a).calls[c].draw == s.calls[c].draw)
            || (a.Arrive? && a.c == c && Apply(env, s, a).calls[c].draw == a.draw && c !in s.calls)
  {
  }

  lemma {:induction false} RestStaysFresh(env: Env, s: State, a: Action, rest: seq<Action>)
    requires Fresh(s, [a] + rest) && Enabled(env, s, a)
    ensures FreshDraws(Apply(env, s, a).db, rest)
  {
    var all, s' := [a] + rest, Apply(env, s, a);
    forall i | 0 <= i < |rest| && rest[i].Arrive?
      ensures Unused(s'.db, rest[i].draw)
    {
      assert all[i + 1] == rest[i];
      StepKeepsUnused(env, s, a, rest[i].draw);
    }
    FreshTail(s.db, s'.db, a, rest);
  }

  lemma {:induction false} CallStaysFresh(env: Env, s: State, a: Action, rest: seq<Action>, c: nat)
    requires Fresh(s, [a] + rest) && Enabled(env, s, a) && Unfinished(Apply(env, s, a), c)
    ensures Unused(Apply(env, s, a).db, Apply(env, s, a).calls[c].draw)
    ensures forall i :: 0 <= i < |rest| && rest[i].Arrive? ==>
              DrawsApart(Apply(env, s, a).calls[c].draw, rest[i].draw)
  {
    var all, s' := [a] + rest, Apply(env, s, a);
    StillUnfinished(env, s, a, c);
    assert all[0] == a;
    StepKeepsUnused(env, s, a, s'.calls[c].draw);
    forall i | 0 <= i < |rest| && rest[i].Arrive?
      ensures DrawsApart(s'.calls[c].draw, rest[i].draw)
    {
      assert all[i + 1] == rest[i];
    }
  }

  lemma {:induction false} CallsStayApart(env: Env, s: State, a: Action, rest: seq<Action>, c: nat, d: nat)
    requires Fresh(s, [a] + rest) && Enabled(env, s, a) && c != d
    requires Unfinished(Apply(env, s, a), c) && Unfinished(Apply(env, s, a), d)
    ensures DrawsApart(Apply(env, s, a).calls[c].draw, Apply(env, s, a).calls[d].draw)
  {
    assert ([a] + rest)[0] == a;
    StillUnfinished(env, s, a, c);
    StillUnfinished(env, s, a, d);
  }

  lemma {:induction false} StepKeepsFresh(env: Env, s: State, a: Action, rest: seq<Action>)
    requires Fresh(s, [a] + rest) && Enabled(env, s, a)
    ensures Fresh(Apply(env, s, a), rest)
  {
    var s' := Apply(env, s, a);
    RestStaysFresh(env, s, a, rest);
    forall c | Unfinished(s', c)
      ensures Unused(s'.db, s'.calls[c].draw)
      ensures forall i :: 0 <= i < |rest| && rest[i].Arrive? ==> DrawsApart(s'.calls[c].draw, rest[i].draw)
    {
      CallStaysFresh(env, s, a, rest, c);
    }
    forall c, d | Unfinished(s', c) && Unfinished(s', d) && c != d
      ensures DrawsApart(s'.calls[c].draw, s'.calls[d].draw)
    {
      CallsStayApart(env, s, a, rest, c, d);
    }
  }

  /** With unused draws only a crash ends a call in a 500. */
  lemma {:induction false} OnlyCrashesFail(env: Env, s: State, a: Action)
    requires Enabled(env, s, a)
    requires forall c :: Unfinished(s, c) ==> Unused(s.db, s.calls[c].draw)
    ensures Fails(env, s, a) <==> a.Crash?
  {
    if a.FlushFamily? || a.FlushOrphan? {
      assert Unfinished(s, a.c);
    }
  }

  predicate FailedCall(s: State, c: nat) {
    c in s.calls && s.calls[c].phase.Done? && s.calls[c].phase.verdict.Failed?
  }

  lemma {:induction false} StepFailures(env: Env, s: State, a: Action, c: nat)
    requires Enabled(env, s, a)
    requires Fails(env, s, a) <==> a.Crash?
    ensures FailedCall(Apply(env, s, a), c) <==> FailedCall(s, c) || a == Crash(c)
  {
  }

  lemma {:induction false} RunFailures(env: Env, s: State, run: seq<Action>, c: nat)
    requires Fresh(s, run) && Execute(env, s, run).Some?
    ensures FailedCall(Execute(env, s, run).value, c) <==> FailedCall(s, c) || Crash(c) in run
    decreases |run|
  {
    if run != [] {
      var a, rest := run[0], run[1..];
      assert run == [a] + rest;
      OnlyCrashesFail(env, s, a);
      StepFailures(env, s, a, c);
      StepKeepsFresh(env, s, a, rest);
      RunFailures(env, Apply(env, s, a), rest, c);
    }
  }

  // ── Main results ─────────────────────────────────────────────────────

  lemma {:induction false} EventOfCall(history: seq<Event>, j: nat)
    requires j < |history| && history[j].Settled?
    ensures history[j] in EventsOf(history, history[j].call)
  {
    var n := |history| - 1;
    if j < n {
      EventOfCall(history[..n], j);
      assert history[..n][j] == history[j];
    }
  }

  lemma {:induction false} EventIsAnswer(s: State, j: nat)
    requires HistoryMatches(s) && j < |s.history| && s.history[j].Settled?
    ensures var e := s.history[j];
            e.call in s.calls && s.calls[e.call].phase == Done(e.verdict)
  {
    EventOfCall(s.history, j);
    assert EventsOf(s.history, s.history[j].call) == AnswerOf(s, s.history[j].call);
  }

  /** In every run with fresh draws a call ends in a 500 exactly if it crashed. */
  lemma {:induction false} FailsIffCrashed(env: Env, db0: Db, run: seq<Action>, j: nat)
    requires Unique(env, db0) && FreshDraws(db0, run) && Execute(env, Init(db0), run).Some?
    requires var history := Execute(env, Init(db0), run).value.history;
             j < |history| && history[j].Settled?
    ensures var e := Execute(env, Init(db0), run).value.history[j];
            e.verdict.Failed? <==> Crash(e.call) in run
  {
    var s := Execute(env, Init(db0), run).value;
    Linearisable(env, db0, run);
    EventIsAnswer(s, j);
    RunFailures(env, Init(db0), run, s.history[j].call);
  }

  /** Every call that does not crash is answered as a serial create at its place in the history would be. */
  lemma {:induction false} EveryAnswerIsSerial(env: Env, db0: Db, run: seq<Action>, j: nat)
    requires Unique(env, db0) && FreshDraws(db0, run) && Execute(env, Init(db0), run).Some?
    requires var history := Execute(env, Init(db0), run).value.history;
             j < |history| && history[j].Settled? && Crash(history[j].call) !in run
    ensures var history := Execute(env, Init(db0), run).value.history;
            Status(history[j].verdict)
            == Status(Serial(env, Replay(env, db0, history[..j]), history[j].req, history[j].draw).verdict)
            != 500
  {
    var history := Execute(env, Init(db0), run).value.history;
    FailsIffCrashed(env, db0, run, j);
    Linearisable(env, db0, run);
    assert SameAnswer(env, Replay(env, db0, history[..j]), history[j]);
  }

  /**
   In every run with fresh draws, deletions included: a call that does not crash is answered
   409 exactly when it is valid and, at its place in the serial order, a live row holds its
   name key or its national id.
   */
  lemma {:induction false} ConflictExactly(env: Env, db0: Db, run: seq<Action>, j: nat)
    requires Unique(env, db0) && FreshDraws(db0, run) && Execute(env, Init(db0), run).Some?
    requires var history := Execute(env, Init(db0), run).value.history;
             j < |history| && history[j].Settled? && Crash(history[j].call) !in run
    ensures var history := Execute(env, Init(db0), run).value.history;
            var rows := Replay(env, db0, history[..j]).orphans;
            var o := BuildOrphan(env, history[j].req, history[j].draw);
            Status(history[j].verdict) == 409
            <==> Valid(env, history[j].req) && (AnyNameClash(env, rows, o) || AnyIdClash(rows, o))
  {
    FailsIffCrashed(env, db0, run, j);
    AnsweredConflictIff(env, db0, run, j);
  }

  /**
   A loser on either index always gets a 409: a valid call that does not crash and is decided
   after a success its row collides with, while nothing is deleted.
   */
  lemma {:induction false} LoserGetsConflict(env: Env, db0: Db, run: seq<Action>, i: nat, j: nat)
    requires Unique(env, db0) && FreshDraws(db0, run) && Execute(env, Init(db0), run).Some?
    requires var history := Execute(env, Init(db0), run).value.history;
             && i < j < |history| && NoDeletions(history[..j])
             && history[i].Settled? && history[i].verdict.Created?
             && history[j].Settled? && Crash(history[j].call) !in run && Valid(env, history[j].req)
             && Collide(env, history[i], history[j])
    ensures Status(Execute(env, Init(db0), run).value.history[j].verdict) == 409
  {
    FailsIffCrashed(env, db0, run, j);
    LoserConflictsOrFails(env, db0, run, i, j);
  }
}
