/**
 What every interleaving of concurrent creates guarantees: it reads as one serial run,
 nothing half-written is ever committed, duplicates lose with a 409, and nobody waits
 for ever.
 */
module ProtocolRuns {
  import opened Options
  import opened Crypto
  import opened Registration
  import opened Protocol

  /** The state after a run, or None if some step was not possible when it was due. */
  function Execute(env: Env, s: State, run: seq<Action>): Option<State>
    decreases |run|
  {
    if run == [] then Some(s)
    else if !Enabled(env, s, run[0]) then None
    else Execute(env, Apply(env, s, run[0]), run[1..])
  }

  lemma {:induction false} InitInv(env: Env, db: Db)
    requires Unique(env, db)
    ensures Inv(env, db, Init(db))
  {
  }

  lemma {:induction false} ExecuteKeepsInv(env: Env, db0: Db, s: State, run: seq<Action>)
    requires Inv(env, db0, s) && Execute(env, s, run).Some?
    ensures Inv(env, db0, Execute(env, s, run).value)
    decreases |run|
  {
    if run != [] {
      StepKeepsInv(env, db0, s, run[0]);
      ExecuteKeepsInv(env, db0, Apply(env, s, run[0]), run[1..]);
    }
  }

  // ── One event per finished call, in real-time order ──────────────────

  function EventsOf(history: seq<Event>, c: nat): seq<Event> {
    if history == [] then []
    else
      var e := history[|history| - 1];
      EventsOf(history[..|history| - 1], c) + if e.Settled? && e.call == c then [e] else []
  }

  /** What the history should hold about a call: its answer once it is done. */
  function AnswerOf(s: State, c: nat): seq<Event> {
    if c in s.calls && s.calls[c].phase.Done?
    then [Settled(c, s.calls[c].req, s.calls[c].draw, s.calls[c].phase.verdict)] else []
  }

  /** The history holds each finished call once, with the answer the caller got, and no unfinished call. */
  ghost predicate HistoryMatches(s: State) {
    forall c: nat :: EventsOf(s.history, c) == AnswerOf(s, c)
  }

  lemma {:induction false} EventsAppend(history: seq<Event>, e: Event, c: nat)
    ensures EventsOf(history + [e], c) == EventsOf(history, c) + if e.Settled? && e.call == c then [e] else []
  {
    assert (history + [e])[..|history|] == history;
  }

  lemma {:induction false} SettleKeepsHistory(s: State, c: nat, v: Verdict)
    requires HistoryMatches(s) && c in s.calls && !s.calls[c].phase.Done?
    ensures HistoryMatches(Settle(s, c, v))
  {
    var s' := Settle(s, c, v);
    forall d: nat
      ensures EventsOf(s'.history, d) == AnswerOf(s', d)
    {
      EventsAppend(s.history, s'.history[|s.history|], d);
      assert EventsOf(s.history, d) == AnswerOf(s, d);
    }
  }

  lemma {:induction false} QuietKeepsHistory(s: State, s': State)
    requires HistoryMatches(s)
    requires s'.history == s.history || exists e: Event :: e.Deleted? && s'.history == s.history + [e]
    requires forall c: nat :: AnswerOf(s', c) == AnswerOf(s, c)
    ensures HistoryMatches(s')
  {
    forall d: nat
      ensures EventsOf(s'.history, d) == AnswerOf(s', d)
    {
      assert EventsOf(s.history, d) == AnswerOf(s, d);
      if s'.history != s.history {
        var e: Event :| e.Deleted? && s'.history == s.history + [e];
        EventsAppend(s.history, e, d);
      }
    }
  }

  /** An action that answers a call does so through Settle (a commit also inserts); any other leaves answers alone. */
  lemma {:induction false} StepShape(env: Env, s: State, a: Action)
    requires Enabled(env, s, a)
    ensures var s' := Apply(env, s, a);
            || (exists c, v :: c in s.calls && !s.calls[c].phase.Done? && s'.(db := s.db) == Settle(s, c, v))
            || ((s'.history == s.history || exists e: Event :: e.Deleted? && s'.history == s.history + [e])
                && forall c: nat :: AnswerOf(s', c) == AnswerOf(s, c))
  {
    var s' := Apply(env, s, a);
    if a.Delete? {
      assert Deleted(a.org, a.user, a.id).Deleted?;
    } else if !a.Arrive? && s'.calls[a.c].phase.Done? {
      assert s'.(db := s.db) == Settle(s, a.c, s'.calls[a.c].phase.verdict);
    }
  }

  lemma {:induction false} StepKeepsHistory(env: Env, s: State, a: Action)
    requires HistoryMatches(s) && Enabled(env, s, a)
    ensures HistoryMatches(Apply(env, s, a))
  {
    StepShape(env, s, a);
    var s' := Apply(env, s, a);
    if c, v :| c in s.calls && !s.calls[c].phase.Done? && s'.(db := s.db) == Settle(s, c, v) {
      SettleKeepsHistory(s, c, v);
      QuietKeepsHistory(Settle(s, c, v), s');
    } else {
      QuietKeepsHistory(s, s');
    }
  }

  /** Answers are final and history only grows. */
  lemma {:induction false} StepExtends(env: Env, s: State, a: Action)
    requires Enabled(env, s, a)
    ensures s.history <= Apply(env, s, a).history
    ensures forall c :: c in s.calls && s.calls[c].phase.Done? ==>
              c in Apply(env, s, a).calls && Apply(env, s, a).calls[c] == s.calls[c]
  {
  }

  lemma {:induction false} ExecuteKeepsHistory(env: Env, s: State, run: seq<Action>)
    requires HistoryMatches(s) && Execute(env, s, run).Some?
    ensures var s' := Execute(env, s, run).value;
            HistoryMatches(s') && s.history <= s'.history
            && (forall c :: c in s.calls && s.calls[c].phase.Done? ==> c in s'.calls && s'.calls[c] == s.calls[c])
    decreases |run|
  {
    if run != [] {
      StepKeepsHistory(env, s, run[0]);
      StepExtends(env, s, run[0]);
      ExecuteKeepsHistory(env, Apply(env, s, run[0]), run[1..]);
    }
  }

  /**
   Linearisation: the history holds each finished call once, with the answer it received, and
   replaying those calls one after another, in the order they were decided, gives exactly the
   committed rows and the same status for every call, with the unique indexes intact.
   */
  lemma {:induction false} Linearisable(env: Env, db0: Db, run: seq<Action>)
    requires Unique(env, db0) && Execute(env, Init(db0), run).Some?
    ensures var s := Execute(env, Init(db0), run).value;
            && HistoryMatches(s)
            && s.db == Replay(env, db0, s.history) && Faithful(env, db0, s.history) && Unique(env, s.db)
  {
    InitInv(env, db0);
    ExecuteKeepsInv(env, db0, Init(db0), run);
    ExecuteKeepsHistory(env, Init(db0), run);
  }

  lemma {:induction false} EventsOfSplit(a: seq<Event>, b: seq<Event>, c: nat)
    ensures EventsOf(a + b, c) == EventsOf(a, c) + EventsOf(b, c)
  {
    if b == [] {
      assert a + b == a;
    } else {
      assert (a + b)[..|a + b| - 1] == a + b[..|b| - 1];
      EventsOfSplit(a, b[..|b| - 1], c);
    }
  }

  lemma {:induction false} OrderFromHistories(s: State, s': State, done: nat, late: nat)
    requires HistoryMatches(s) && HistoryMatches(s') && s.history <= s'.history
    requires done in s.calls && s.calls[done].phase.Done? && late !in s.calls
    requires done in s'.calls && s'.calls[done] == s.calls[done]
    ensures EventsOf(s.history, done) == EventsOf(s'.history, done) && |EventsOf(s.history, done)| == 1
    ensures EventsOf(s.history, late) == []
    ensures EventsOf(s'.history[|s.history|..], late) == EventsOf(s'.history, late)
  {
    assert EventsOf(s.history, done) == AnswerOf(s, done);
    assert EventsOf(s'.history, done) == AnswerOf(s', done);
    assert EventsOf(s.history, late) == AnswerOf(s, late);
    assert s'.history == s.history + s'.history[|s.history|..];
    EventsOfSplit(s.history, s'.history[|s.history|..], late);
  }

  /**
   The serial order respects real time: a call that had answered before another arrived is
   settled in an earlier part of the history than everything about the later call.
   */
  lemma {:induction false} RealTimeOrder(env: Env, db0: Db, before: seq<Action>, after: seq<Action>, done: nat,
                                         late: nat)
    requires Execute(env, Init(db0), before).Some?
    requires Execute(env, Execute(env, Init(db0), before).value, after).Some?
    requires var s := Execute(env, Init(db0), before).value;
             done in s.calls && s.calls[done].phase.Done? && late !in s.calls
    ensures var s := Execute(env, Init(db0), before).value;
            var s' := Execute(env, s, after).value;
            && s.history <= s'.history && done in s'.calls
            && EventsOf(s.history, done) == EventsOf(s'.history, done)
            && |EventsOf(s.history, done)| == 1
            && EventsOf(s.history, late) == []
            && EventsOf(s'.history[|s.history|..], late) == EventsOf(s'.history, late)
            && HistoryMatches(s') && s'.calls[done] == s.calls[done]
  {
    ExecuteKeepsHistory(env, Init(db0), before);
    var s := Execute(env, Init(db0), before).value;
    ExecuteKeepsHistory(env, s, after);
    OrderFromHistories(s, Execute(env, s, after).value, done, late);
  }

  // ── Atomicity ────────────────────────────────────────────────────────

  function CreatedOrphans(env: Env, history: seq<Event>): seq<Orphan> {
    if history == [] then []
    else
      var e := history[|history| - 1];
      CreatedOrphans(env, history[..|history| - 1])
      + if e.Settled? && e.verdict.Created? then [BuildOrphan(env, e.req, e.draw)] else []
  }

  function CreatedFamilies(history: seq<Event>): seq<Family> {
    if history == [] then []
    else
      var e := history[|history| - 1];
      CreatedFamilies(history[..|history| - 1])
      + if e.Settled? && e.verdict.Created? && BuildFamily(e.req, e.draw).Some?
        then [BuildFamily(e.req, e.draw).value] else []
  }

  function CreatedAudits(env: Env, history: seq<Event>): seq<Audit> {
    if history == [] then []
    else
      var e := history[|history| - 1];
      CreatedAudits(env, history[..|history| - 1])
      + if e.Settled? && e.verdict.Created? then [CreatedAudit(env, e.req, e.draw)] else []
  }

  /** Rows with their deletion flag ignored. */
  function Undeleted(rows: seq<Orphan>): seq<Orphan> {
    seq(|rows|, i requires 0 <= i < |rows| => rows[i].(deleted := false))
  }

  function CreationAudits(audits: seq<Audit>): seq<Audit> {
    if audits == [] then []
    else
      var a := audits[|audits| - 1];
      CreationAudits(audits[..|audits| - 1]) + if a.action == "orphan.created" then [a] else []
  }

  lemma {:induction false} CreationAuditsAppend(audits: seq<Audit>, a: Audit)
    ensures CreationAudits(audits + [a]) == CreationAudits(audits) + if a.action == "orphan.created" then [a] else []
  {
    assert (audits + [a])[..|audits|] == audits;
  }

  lemma {:induction false} ReplayedEvent(env: Env, db: Db, e: Event)
    requires e.Settled? && SameAnswer(env, db, e)
    ensures ReplayEvent(env, db, e) == if e.verdict.Created? then Insert(env, db, e.req, e.draw) else db
  {
  }

  /**
   The tables after a history: the old rows and, in order, one orphan, one audit row and at
   most one family per success.
   */
  ghost predicate Accounted(env: Env, db0: Db, history: seq<Event>, db: Db) {
    && Undeleted(db.orphans) == Undeleted(db0.orphans) + CreatedOrphans(env, history)
    && db.families == db0.families + CreatedFamilies(history)
    && CreationAudits(db.audits) == CreationAudits(db0.audits) + CreatedAudits(env, history)
  }

  lemma {:induction false} CreatedAccounted(env: Env, db0: Db, history: seq<Event>, db: Db, e: Event)
    requires Accounted(env, db0, history, db) && e.Settled? && e.verdict.Created?
    ensures Accounted(env, db0, history + [e], Insert(env, db, e.req, e.draw))
  {
    var all, db' := history + [e], Insert(env, db, e.req, e.draw);
    assert all[..|history|] == history;
    CreationAuditsAppend(db.audits, CreatedAudit(env, e.req, e.draw));
    assert Undeleted(db'.orphans) == Undeleted(db.orphans) + [BuildOrphan(env, e.req, e.draw)];
  }

  lemma {:induction false} QuietAccounted(env: Env, db0: Db, history: seq<Event>, db: Db, e: Event)
    requires Accounted(env, db0, history, db)
    requires e.Settled? ==> !e.verdict.Created?
    ensures Accounted(env, db0, history + [e], if e.Settled? then db else SoftDelete(db, e.org, e.user, e.id))
  {
    assert (history + [e])[..|history|] == history;
    assert CreatedOrphans(env, history + [e]) == CreatedOrphans(env, history);
    assert CreatedFamilies(history + [e]) == CreatedFamilies(history);
    assert CreatedAudits(env, history + [e]) == CreatedAudits(env, history);
    if e.Deleted? {
      CreationAuditsAppend(db.audits, Audit(e.org, e.user, "orphan.deleted", e.id, None));
      assert Undeleted(SoftDelete(db, e.org, e.user, e.id).orphans) == Undeleted(db.orphans);
      assert CreationAudits(db.audits) + [] == CreationAudits(db.audits);
    }
  }

  lemma {:induction false} HistoryAccounts(env: Env, db0: Db, history: seq<Event>)
    requires Faithful(env, db0, history)
    ensures Accounted(env, db0, history, Replay(env, db0, history))
  {
    if history == [] {
      assert Undeleted(db0.orphans) + [] == Undeleted(db0.orphans);
      assert db0.families + [] == db0.families;
      assert CreationAudits(db0.audits) + [] == CreationAudits(db0.audits);
    } else {
      var n := |history| - 1;
      var before, e := history[..n], history[n];
      assert history == before + [e];
      FaithfulPrefix(env, db0, history, n);
      HistoryAccounts(env, db0, before);
      var db := Replay(env, db0, before);
      assert SameAnswer(env, Replay(env, db0, history[..n]), history[n]);
      if e.Settled? {
        ReplayedEvent(env, db, e);
      }
      if e.Settled? && e.verdict.Created? {
        CreatedAccounted(env, db0, before, db, e);
      } else {
        QuietAccounted(env, db0, before, db, e);
      }
    }
  }

  lemma {:induction false} FaithfulPrefix(env: Env, db0: Db, history: seq<Event>, n: nat)
    requires Faithful(env, db0, history) && n <= |history|
    ensures Faithful(env, db0, history[..n])
  {
    forall i | 0 <= i < n
      ensures SameAnswer(env, Replay(env, db0, history[..n][..i]), history[..n][i])
    {
      assert history[..n][..i] == history[..i];
      assert SameAnswer(env, Replay(env, db0, history[..i]), history[i]);
    }
  }

  /**
   Atomicity over a whole run: the committed orphans, families and creation audits are the
   initial ones followed by exactly those of the successful calls, one orphan and one audit
   row each, so no rejected or crashed call leaves a row behind.
   */
  lemma {:induction false} NothingHalfWritten(env: Env, db0: Db, run: seq<Action>)
    requires Unique(env, db0) && Execute(env, Init(db0), run).Some?
    ensures var s := Execute(env, Init(db0), run).value;
            Accounted(env, db0, s.history, s.db)
  {
    Linearisable(env, db0, run);
    HistoryAccounts(env, db0, Execute(env, Init(db0), run).value.history);
  }

  /** An orphan of the same organisation and partner lives in the family. */
  predicate LivesIn(o: Orphan, f: Family) {
    o.familyId == Some(f.id) && o.org == f.org && o.partner == f.partner
  }

  lemma {:induction false} CreatedFamilyHasOrphan(env: Env, history: seq<Event>, j: nat) returns (i: nat)
    requires j < |CreatedFamilies(history)|
    ensures i < |CreatedOrphans(env, history)| && LivesIn(CreatedOrphans(env, history)[i], CreatedFamilies(history)[j])
  {
    var n := |history| - 1;
    if j < |CreatedFamilies(history[..n])| {
      i := CreatedFamilyHasOrphan(env, history[..n], j);
    } else {
      i := |CreatedOrphans(env, history[..n])|;
    }
  }

  lemma {:induction false} AccountedFamilyHasOrphan(env: Env, db0: Db, history: seq<Event>, db: Db, j: nat)
    requires Accounted(env, db0, history, db) && |db0.families| <= j < |db.families|
    ensures exists i :: |db0.orphans| <= i < |db.orphans| && LivesIn(db.orphans[i], db.families[j])
  {
    var i := CreatedFamilyHasOrphan(env, history, j - |db0.families|);
    var k := |db0.orphans| + i;
    assert Undeleted(db.orphans)[k] == CreatedOrphans(env, history)[i];
    assert LivesIn(db.orphans[k], db.families[j]);
  }

  /** No run ever commits a family without the orphan it was created for. */
  lemma {:induction false} NoFamilyAlone(env: Env, db0: Db, run: seq<Action>, j: nat)
    requires Unique(env, db0) && Execute(env, Init(db0), run).Some?
    requires |db0.families| <= j < |Execute(env, Init(db0), run).value.db.families|
    ensures var db := Execute(env, Init(db0), run).value.db;
            exists i :: |db0.orphans| <= i < |db.orphans| && LivesIn(db.orphans[i], db.families[j])
  {
    var s := Execute(env, Init(db0), run).value;
    NothingHalfWritten(env, db0, run);
    AccountedFamilyHasOrphan(env, db0, s.history, s.db, j);
  }

  /** Only a commit or a deletion ever changes committed rows. */
  lemma {:induction false} OnlyCommitsWrite(env: Env, s: State, a: Action)
    requires Enabled(env, s, a) && !a.Commit? && !a.Delete?
    ensures Apply(env, s, a).db == s.db
  {
  }

  lemma {:induction false} ExecuteSplit(env: Env, s: State, a: seq<Action>, b: seq<Action>)
    requires Execute(env, s, a + b).Some?
    ensures Execute(env, s, a).Some?
    ensures Execute(env, s, a + b) == Execute(env, Execute(env, s, a).value, b)
    decreases |a|
  {
    if a == [] {
      assert a + b == b;
    } else {
      assert (a + b)[1..] == a[1..] + b;
      ExecuteSplit(env, Apply(env, s, a[0]), a[1..], b);
    }
  }

  lemma {:induction false} AnswersAreFinal(env: Env, s: State, run: seq<Action>, c: nat)
    requires Execute(env, s, run).Some? && c in s.calls && s.calls[c].phase.Done?
    ensures c in Execute(env, s, run).value.calls && Execute(env, s, run).value.calls[c] == s.calls[c]
    decreases |run|
  {
    if run != [] {
      StepExtends(env, s, run[0]);
      AnswersAreFinal(env, Apply(env, s, run[0]), run[1..], c);
    }
  }

  /** A call that has not been answered with success: unfinished, rejected or crashed. */
  predicate NotCreated(s: State, c: nat) {
    c in s.calls ==> !(s.calls[c].phase.Done? && s.calls[c].phase.verdict.Created?)
  }

  /**
   A call that never succeeds leaves the committed state unchanged with every one of its
   steps, in whatever run around it.
   */
  lemma {:induction false} RejectedNeverWrites(env: Env, s: State, before: seq<Action>, a: Action, after: seq<Action>)
    requires !a.Delete? && Execute(env, s, before + ([a] + after)).Some?
    requires NotCreated(Execute(env, s, before + ([a] + after)).value, a.c)
    ensures Execute(env, s, before).Some? && Enabled(env, Execute(env, s, before).value, a)
    ensures var mid := Execute(env, s, before).value;
            Apply(env, mid, a).db == mid.db
  {
    ExecuteSplit(env, s, before, [a] + after);
    var mid := Execute(env, s, before).value;
    assert ([a] + after)[0] == a && ([a] + after)[1..] == after;
    assert Execute(env, mid, [a] + after) == Execute(env, Apply(env, mid, a), after);
    if a.Commit? {
      AnswersAreFinal(env, Apply(env, mid, a), after, a.c);
      assert false;
    } else {
      OnlyCommitsWrite(env, mid, a);
    }
  }

  // ── Duplicates ───────────────────────────────────────────────────────

  lemma {:induction false} SerialConflictIsReal(env: Env, db: Db, e: Event)
    requires e.Settled? && Status(e.verdict) == 409 && SameAnswer(env, db, e)
    ensures var o := BuildOrphan(env, e.req, e.draw);
            AnyNameClash(env, db.orphans, o) || AnyIdClash(db.orphans, o)
  {
    VerdictExactly(env, db, e.req, e.draw);
  }

  /** A 409 is never spurious: at that point of the serial order a live duplicate was there. */
  lemma {:induction false} ConflictIsReal(env: Env, db0: Db, run: seq<Action>, i: nat)
    requires Unique(env, db0) && Execute(env, Init(db0), run).Some?
    requires var history := Execute(env, Init(db0), run).value.history;
             i < |history| && history[i].Settled? && Status(history[i].verdict) == 409
    ensures var history := Execute(env, Init(db0), run).value.history;
            var rows := Replay(env, db0, history[..i]).orphans;
            var o := BuildOrphan(env, history[i].req, history[i].draw);
            AnyNameClash(env, rows, o) || AnyIdClash(rows, o)
  {
    Linearisable(env, db0, run);
    var history := Execute(env, Init(db0), run).value.history;
    SerialConflictIsReal(env, Replay(env, db0, history[..i]), history[i]);
  }

  predicate NoDeletions(history: seq<Event>) {
    forall i :: 0 <= i < |history| ==> history[i].Settled?
  }

  lemma {:induction false} RowsWithoutDeletions(env: Env, db0: Db, history: seq<Event>)
    requires Faithful(env, db0, history) && NoDeletions(history)
    ensures Replay(env, db0, history).orphans == db0.orphans + CreatedOrphans(env, history)
  {
    if history != [] {
      var n := |history| - 1;
      FaithfulPrefix(env, db0, history, n);
      RowsWithoutDeletions(env, db0, history[..n]);
      assert SameAnswer(env, Replay(env, db0, history[..n]), history[n]);
      ReplayedEvent(env, Replay(env, db0, history[..n]), history[n]);
    }
  }

  lemma {:induction false} CreatedAppend(env: Env, history: seq<Event>, e: Event)
    ensures CreatedOrphans(env, history + [e])
            == CreatedOrphans(env, history)
               + if e.Settled? && e.verdict.Created? then [BuildOrphan(env, e.req, e.draw)] else []
  {
    assert (history + [e])[..|history|] == history;
  }

  /** The i-th event's orphan sits right after those of the events before it. */
  lemma {:induction false} CreatedPosition(env: Env, history: seq<Event>, i: nat)
    requires i < |history| && history[i].Settled? && history[i].verdict.Created?
    ensures |CreatedOrphans(env, history[..i])| < |CreatedOrphans(env, history)|
    ensures CreatedOrphans(env, history)[|CreatedOrphans(env, history[..i])|]
            == BuildOrphan(env, history[i].req, history[i].draw)
  {
    var n := |history| - 1;
    var before := history[..n];
    assert history == before + [history[n]];
    CreatedAppend(env, before, history[n]);
    if i < n {
      CreatedPosition(env, before, i);
      assert before[..i] == history[..i];
    }
  }

  /** A call that reaches the duplicate rules: its dar and its national id are in order. */
  predicate Valid(env: Env, req: Request) {
    OrphanageOwned(env, req) && NationalIdValid(env, req)
  }

  lemma {:induction false} SerialConflictExactly(env: Env, db: Db, e: Event)
    requires e.Settled? && !e.verdict.Failed? && SameAnswer(env, db, e)
    ensures var o := BuildOrphan(env, e.req, e.draw);
            Status(e.verdict) == 409
            <==> Valid(env, e.req) && (AnyNameClash(env, db.orphans, o) || AnyIdClash(db.orphans, o))
  {
    VerdictExactly(env, db, e.req, e.draw);
  }

  /**
   In every run, deletions included: a call that does not end in a 500 is answered 409 exactly
   when it is valid and, at its place in the serial order, a live row holds its name key or
   its national id.
   */
  lemma {:induction false} AnsweredConflictIff(env: Env, db0: Db, run: seq<Action>, j: nat)
    requires Unique(env, db0) && Execute(env, Init(db0), run).Some?
    requires var history := Execute(env, Init(db0), run).value.history;
             j < |history| && history[j].Settled? && !history[j].verdict.Failed?
    ensures var history := Execute(env, Init(db0), run).value.history;
            var rows := Replay(env, db0, history[..j]).orphans;
            var o := BuildOrphan(env, history[j].req, history[j].draw);
            Status(history[j].verdict) == 409
            <==> Valid(env, history[j].req) && (AnyNameClash(env, rows, o) || AnyIdClash(rows, o))
  {
    Linearisable(env, db0, run);
    var history := Execute(env, Init(db0), run).value.history;
    assert SameAnswer(env, Replay(env, db0, history[..j]), history[j]);
    SerialConflictExactly(env, Replay(env, db0, history[..j]), history[j]);
  }

  /** The built rows of two calls collide on the name index or on the national-id index. */
  predicate Collide(env: Env, a: Event, b: Event)
    requires a.Settled? && b.Settled?
  {
    var p, q := BuildOrphan(env, a.req, a.draw), BuildOrphan(env, b.req, b.draw);
    NameClash(env, p, q) || IdClash(p, q)
  }

  lemma {:induction false} WinnerIsStored(env: Env, db0: Db, history: seq<Event>, i: nat, j: nat)
    requires Faithful(env, db0, history) && i < j < |history| && NoDeletions(history[..j])
    requires history[i].Settled? && history[i].verdict.Created?
    ensures BuildOrphan(env, history[i].req, history[i].draw) in Replay(env, db0, history[..j]).orphans
  {
    FaithfulPrefix(env, db0, history, j);
    RowsWithoutDeletions(env, db0, history[..j]);
    CreatedPosition(env, history[..j], i);
    assert history[..j][i] == history[i];
    var created := CreatedOrphans(env, history[..j]);
    assert forall o :: o in created ==> o in db0.orphans + created;
  }

  /**
   While nothing is deleted, a valid call that is decided after a success its row collides
   with is answered 409, or else it ended in a 500.
   */
  lemma {:induction false} LoserConflictsOrFails(env: Env, db0: Db, run: seq<Action>, i: nat, j: nat)
    requires Unique(env, db0) && Execute(env, Init(db0), run).Some?
    requires var history := Execute(env, Init(db0), run).value.history;
             && i < j < |history| && NoDeletions(history[..j])
             && history[i].Settled? && history[i].verdict.Created?
             && history[j].Settled? && Valid(env, history[j].req)
             && Collide(env, history[i], history[j])
    ensures var verdict := Execute(env, Init(db0), run).value.history[j].verdict;
            Status(verdict) == 409 || verdict.Failed?
  {
    var history := Execute(env, Init(db0), run).value.history;
    if !history[j].verdict.Failed? {
      Linearisable(env, db0, run);
      WinnerIsStored(env, db0, history, i, j);
      AnsweredConflictIff(env, db0, run, j);
      StoredCollides(env, Replay(env, db0, history[..j]).orphans, history[i], history[j]);
    }
  }

  lemma {:induction false} StoredCollides(env: Env, rows: seq<Orphan>, winner: Event, loser: Event)
    requires winner.Settled? && loser.Settled? && Collide(env, winner, loser)
    requires BuildOrphan(env, winner.req, winner.draw) in rows
    ensures var o := BuildOrphan(env, loser.req, loser.draw);
            AnyNameClash(env, rows, o) || AnyIdClash(rows, o)
  {
    var k :| 0 <= k < |rows| && rows[k] == BuildOrphan(env, winner.req, winner.draw);
    assert NameClash(env, rows[k], BuildOrphan(env, loser.req, loser.draw))
           || IdClash(rows[k], BuildOrphan(env, loser.req, loser.draw));
  }

  /**
   Without deletions, two successful creates never share an organisation together with the
   case-insensitive name, birth date and father, or a national id up to whitespace:
   of any number of identical concurrent creates at most one succeeds.
   */
  lemma {:induction false} AtMostOneWinner(env: Env, db0: Db, run: seq<Action>, i: nat, j: nat)
    requires Unique(env, db0) && Execute(env, Init(db0), run).Some?
    requires var history := Execute(env, Init(db0), run).value.history;
             && NoDeletions(history) && i < j < |history|
             && history[i].verdict.Created? && history[j].verdict.Created?
    ensures var history := Execute(env, Init(db0), run).value.history;
            var p, q := history[i].req, history[j].req;
            && RequestNameKey(env, p) != RequestNameKey(env, q)
            && (p.org == q.org && Text(p.nationalId) != "" && Text(q.nationalId) != "" ==>
                  WithoutSpaces(Text(p.nationalId)) != WithoutSpaces(Text(q.nationalId)))
  {
    var s := Execute(env, Init(db0), run).value;
    var history := s.history;
    Linearisable(env, db0, run);
    RowsWithoutDeletions(env, db0, history);
    WinnersApart(env, db0.orphans, history, i, j);
    DistinctKeys(env, history[i].req, history[i].draw, history[j].req, history[j].draw);
  }

  lemma {:induction false} WinnersApart(env: Env, rows0: seq<Orphan>, history: seq<Event>, i: nat, j: nat)
    requires i < j < |history|
    requires history[i].Settled? && history[i].verdict.Created? && history[j].Settled? && history[j].verdict.Created?
    requires var rows := rows0 + CreatedOrphans(env, history);
             forall a, b :: 0 <= a < b < |rows| ==> !Clash(env, rows[a], rows[b])
    ensures !Clash(env, BuildOrphan(env, history[i].req, history[i].draw),
                   BuildOrphan(env, history[j].req, history[j].draw))
  {
    CreatedPosition(env, history, i);
    CreatedPosition(env, history, j);
    CreatedPosition(env, history[..j], i);
    assert history[..j][..i] == history[..i];
    var created := CreatedOrphans(env, history);
    var a, b := |CreatedOrphans(env, history[..i])|, |CreatedOrphans(env, history[..j])|;
    assert (rows0 + created)[|rows0| + a] == created[a] && (rows0 + created)[|rows0| + b] == created[b];
  }

  lemma {:induction false} DistinctKeys(env: Env, p: Request, d: Draw, q: Request, e: Draw)
    requires !Clash(env, BuildOrphan(env, p, d), BuildOrphan(env, q, e))
    ensures RequestNameKey(env, p) != RequestNameKey(env, q)
    ensures p.org == q.org && Text(p.nationalId) != "" && Text(q.nationalId) != "" ==>
              WithoutSpaces(Text(p.nationalId)) != WithoutSpaces(Text(q.nationalId))
  {
    BuiltRowKeys(env, p, d);
    BuiltRowKeys(env, q, e);
    SameIndexIff(env.key, Text(p.nationalId), Text(q.nationalId));
  }

  // ── The blind index ──────────────────────────────────────────────────

  lemma {:induction false} ReplayKeepsIndexed(env: Env, db0: Db, history: seq<Event>)
    requires Unique(env, db0) && Indexed(env, db0.orphans)
    ensures Indexed(env, Replay(env, db0, history).orphans) && Unique(env, Replay(env, db0, history))
  {
    if history != [] {
      var n := |history| - 1;
      var db, e := Replay(env, db0, history[..n]), history[n];
      ReplayKeepsIndexed(env, db0, history[..n]);
      match e
      case Settled(_, req, draw, _) =>
        SerialKeepsUnique(env, db, req, draw);
        InsertKeepsIndexed(env, db, req, draw);
      case Deleted(org, user, id) =>
        DeleteKeepsUnique(env, db, org, user, id);
    }
  }

  /** Every run keeps ciphertext and blind index in step. */
  lemma {:induction false} RunKeepsIndexed(env: Env, db0: Db, run: seq<Action>)
    requires Unique(env, db0) && Indexed(env, db0.orphans) && Execute(env, Init(db0), run).Some?
    ensures Indexed(env, Execute(env, Init(db0), run).value.db.orphans)
  {
    Linearisable(env, db0, run);
    ReplayKeepsIndexed(env, db0, Execute(env, Init(db0), run).value.history);
  }

  // ── Progress ─────────────────────────────────────────────────────────

  predicate Unfinished(s: State, c: nat) {
    c in s.calls && !s.calls[c].phase.Done?
  }

  /** The step a call takes next of its own accord. */
  function NextStep(s: State, c: nat): Action
    requires Unfinished(s, c)
  {
    match s.calls[c].phase
    case Arrived => Validate(c)
    case Validated => PreCheck(c)
    case Checked => FlushFamily(c)
    case FamilyFlushed => FlushOrphan(c)
    case OrphanFlushed => Commit(c)
  }

  /** No deadlock: while some call is unfinished, some unfinished call can take its next step. */
  lemma {:induction false} SomeoneCanMove(env: Env, s: State, c: nat)
    requires Unfinished(s, c)
    ensures exists d :: Unfinished(s, d) && Enabled(env, s, NextStep(s, d))
  {
    if d :| Unfinished(s, d) && s.calls[d].phase.OrphanFlushed? {
      assert Enabled(env, s, NextStep(s, d));
    } else if d :| Unfinished(s, d) && s.calls[d].phase.FamilyFlushed? {
      assert Enabled(env, s, NextStep(s, d));
    } else {
      assert Enabled(env, s, NextStep(s, c));
    }
  }
}
