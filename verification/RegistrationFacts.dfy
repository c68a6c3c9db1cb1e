/**
 What registration and soft deletion mean for the stored rows, in the terms of requests and
 rows alone: which answer a request gets, what every step answers, what each success stores
 and which rows are deleted, over all histories.
 */
module RegistrationFacts {
  import opened Options
  import opened Crypto
  import opened Registration
  import opened Protocol
  import opened ProtocolRuns

  // ── One answer ───────────────────────────────────────────────────────

  predicate Blank(t: Option<string>) {
    t.None? || |t.value| == 0
  }

  /** The named dar does not exist in the caller's organisation. */
  predicate ForeignDar(env: Env, req: Request) {
    req.orphanageId.Some?
    && (req.orphanageId.value in env.orphanages ==> env.orphanages[req.orphanageId.value] != req.org)
  }

  /** The rule of the request's country, if it names a country that has one. */
  predicate CountryRule(env: Env, req: Request, rule: IdRule) {
    !Blank(req.nationality)
    && env.upper(req.nationality.value) in env.rules && env.rules[env.upper(req.nationality.value)] == rule
  }

  /** The country demands an id that is missing, or the id has another length or another form than it demands. */
  ghost predicate IdRefused(env: Env, req: Request) {
    exists rule :: CountryRule(env, req, rule)
                   && if Blank(req.nationalId) then rule.required
                      else (rule.length.Some? && |req.nationalId.value| != rule.length.value)
                           || (rule.regex.Some? && !env.fullMatch(rule.regex.value, req.nationalId.value))
  }

  /** A live row of the organisation with the request's names up to case, birth date and father. */
  predicate SameChild(env: Env, o: Orphan, req: Request) {
    !o.deleted && o.org == req.org
    && env.lower(o.firstName) == env.lower(req.firstName) && env.lower(o.familyName) == env.lower(req.familyName)
    && o.dateOfBirth == req.dateOfBirth && o.fatherName == Some(req.fatherName)
  }

  /** A live row of the organisation indexed under the request's id up to whitespace. */
  predicate SameId(env: Env, o: Orphan, req: Request) {
    !o.deleted && o.org == req.org && !Blank(req.nationalId)
    && o.blindIndex == Some(Hmac(env.key, WithoutSpaces(req.nationalId.value)))
  }

  predicate AnyChild(env: Env, rows: seq<Orphan>, req: Request) {
    exists o :: o in rows && SameChild(env, o, req)
  }

  predicate AnyId(env: Env, rows: seq<Orphan>, req: Request) {
    exists o :: o in rows && SameId(env, o, req)
  }

  predicate NeedsFamily(req: Request) {
    req.familyId.None? && req.home.Some? && SaysAnything(req.home.value)
  }

  predicate FamilyTaken(db: Db, draw: Draw) {
    exists f :: f in db.families && (f.id == draw.familyId || f.code == draw.familyCode)
  }

  /** A drawn id or code is already in use. */
  predicate DrawTaken(db: Db, req: Request, draw: Draw) {
    (exists o :: o in db.orphans && (o.id == draw.orphanId || o.code == draw.orphanCode))
    || (NeedsFamily(req) && FamilyTaken(db, draw))
  }

  lemma {:induction false} RuleExactly(env: Env, req: Request)
    ensures OrphanageOwned(env, req) <==> !ForeignDar(env, req)
    ensures NationalIdValid(env, req) <==> !IdRefused(env, req)
  {
    NonBlank(req.nationality);
    NonBlank(req.nationalId);
    if !Blank(req.nationality) && env.upper(req.nationality.value) in env.rules {
      assert CountryRule(env, req, env.rules[env.upper(req.nationality.value)]);
    }
  }

  lemma {:induction false} ClashExactly(env: Env, o: Orphan, req: Request, draw: Draw)
    ensures NameClash(env, o, BuildOrphan(env, req, draw)) <==> SameChild(env, o, req)
    ensures IdClash(o, BuildOrphan(env, req, draw)) <==> SameId(env, o, req)
    ensures RowClash(o, BuildOrphan(env, req, draw)) <==> o.id == draw.orphanId || o.code == draw.orphanCode
  {
    OrphanBuilt(env, req, draw);
  }

  lemma {:induction false} AnyClashExactly(env: Env, rows: seq<Orphan>, req: Request, draw: Draw)
    ensures var o := BuildOrphan(env, req, draw);
            && (AnyNameClash(env, rows, o) <==> AnyChild(env, rows, req))
            && (AnyIdClash(rows, o) <==> AnyId(env, rows, req))
            && (AnyRowClash(rows, o) <==> exists r :: r in rows && (r.id == draw.orphanId || r.code == draw.orphanCode))
  {
    forall i | 0 <= i < |rows|
      ensures NameClash(env, rows[i], BuildOrphan(env, req, draw)) <==> SameChild(env, rows[i], req)
      ensures IdClash(rows[i], BuildOrphan(env, req, draw)) <==> SameId(env, rows[i], req)
      ensures RowClash(rows[i], BuildOrphan(env, req, draw))
              <==> rows[i].id == draw.orphanId || rows[i].code == draw.orphanCode
    {
      ClashExactly(env, rows[i], req, draw);
    }
  }

  lemma {:induction false} FamilyClashExactly(db: Db, req: Request, draw: Draw)
    ensures AnyFamilyClash(db.families, BuildFamily(req, draw))
            <==> NeedsFamily(req) && FamilyTaken(db, draw)
  {
    FamilyBuilt(req, draw);
  }

  /** The status of a create alone in the database, from the request and the stored rows. */
  lemma {:induction false} AnsweredExactly(env: Env, db: Db, req: Request, draw: Draw)
    ensures var v := Serial(env, db, req, draw).verdict;
            var refused := ForeignDar(env, req) || IdRefused(env, req);
            var child, id, taken :=
              AnyChild(env, db.orphans, req), AnyId(env, db.orphans, req), DrawTaken(db, req, draw);
            && (Status(v) == 400 <==> ForeignDar(env, req))
            && (Status(v) == 422 <==> !ForeignDar(env, req) && IdRefused(env, req))
            && (Status(v) == 409 <==> !refused && (child || (id && !taken)))
            && (Status(v) == 500 <==> !refused && !child && taken)
            && (Status(v) == 201 <==> !refused && !child && !id && !taken)
            && (v.Created? ==> v.orphanId == draw.orphanId)
            && (v.DuplicateName? ==>
                exists o :: o in db.orphans && SameChild(env, o, req) && v.existingCode == Some(o.code))
  {
    RuleExactly(env, req);
    AnyClashExactly(env, db.orphans, req, draw);
    FamilyClashExactly(db, req, draw);
    VerdictExactly(env, db, req, draw);
    var v := Serial(env, db, req, draw).verdict;
    if v.DuplicateName? {
      var d :| d in db.orphans && NameClash(env, d, BuildOrphan(env, req, draw)) && v.existingCode == Some(d.code);
      ClashExactly(env, d, req, draw);
    }
  }

  // ── One step ─────────────────────────────────────────────────────────

  /** The pre-check answers with the code of a live duplicate if there is one, and else only moves on. */
  lemma {:induction false} PreCheckExactly(env: Env, s: State, c: nat)
    requires Enabled(env, s, PreCheck(c))
    ensures var s' := Apply(env, s, PreCheck(c));
            var req, p := s.calls[c].req, s'.calls[c].phase;
            && s'.db == s.db
            && (if AnyChild(env, s.db.orphans, req) then
                  exists o :: o in s.db.orphans && SameChild(env, o, req) && p == Done(DuplicateName(Some(o.code)))
                else p == Checked && s'.history == s.history)
  {
    var req, draw := s.calls[c].req, s.calls[c].draw;
    FindDuplicateSpec(env, s.db.orphans, req, draw);
    AnyClashExactly(env, s.db.orphans, req, draw);
    var found := FindDuplicate(env, s.db.orphans, req);
    if found.Some? {
      ClashExactly(env, found.value, req, draw);
    }
  }

  /** The insert is answered by the first index it violates: row id or code, then name, then national id. */
  lemma {:induction false} FlushExactly(env: Env, s: State, c: nat)
    requires Enabled(env, s, FlushOrphan(c))
    ensures var s' := Apply(env, s, FlushOrphan(c));
            var req, draw, p := s.calls[c].req, s.calls[c].draw, s'.calls[c].phase;
            && s'.db == s.db
            && p == (if exists o :: o in s.db.orphans && (o.id == draw.orphanId || o.code == draw.orphanCode)
                     then Done(Failed)
                     else if AnyChild(env, s.db.orphans, req) then Done(DuplicateName(None))
                     else if AnyId(env, s.db.orphans, req) then Done(DuplicateNationalId)
                     else OrphanFlushed)
  {
    AnyClashExactly(env, s.db.orphans, s.calls[c].req, s.calls[c].draw);
  }

  /** New calls, crashes and deletions can happen in any state, whatever other calls are doing. */
  lemma {:induction false} AnythingCanHappen(env: Env, s: State, c: nat, req: Request, draw: Draw)
    ensures c !in s.calls ==> Enabled(env, s, Arrive(c, req, draw))
    ensures Unfinished(s, c) ==> Enabled(env, s, Crash(c)) && FailedHere(Apply(env, s, Crash(c)), c)
    ensures forall org, user, id :: Enabled(env, s, Delete(org, user, id))
  {
  }

  predicate FailedHere(s: State, c: nat) {
    c in s.calls && s.calls[c].phase == Done(Failed)
  }

  /** Another unfinished call holds an uncommitted family or orphan that collides with what this one inserts next. */
  ghost predicate HasRival(env: Env, s: State, c: nat)
    requires c in s.calls
  {
    exists d :: Unfinished(s, d) && d != c
                && if s.calls[c].phase.Checked? then !ApartFamilies(s.calls[c].(phase := FamilyFlushed), s.calls[d])
                   else !ApartOrphans(env, s.calls[c].(phase := OrphanFlushed), s.calls[d])
  }

  lemma {:induction false} FamilyWaits(env: Env, s: State, c: nat)
    requires InPhase(s, c, Checked) && !Enabled(env, s, FlushFamily(c))
    ensures HasRival(env, s, c)
    ensures !FamilyTaken(s.db, s.calls[c].draw)
  {
    var call := s.calls[c];
    var f := BuildFamily(call.req, call.draw);
    FamilyClashExactly(s.db, call.req, call.draw);
    FamilyBuilt(call.req, call.draw);
    var d :| d in s.calls && d != c && PendingFamily(s.calls[d]).Some?
             && FamilyClash(PendingFamily(s.calls[d]).value, f.value);
    assert Unfinished(s, d);
  }

  lemma {:induction false} OrphanWaits(env: Env, s: State, c: nat)
    requires InPhase(s, c, FamilyFlushed) && !Enabled(env, s, FlushOrphan(c))
    ensures HasRival(env, s, c)
    ensures FlushConflict(env, s.db.orphans, OrphanOf(env, s.calls[c])).None?
  {
    var o := OrphanOf(env, s.calls[c]);
    var d :| d in s.calls && d != c && s.calls[d].phase.OrphanFlushed? && Clash(env, OrphanOf(env, s.calls[d]), o);
    ClashSymmetric(env, OrphanOf(env, s.calls[d]), o);
    assert Unfinished(s, d);
  }

  /**
   An unfinished call either can take its next step, or is at one of its inserts and waits for
   a call that holds a colliding uncommitted row, while nothing committed collides.
   */
  lemma {:induction false} WaitsForRival(env: Env, s: State, c: nat)
    requires Unfinished(s, c) && !Enabled(env, s, NextStep(s, c))
    ensures (s.calls[c].phase.Checked? || s.calls[c].phase.FamilyFlushed?) && HasRival(env, s, c)
    ensures s.calls[c].phase.Checked? ==>
              !FamilyTaken(s.db, s.calls[c].draw)
    ensures s.calls[c].phase.FamilyFlushed? ==>
              !AnyChild(env, s.db.orphans, s.calls[c].req) && !AnyId(env, s.db.orphans, s.calls[c].req)
  {
    AnyClashExactly(env, s.db.orphans, s.calls[c].req, s.calls[c].draw);
    if s.calls[c].phase.Checked? {
      FamilyWaits(env, s, c);
    } else {
      OrphanWaits(env, s, c);
    }
  }

  // ── Histories ────────────────────────────────────────────────────────

  /** Rows are only ever appended; on an old row nothing but the deletion flag changes, and that only to deleted. */
  predicate Grows(before: Db, after: Db) {
    && |before.orphans| <= |after.orphans|
    && (forall k :: 0 <= k < |before.orphans| ==>
          after.orphans[k].(deleted := before.orphans[k].deleted) == before.orphans[k])
    && (forall k :: 0 <= k < |before.orphans| && before.orphans[k].deleted ==> after.orphans[k].deleted)
    && before.families <= after.families && before.audits <= after.audits
  }

  lemma {:induction false} GrowsOn(a: Db, b: Db, c: Db)
    requires Grows(a, b) && Grows(b, c)
    ensures Grows(a, c)
  {
    forall k | 0 <= k < |a.orphans|
      ensures c.orphans[k].(deleted := a.orphans[k].deleted) == a.orphans[k]
    {
      assert b.orphans[k].(deleted := a.orphans[k].deleted) == a.orphans[k];
      assert c.orphans[k].(deleted := b.orphans[k].deleted) == b.orphans[k];
    }
  }

  lemma {:induction false} EventGrows(env: Env, db: Db, e: Event)
    ensures Grows(db, ReplayEvent(env, db, e))
  {
  }

  lemma {:induction false} ReplayNext(env: Env, db0: Db, history: seq<Event>, i: nat)
    requires i < |history|
    ensures Replay(env, db0, history[..i + 1]) == ReplayEvent(env, Replay(env, db0, history[..i]), history[i])
  {
    assert history[..i + 1][..i] == history[..i];
  }

  lemma {:induction false} ReplayGrowsOnce(env: Env, db0: Db, history: seq<Event>, i: nat)
    requires i < |history|
    ensures Grows(Replay(env, db0, history[..i]), Replay(env, db0, history[..i + 1]))
  {
    ReplayNext(env, db0, history, i);
    EventGrows(env, Replay(env, db0, history[..i]), history[i]);
  }

  lemma {:induction false} ReplayGrows(env: Env, db0: Db, history: seq<Event>, i: nat, j: nat)
    requires i <= j <= |history|
    ensures Grows(Replay(env, db0, history[..i]), Replay(env, db0, history[..j]))
  {
    if i < j {
      ReplayGrows(env, db0, history, i, j - 1);
      ReplayGrowsOnce(env, db0, history, j - 1);
      GrowsOn(Replay(env, db0, history[..i]), Replay(env, db0, history[..j - 1]), Replay(env, db0, history[..j]));
    }
  }

  /**
   In every run each success stores, at its place, exactly what its request says, and those
   rows stay as they are but for later deletion.
   */
  lemma {:induction false} EveryCreateStores(env: Env, db0: Db, run: seq<Action>, i: nat)
    requires Unique(env, db0) && Execute(env, Init(db0), run).Some?
    requires var history := Execute(env, Init(db0), run).value.history;
             i < |history| && history[i].Settled? && history[i].verdict.Created?
    ensures var s := Execute(env, Init(db0), run).value;
            var before, after := Replay(env, db0, s.history[..i]), Replay(env, db0, s.history[..i + 1]);
            && Stored(env, before, after, s.history[i].req, s.history[i].draw)
            && Grows(after, s.db)
  {
    var s := Execute(env, Init(db0), run).value;
    var before := Replay(env, db0, s.history[..i]);
    Linearisable(env, db0, run);
    assert SameAnswer(env, before, s.history[i]);
    ReplayNext(env, db0, s.history, i);
    ReplayedEvent(env, before, s.history[i]);
    InsertStores(env, before, s.history[i].req, s.history[i].draw);
    ReplayGrows(env, db0, s.history, i + 1, |s.history|);
    assert s.history[..|s.history|] == s.history;
  }

  // ── Deletion ─────────────────────────────────────────────────────────

  /** Deleting marks the rows of that organisation and id, no others, and records it if one of them was live. */
  lemma {:induction false} DeleteExactly(env: Env, db: Db, org: nat, user: nat, id: nat)
    ensures var after := ReplayEvent(env, db, Deleted(org, user, id));
            && |after.orphans| == |db.orphans| && after.families == db.families
            && (forall k :: 0 <= k < |db.orphans| ==>
                  after.orphans[k] == if db.orphans[k].org == org && db.orphans[k].id == id
                                      then db.orphans[k].(deleted := true) else db.orphans[k])
            && after.audits == if exists o :: o in db.orphans && o.org == org && o.id == id && !o.deleted
                               then db.audits + [Audit(org, user, "orphan.deleted", id, None)] else db.audits
  {
    if o :| o in db.orphans && o.org == org && o.id == id && !o.deleted {
      var k :| 0 <= k < |db.orphans| && db.orphans[k] == o;
      assert Deletable(db.orphans[k], org, id);
    } else {
      forall k | 0 <= k < |db.orphans|
        ensures db.orphans[k].org == org && db.orphans[k].id == id ==> db.orphans[k].(deleted := true) == db.orphans[k]
      {
        assert db.orphans[k] in db.orphans;
      }
    }
  }

  /** The j-th event deletes the row k, which is there by then. */
  predicate DeletedAt(env: Env, db0: Db, history: seq<Event>, k: nat, row: Orphan, j: nat)
    requires j < |history|
  {
    var e := history[j];
    e.Deleted? && e.org == row.org && e.id == row.id && k < |Replay(env, db0, history[..j]).orphans|
  }

  /** One more event: a row changes its deletion flag only by a deletion of its own organisation and id. */
  lemma {:induction false} FlagStep(env: Env, db: Db, e: Event, k: nat)
    requires k < |ReplayEvent(env, db, e).orphans|
    ensures var row := ReplayEvent(env, db, e).orphans[k];
            row.deleted <==> k < |db.orphans|
                             && (db.orphans[k].deleted || (e.Deleted? && e.org == row.org && e.id == row.id))
  {
    if e.Deleted? {
      DeleteExactly(env, db, e.org, e.user, e.id);
    }
  }

  predicate EverDeletedAt(env: Env, db0: Db, history: seq<Event>, k: nat, row: Orphan) {
    exists j: nat :: j < |history| && DeletedAt(env, db0, history, k, row, j)
  }

  /** The last event aside, the deletions of a row are those of the history before it. */
  lemma {:induction false} DeletionsSplit(env: Env, db0: Db, history: seq<Event>, k: nat, row: Orphan, earlier: Orphan)
    requires history != [] && row.org == earlier.org && row.id == earlier.id
    ensures var n := |history| - 1;
            EverDeletedAt(env, db0, history, k, row)
            <==> EverDeletedAt(env, db0, history[..n], k, earlier) || DeletedAt(env, db0, history, k, row, n)
  {
    var n := |history| - 1;
    forall j: nat | j < n
      ensures DeletedAt(env, db0, history, k, row, j) <==> DeletedAt(env, db0, history[..n], k, earlier, j)
    {
      assert history[..n][..j] == history[..j];
    }
    if DeletedAt(env, db0, history, k, row, n) {
      assert EverDeletedAt(env, db0, history, k, row);
    } else if EverDeletedAt(env, db0, history, k, row) {
      var j: nat :| j < |history| && DeletedAt(env, db0, history, k, row, j);
      assert DeletedAt(env, db0, history[..n], k, earlier, j);
    }
  }

  lemma {:induction false} NeverBeforeItExists(env: Env, db0: Db, history: seq<Event>, k: nat, row: Orphan)
    requires |Replay(env, db0, history).orphans| <= k
    ensures |db0.orphans| <= k && !EverDeletedAt(env, db0, history, k, row)
  {
    assert history[..|history|] == history && history[..0] == [];
    ReplayGrows(env, db0, history, 0, |history|);
    forall j: nat | j < |history|
      ensures !DeletedAt(env, db0, history, k, row, j)
    {
      ReplayGrows(env, db0, history, j, |history|);
    }
  }

  /**
   After any history a row is deleted exactly if it was from the start, or if its deletion was
   asked for by its id in its organisation once it was there.
   */
  lemma {:induction false} DeletedIff(env: Env, db0: Db, history: seq<Event>, k: nat)
    requires k < |Replay(env, db0, history).orphans|
    ensures var row := Replay(env, db0, history).orphans[k];
            row.deleted <==> (k < |db0.orphans| && db0.orphans[k].deleted) || EverDeletedAt(env, db0, history, k, row)
  {
    if history != [] {
      var n := |history| - 1;
      var before, row := Replay(env, db0, history[..n]), Replay(env, db0, history).orphans[k];
      FlagStep(env, before, history[n], k);
      EventGrows(env, before, history[n]);
      if k < |before.orphans| {
        assert row.(deleted := before.orphans[k].deleted) == before.orphans[k];
        DeletedIff(env, db0, history[..n], k);
        DeletionsSplit(env, db0, history, k, row, before.orphans[k]);
      } else {
        NeverBeforeItExists(env, db0, history[..n], k, row);
        DeletionsSplit(env, db0, history, k, row, row);
      }
    }
  }
}
