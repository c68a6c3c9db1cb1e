/**
 Any number of concurrent `create_orphan_record` calls, step by step, over one database.
 A step reads committed rows only; an insert that collides with a committed row is
 rejected, one that collides with another call's uncommitted row waits until that call
 ends. Calls may fail between any two steps, and orphans may be soft-deleted meanwhile.
 */
module Protocol {
  import opened Options
  import opened Registration

  /** How far a call has come; from FamilyFlushed on it holds uncommitted rows. */
  datatype Phase = Arrived | Validated | Checked | FamilyFlushed | OrphanFlushed | Done(verdict: Verdict)

  datatype Call = Call(req: Request, draw: Draw, phase: Phase)

  /** What the run decided, in the order it was decided. */
  datatype Event =
    | Settled(call: nat, req: Request, draw: Draw, verdict: Verdict)
    | Deleted(org: nat, user: nat, id: nat)

  datatype State = State(db: Db, calls: map<nat, Call>, history: seq<Event>)

  datatype Action =
    | Arrive(c: nat, req: Request, draw: Draw)
    | Validate(c: nat)
    | PreCheck(c: nat)
    | FlushFamily(c: nat)
    | FlushOrphan(c: nat)
    | Commit(c: nat)
    | Crash(c: nat)
    | Delete(org: nat, user: nat, id: nat)

  function Init(db: Db): State {
    State(db, map[], [])
  }

  // ── Uncommitted rows ─────────────────────────────────────────────────

  function PendingFamily(call: Call): Option<Family> {
    if call.phase.FamilyFlushed? || call.phase.OrphanFlushed? then BuildFamily(call.req, call.draw) else None
  }

  function OrphanOf(env: Env, call: Call): Orphan {
    BuildOrphan(env, call.req, call.draw)
  }

  /** Another call holds an uncommitted family with the same id or code. */
  predicate FamilyHeld(s: State, c: nat, f: Option<Family>) {
    f.Some? && exists d :: d in s.calls && d != c && PendingFamily(s.calls[d]).Some?
                           && FamilyClash(PendingFamily(s.calls[d]).value, f.value)
  }

  /** Another call holds an uncommitted orphan that collides on some unique index. */
  predicate OrphanHeld(env: Env, s: State, c: nat, o: Orphan) {
    exists d :: d in s.calls && d != c && s.calls[d].phase.OrphanFlushed? && Clash(env, OrphanOf(env, s.calls[d]), o)
  }

  // ── Steps ────────────────────────────────────────────────────────────

  predicate InPhase(s: State, c: nat, p: Phase) {
    c in s.calls && s.calls[c].phase == p
  }

  predicate Enabled(env: Env, s: State, a: Action) {
    match a
    case Arrive(c, _, _) => c !in s.calls
    case Validate(c) => InPhase(s, c, Arrived)
    case PreCheck(c) => InPhase(s, c, Validated)
    case FlushFamily(c) =>
      InPhase(s, c, Checked)
      && var f := BuildFamily(s.calls[c].req, s.calls[c].draw);
         AnyFamilyClash(s.db.families, f) || !FamilyHeld(s, c, f)
    case FlushOrphan(c) =>
      InPhase(s, c, FamilyFlushed)
      && var o := OrphanOf(env, s.calls[c]);
         FlushConflict(env, s.db.orphans, o).Some? || !OrphanHeld(env, s, c, o)
    case Commit(c) => InPhase(s, c, OrphanFlushed)
    case Crash(c) => c in s.calls && !s.calls[c].phase.Done?
    case Delete(_, _, _) => true
  }

  function Advance(s: State, c: nat, p: Phase): State
    requires c in s.calls
  {
    s.(calls := s.calls[c := s.calls[c].(phase := p)])
  }

  /** The call answers; without a commit its uncommitted rows vanish. */
  function Settle(s: State, c: nat, v: Verdict): State
    requires c in s.calls
  {
    var call := s.calls[c];
    State(s.db, s.calls[c := call.(phase := Done(v))], s.history + [Settled(c, call.req, call.draw, v)])
  }

  function Apply(env: Env, s: State, a: Action): State
    requires Enabled(env, s, a)
  {
    match a
    case Arrive(c, req, draw) => s.(calls := s.calls[c := Call(req, draw, Arrived)])
    case Validate(c) =>
      var req := s.calls[c].req;
      if !OrphanageOwned(env, req) then Settle(s, c, BadOrphanage)
      else if !NationalIdValid(env, req) then Settle(s, c, BadNationalId)
      else Advance(s, c, Validated)
    case PreCheck(c) =>
      var existing := FindDuplicate(env, s.db.orphans, s.calls[c].req);
      if existing.Some? then Settle(s, c, DuplicateName(Some(existing.value.code))) else Advance(s, c, Checked)
    case FlushFamily(c) =>
      if AnyFamilyClash(s.db.families, BuildFamily(s.calls[c].req, s.calls[c].draw)) then Settle(s, c, Failed)
      else Advance(s, c, FamilyFlushed)
    case FlushOrphan(c) =>
      var conflict := FlushConflict(env, s.db.orphans, OrphanOf(env, s.calls[c]));
      if conflict.Some? then Settle(s, c, ConflictVerdict(conflict.value)) else Advance(s, c, OrphanFlushed)
    case Commit(c) =>
      var call := s.calls[c];
      Settle(s, c, Created(call.draw.orphanId)).(db := Insert(env, s.db, call.req, call.draw))
    case Crash(c) => Settle(s, c, Failed)
    case Delete(org, user, id) =>
      s.(db := SoftDelete(s.db, org, user, id), history := s.history + [Deleted(org, user, id)])
  }

  // ── The serial reading of a history ──────────────────────────────────

  /** One event replayed alone. A call that ended in a 500 has no effect. */
  function ReplayEvent(env: Env, db: Db, e: Event): Db {
    match e
    case Settled(_, req, draw, v) => if v.Failed? then db else Serial(env, db, req, draw).db
    case Deleted(org, user, id) => SoftDelete(db, org, user, id)
  }

  function Replay(env: Env, db: Db, history: seq<Event>): Db {
    if history == [] then db
    else ReplayEvent(env, Replay(env, db, history[..|history| - 1]), history[|history| - 1])
  }

  /** A serial call at this point would have answered with the same status. */
  predicate SameAnswer(env: Env, db: Db, e: Event) {
    e.Settled? && !e.verdict.Failed? ==> Status(Serial(env, db, e.req, e.draw).verdict) == Status(e.verdict)
  }

  ghost predicate Faithful(env: Env, db: Db, history: seq<Event>) {
    forall i :: 0 <= i < |history| ==> SameAnswer(env, Replay(env, db, history[..i]), history[i])
  }

  // ── The invariant of every run ───────────────────────────────────────

  /** What a call past a step has established. */
  predicate CallOk(env: Env, s: State, c: nat)
    requires c in s.calls
  {
    var call := s.calls[c];
    && (!call.phase.Arrived? && !call.phase.Done? ==> OrphanageOwned(env, call.req) && NationalIdValid(env, call.req))
    && !AnyFamilyClash(s.db.families, PendingFamily(call))
    && (call.phase.OrphanFlushed? ==>
          forall i :: 0 <= i < |s.db.orphans| ==> !Clash(env, s.db.orphans[i], OrphanOf(env, call)))
  }

  predicate ApartFamilies(a: Call, b: Call) {
    PendingFamily(a).Some? && PendingFamily(b).Some? ==> !FamilyClash(PendingFamily(a).value, PendingFamily(b).value)
  }

  predicate ApartOrphans(env: Env, a: Call, b: Call) {
    a.phase.OrphanFlushed? && b.phase.OrphanFlushed? ==> !Clash(env, OrphanOf(env, a), OrphanOf(env, b))
  }

  predicate Apart(env: Env, a: Call, b: Call) {
    ApartFamilies(a, b) && ApartOrphans(env, a, b)
  }

  ghost predicate Inv(env: Env, db0: Db, s: State) {
    && Unique(env, s.db)
    && (forall c :: c in s.calls ==> CallOk(env, s, c))
    && (forall c, d :: c in s.calls && d in s.calls && c != d ==> Apart(env, s.calls[c], s.calls[d]))
    && s.db == Replay(env, db0, s.history)
    && Faithful(env, db0, s.history)
  }

  lemma {:induction false} ReplayAppend(env: Env, db0: Db, history: seq<Event>, e: Event)
    requires Faithful(env, db0, history)
    requires SameAnswer(env, Replay(env, db0, history), e)
    ensures Replay(env, db0, history + [e]) == ReplayEvent(env, Replay(env, db0, history), e)
    ensures Faithful(env, db0, history + [e])
  {
    var all := history + [e];
    assert all[..|history|] == history;
    forall i | 0 <= i < |all|
      ensures SameAnswer(env, Replay(env, db0, all[..i]), all[i])
    {
      if i < |history| {
        assert all[..i] == history[..i];
      }
    }
  }

  /** A rejection holds no rows, so it disturbs nobody; it only has to be what a serial call would say. */
  lemma {:induction false} SettleKeepsInv(env: Env, db0: Db, s: State, c: nat, v: Verdict)
    requires Inv(env, db0, s) && c in s.calls
    requires SameAnswer(env, s.db, Settled(c, s.calls[c].req, s.calls[c].draw, v))
    requires v.Failed? || Serial(env, s.db, s.calls[c].req, s.calls[c].draw).db == s.db
    ensures Inv(env, db0, Settle(s, c, v))
  {
    var s', e := Settle(s, c, v), Settled(c, s.calls[c].req, s.calls[c].draw, v);
    ReplayAppend(env, db0, s.history, e);
    forall d | d in s'.calls
      ensures CallOk(env, s', d)
    {
      assert CallOk(env, s, d);
    }
    forall d, e | d in s'.calls && e in s'.calls && d != e
      ensures Apart(env, s'.calls[d], s'.calls[e])
    {
      assert Apart(env, s.calls[d], s.calls[e]);
    }
  }

  /** Moving on to a later phase: the caller shows what the new phase claims. */
  lemma {:induction false} AdvanceKeepsInv(env: Env, db0: Db, s: State, c: nat, p: Phase)
    requires Inv(env, db0, s) && c in s.calls
    requires CallOk(env, Advance(s, c, p), c)
    requires forall d :: d in s.calls && d != c ==>
               Apart(env, s.calls[d], s.calls[c].(phase := p)) && Apart(env, s.calls[c].(phase := p), s.calls[d])
    ensures Inv(env, db0, Advance(s, c, p))
  {
    var s' := Advance(s, c, p);
    forall d | d in s'.calls
      ensures CallOk(env, s', d)
    {
      assert CallOk(env, s, d);
    }
  }

  lemma {:induction false} ClashSymmetric(env: Env, a: Orphan, b: Orphan)
    ensures Clash(env, a, b) <==> Clash(env, b, a)
  {
  }

  lemma {:induction false} RejectionIsSerial(env: Env, s: State, c: nat)
    requires c in s.calls && CallOk(env, s, c) && s.calls[c].phase.FamilyFlushed?
    requires FlushConflict(env, s.db.orphans, OrphanOf(env, s.calls[c])).Some?
    ensures var v := ConflictVerdict(FlushConflict(env, s.db.orphans, OrphanOf(env, s.calls[c])).value);
            v.Failed? || (Status(Serial(env, s.db, s.calls[c].req, s.calls[c].draw).verdict) == Status(v)
                          && Serial(env, s.db, s.calls[c].req, s.calls[c].draw).db == s.db)
  {
    FindDuplicateSpec(env, s.db.orphans, s.calls[c].req, s.calls[c].draw);
  }

  lemma {:induction false} FlushFamilyKeepsInv(env: Env, db0: Db, s: State, c: nat)
    requires Inv(env, db0, s) && Enabled(env, s, FlushFamily(c))
    ensures Inv(env, db0, Apply(env, s, FlushFamily(c)))
  {
    var call := s.calls[c];
    var f := BuildFamily(call.req, call.draw);
    assert CallOk(env, s, c);
    if AnyFamilyClash(s.db.families, f) {
      SettleKeepsInv(env, db0, s, c, Failed);
    } else {
      var moved := call.(phase := FamilyFlushed);
      forall d | d in s.calls && d != c
        ensures Apart(env, s.calls[d], moved) && Apart(env, moved, s.calls[d])
      {
        assert Apart(env, s.calls[d], call);
      }
      AdvanceKeepsInv(env, db0, s, c, FamilyFlushed);
    }
  }

  lemma {:induction false} FlushOrphanKeepsInv(env: Env, db0: Db, s: State, c: nat)
    requires Inv(env, db0, s) && Enabled(env, s, FlushOrphan(c))
    ensures Inv(env, db0, Apply(env, s, FlushOrphan(c)))
  {
    var call := s.calls[c];
    var o := OrphanOf(env, call);
    var conflict := FlushConflict(env, s.db.orphans, o);
    assert CallOk(env, s, c);
    if conflict.Some? {
      RejectionIsSerial(env, s, c);
      SettleKeepsInv(env, db0, s, c, ConflictVerdict(conflict.value));
    } else {
      var moved := call.(phase := OrphanFlushed);
      NoConflictMeansNoClash(env, s.db.orphans, o);
      forall d | d in s.calls && d != c
        ensures Apart(env, s.calls[d], moved) && Apart(env, moved, s.calls[d])
      {
        assert Apart(env, s.calls[d], call);
        ClashSymmetric(env, OrphanOf(env, s.calls[d]), o);
      }
      AdvanceKeepsInv(env, db0, s, c, OrphanFlushed);
    }
  }

  /** At its commit a call is what a serial create of this very moment would do. */
  lemma {:induction false} CommitIsSerial(env: Env, s: State, c: nat)
    requires c in s.calls && CallOk(env, s, c) && s.calls[c].phase.OrphanFlushed?
    ensures Serial(env, s.db, s.calls[c].req, s.calls[c].draw)
            == Outcome(Insert(env, s.db, s.calls[c].req, s.calls[c].draw), Created(s.calls[c].draw.orphanId))
  {
    AcceptedIff(env, s.db, s.calls[c].req, s.calls[c].draw);
  }

  lemma {:induction false} OthersSurviveCommit(env: Env, s: State, c: nat, d: nat)
    requires c in s.calls && d in s.calls && c != d
    requires CallOk(env, s, d) && s.calls[c].phase.OrphanFlushed?
    requires Apart(env, s.calls[c], s.calls[d])
    ensures CallOk(env, s.(db := Insert(env, s.db, s.calls[c].req, s.calls[c].draw)), d)
  {
  }

  lemma {:induction false} CommitKeepsCalls(env: Env, s: State, c: nat)
    requires Enabled(env, s, Commit(c))
    requires forall d :: d in s.calls ==> CallOk(env, s, d)
    requires forall d, e :: d in s.calls && e in s.calls && d != e ==> Apart(env, s.calls[d], s.calls[e])
    ensures var s' := Apply(env, s, Commit(c));
            forall d :: d in s'.calls ==> CallOk(env, s', d)
  {
    var s' := Apply(env, s, Commit(c));
    forall d | d in s'.calls
      ensures CallOk(env, s', d)
    {
      if d != c {
        OthersSurviveCommit(env, s, c, d);
      }
    }
  }

  lemma {:induction false} CommitKeepsReplay(env: Env, db0: Db, s: State, c: nat)
    requires Inv(env, db0, s) && Enabled(env, s, Commit(c))
    ensures var s' := Apply(env, s, Commit(c));
            Unique(env, s'.db) && s'.db == Replay(env, db0, s'.history) && Faithful(env, db0, s'.history)
  {
    var call := s.calls[c];
    assert CallOk(env, s, c);
    CommitIsSerial(env, s, c);
    SerialKeepsUnique(env, s.db, call.req, call.draw);
    ReplayAppend(env, db0, s.history, Settled(c, call.req, call.draw, Created(call.draw.orphanId)));
  }

  lemma {:induction false} CommitKeepsApart(env: Env, s: State, c: nat)
    requires Enabled(env, s, Commit(c))
    requires forall d, e :: d in s.calls && e in s.calls && d != e ==> Apart(env, s.calls[d], s.calls[e])
    ensures var s' := Apply(env, s, Commit(c));
            forall d, e :: d in s'.calls && e in s'.calls && d != e ==> Apart(env, s'.calls[d], s'.calls[e])
  {
    var s' := Apply(env, s, Commit(c));
    forall d, e | d in s'.calls && e in s'.calls && d != e
      ensures Apart(env, s'.calls[d], s'.calls[e])
    {
      assert Apart(env, s.calls[d], s.calls[e]);
    }
  }

  lemma {:induction false} CommitKeepsInv(env: Env, db0: Db, s: State, c: nat)
    requires Inv(env, db0, s) && Enabled(env, s, Commit(c))
    ensures Inv(env, db0, Apply(env, s, Commit(c)))
  {
    CommitKeepsCalls(env, s, c);
    CommitKeepsReplay(env, db0, s, c);
    CommitKeepsApart(env, s, c);
  }

  lemma {:induction false} OthersSurviveDelete(env: Env, s: State, d: nat, org: nat, user: nat, id: nat)
    requires d in s.calls && CallOk(env, s, d)
    ensures CallOk(env, s.(db := SoftDelete(s.db, org, user, id)), d)
  {
    var db := SoftDelete(s.db, org, user, id);
    if s.calls[d].phase.OrphanFlushed? {
      forall i | 0 <= i < |db.orphans|
        ensures !Clash(env, db.orphans[i], OrphanOf(env, s.calls[d]))
      {
        assert !Clash(env, s.db.orphans[i], OrphanOf(env, s.calls[d]));
      }
    }
  }

  lemma {:induction false} DeleteKeepsInv(env: Env, db0: Db, s: State, org: nat, user: nat, id: nat)
    requires Inv(env, db0, s)
    ensures Inv(env, db0, Apply(env, s, Delete(org, user, id)))
  {
    var s' := Apply(env, s, Delete(org, user, id));
    DeleteKeepsUnique(env, s.db, org, user, id);
    ReplayAppend(env, db0, s.history, Deleted(org, user, id));
    forall d | d in s'.calls
      ensures CallOk(env, s', d)
    {
      OthersSurviveDelete(env, s, d, org, user, id);
    }
  }

  lemma {:induction false} EarlyStepKeepsInv(env: Env, db0: Db, s: State, a: Action)
    requires Inv(env, db0, s) && Enabled(env, s, a)
    requires a.Validate? || a.PreCheck? || a.Crash?
    ensures Inv(env, db0, Apply(env, s, a))
  {
    var c := a.c;
    var call := s.calls[c];
    assert CallOk(env, s, c);
    var s' := Apply(env, s, a);
    if s'.calls[c].phase.Done? {
      SettleKeepsInv(env, db0, s, c, s'.calls[c].phase.verdict);
    } else {
      forall d | d in s.calls && d != c
        ensures Apart(env, s.calls[d], s'.calls[c]) && Apart(env, s'.calls[c], s.calls[d])
      {
      }
      AdvanceKeepsInv(env, db0, s, c, s'.calls[c].phase);
    }
  }

  lemma {:induction false} ArriveKeepsInv(env: Env, db0: Db, s: State, a: Action)
    requires Inv(env, db0, s) && Enabled(env, s, a) && a.Arrive?
    ensures Inv(env, db0, Apply(env, s, a))
  {
    var s' := Apply(env, s, a);
    forall d | d in s'.calls
      ensures CallOk(env, s', d)
    {
      if d != a.c {
        assert CallOk(env, s, d);
      }
    }
  }

  /** Every step of every call keeps the invariant. */
  lemma {:induction false} StepKeepsInv(env: Env, db0: Db, s: State, a: Action)
    requires Inv(env, db0, s) && Enabled(env, s, a)
    ensures Inv(env, db0, Apply(env, s, a))
  {
    match a
    case Arrive(_, _, _) => ArriveKeepsInv(env, db0, s, a);
    case Validate(_) => EarlyStepKeepsInv(env, db0, s, a);
    case PreCheck(_) => EarlyStepKeepsInv(env, db0, s, a);
    case FlushFamily(c) => FlushFamilyKeepsInv(env, db0, s, c);
    case FlushOrphan(c) => FlushOrphanKeepsInv(env, db0, s, c);
    case Commit(c) => CommitKeepsInv(env, db0, s, c);
    case Crash(_) => EarlyStepKeepsInv(env, db0, s, a);
    case Delete(org, user, id) => DeleteKeepsInv(env, db0, s, org, user, id);
  }
}
