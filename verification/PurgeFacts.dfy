/**
 The purge of the demo organisation: exactly when it succeeds, that foreign keys resolve
 after every statement, and what is left of the database.
 */
module PurgeFacts {
  import opened Purge

  /** The tables a statement on t can empty: t itself and what cascades from it at that point. */
  predicate Doomed(t: Table, c: Table) {
    c == t || (t.Users? && c.UserSessions?) || (t.Organizations? && c.MarketingChannels?)
  }

  /** The statements before the i-th have removed the organisation's rows from their tables. */
  predicate Cleared(store: Store, org: nat, i: int) {
    forall k :: k in store && store[k].org == org && Position(k.table) >= 0 ==> Position(k.table) >= i
  }

  /** A row of a table the purge never names that forbids deleting a row of one it does. */
  predicate Blocks(k: Key, row: Row) {
    Position(k.table) == -1 && exists r :: r in row.refs && r.onDelete.Refuse? && Position(r.target.table) >= 0
  }

  predicate Unblocked(store: Store, org: nat) {
    forall k :: k in store && store[k].org == org ==> !Blocks(k, store[k])
  }

  // ── The order of the statements respects the schema ──────────────────

  lemma {:induction false} CascadesFollowOrder(c: Table, p: Table, t: Table)
    requires ForeignKey(c, p, Cascade) && Doomed(t, p) && Position(t) >= 0
    ensures Doomed(t, c) || 0 <= Position(c) < Position(t)
  {
  }

  lemma {:induction false} RefusalsFollowOrder(c: Table, p: Table, t: Table)
    requires ForeignKey(c, p, Refuse) && Doomed(t, p) && Position(t) >= 0
    ensures c == t || 0 <= Position(c) < Position(t) || (Position(c) == -1 && Position(p) >= 0)
  {
  }

  // ── One statement ────────────────────────────────────────────────────

  /** Everything in `gone` is a row of the organisation in a doomed table. */
  predicate AllDoomed(store: Store, gone: set<Key>, t: Table, org: nat) {
    forall k :: k in gone ==> k in store && store[k].org == org && Doomed(t, k.table)
  }

  lemma {:induction false} CascadedDoomed(store: Store, gone: set<Key>, t: Table, org: nat)
    requires WellFormed(store) && Position(t) >= 0 && Cleared(store, org, Position(t))
    requires AllDoomed(store, gone, t, org)
    ensures AllDoomed(store, Cascaded(store, gone), t, org)
    decreases store.Keys - gone
  {
    var more := set k | k in store && k !in gone && PointsInto(store[k], gone, Cascade);
    if more != {} {
      Shrinks(store.Keys, gone, more);
      forall c | c in more
        ensures store[c].org == org && Doomed(t, c.table)
      {
        var r :| r in store[c].refs && r.onDelete == Cascade && r.target in gone;
        CascadesFollowOrder(c.table, r.target.table, t);
      }
      CascadedDoomed(store, gone + more, t, org);
    }
  }

  function Gone(store: Store, t: Table, org: nat): set<Key> {
    Cascaded(store, Selected(store, t, org))
  }

  lemma {:induction false} GoneDoomed(store: Store, t: Table, org: nat)
    requires WellFormed(store) && Position(t) >= 0 && Cleared(store, org, Position(t))
    ensures AllDoomed(store, Gone(store, t, org), t, org)
    ensures Selected(store, t, org) <= Gone(store, t, org)
  {
    CascadedDoomed(store, Selected(store, t, org), t, org);
    CascadedContains(store, Selected(store, t, org));
  }

  lemma {:induction false} StatementSucceeds(store: Store, t: Table, org: nat)
    requires Resolves(store) && WellFormed(store) && Unblocked(store, org)
    requires Position(t) >= 0 && Cleared(store, org, Position(t))
    ensures DeleteWhere(store, t, org).Some?
  {
    var gone := Gone(store, t, org);
    var left := Without(store, gone);
    GoneDoomed(store, t, org);
    forall k | k in left
      ensures !PointsInto(left[k], gone, Refuse)
    {
      forall r | r in left[k].refs && r.onDelete == Refuse
        ensures r.target !in gone
      {
        assert r in store[k].refs;
        RefusedTargetStays(store, k, r, t, org);
      }
    }
  }

  lemma {:induction false} RefusedTargetStays(store: Store, k: Key, r: Ref, t: Table, org: nat)
    requires Resolves(store) && WellFormed(store) && Unblocked(store, org)
    requires Position(t) >= 0 && Cleared(store, org, Position(t))
    requires k in store && k !in Gone(store, t, org) && r in store[k].refs && r.onDelete.Refuse?
    ensures r.target !in Gone(store, t, org)
  {
    GoneDoomed(store, t, org);
    assert store[r.target].org == store[k].org;
    assert store[k].org == org ==> !Blocks(k, store[k]);
    assert k !in Selected(store, t, org);
    if Doomed(t, r.target.table) {
      RefusalsFollowOrder(k.table, r.target.table, t);
    }
  }

  /** After a statement: rows of other organisations are as before, and its own table is cleared too. */
  lemma {:induction false} StatementEffect(store: Store, t: Table, org: nat)
    requires Resolves(store) && WellFormed(store)
    requires Position(t) >= 0 && Cleared(store, org, Position(t))
    requires DeleteWhere(store, t, org).Some?
    ensures var after := DeleteWhere(store, t, org).value;
            && Resolves(after) && WellFormed(after) && Cleared(after, org, Position(t) + 1)
            && (Unblocked(store, org) ==> Unblocked(after, org))
            && Narrowed(store, after, org)
  {
    var after := DeleteWhere(store, t, org).value;
    DeleteKeepsResolved(store, t, org);
    StatementNarrows(store, t, org);
    NarrowedKeeps(store, after, org);
    StatementClears(store, t, org);
  }

  lemma {:induction false} StatementClears(store: Store, t: Table, org: nat)
    requires WellFormed(store) && Position(t) >= 0 && Cleared(store, org, Position(t))
    requires DeleteWhere(store, t, org).Some?
    ensures Cleared(DeleteWhere(store, t, org).value, org, Position(t) + 1)
  {
    var after := DeleteWhere(store, t, org).value;
    GoneDoomed(store, t, org);
    forall k | k in after && after[k].org == org && Position(k.table) >= 0
      ensures Position(k.table) >= Position(t) + 1
    {
      assert k !in Selected(store, t, org);
      OnePerPosition(k.table, t);
    }
  }

  lemma {:induction false} OnePerPosition(c: Table, t: Table)
    ensures Position(c) == Position(t) >= 0 ==> c == t
  {
  }

  lemma {:induction false} StatementNarrows(store: Store, t: Table, org: nat)
    requires Resolves(store) && WellFormed(store)
    requires Position(t) >= 0 && Cleared(store, org, Position(t))
    requires DeleteWhere(store, t, org).Some?
    ensures Narrowed(store, DeleteWhere(store, t, org).value, org)
  {
    GoneDoomed(store, t, org);
    var gone, after := Gone(store, t, org), DeleteWhere(store, t, org).value;
    forall k | k in store && store[k].org != org
      ensures k in after && after[k] == store[k]
    {
      assert forall r :: r in store[k].refs ==> store[r.target].org != org && r.target !in gone;
      assert after[k].refs == store[k].refs;
    }
  }

  lemma {:induction false} NarrowedKeeps(store: Store, after: Store, org: nat)
    requires WellFormed(store) && Narrowed(store, after, org)
    ensures WellFormed(after)
    ensures Unblocked(store, org) ==> Unblocked(after, org)
  {
    if Unblocked(store, org) {
      forall k | k in after && after[k].org == org
        ensures !Blocks(k, after[k])
      {
        assert !Blocks(k, store[k]);
      }
    }
  }

  /** `after` holds a part of `store`: other organisations' rows untouched, this one's possibly fewer. */
  predicate Narrowed(store: Store, after: Store, org: nat) {
    && (forall k :: k in after ==> k in store && after[k].org == store[k].org && after[k].refs <= store[k].refs)
    && (forall k :: k in store && store[k].org != org ==> k in after && after[k] == store[k])
  }

  // ── The whole transaction ────────────────────────────────────────────

  /** Every state of the transaction resolves, follows the schema and has the tables so far cleared. */
  lemma {:induction false} StatesSound(store: Store, org: nat, states: seq<Store>, i: nat)
    requires Resolves(store) && WellFormed(store) && Transaction(store, org, states) && i < |states|
    ensures Resolves(states[i]) && WellFormed(states[i]) && Cleared(states[i], org, i)
            && Narrowed(store, states[i], org)
    ensures Unblocked(store, org) ==> Unblocked(states[i], org)
  {
    if i > 0 {
      StatesSound(store, org, states, i - 1);
      PositionOfStatement(i - 1);
      assert RunsAt(states, org, i - 1);
      StatementEffect(states[i - 1], TableAt(i - 1), org);
      NarrowedTwice(store, states[i - 1], states[i], org);
    }
  }

  lemma {:induction false} NarrowedTwice(a: Store, b: Store, c: Store, org: nat)
    requires Narrowed(a, b, org) && Narrowed(b, c, org)
    ensures Narrowed(a, c, org)
  {
  }

  lemma {:induction false} Completes(store: Store, org: nat, states: seq<Store>) returns (all: seq<Store>)
    requires Resolves(store) && WellFormed(store) && Unblocked(store, org)
    requires Transaction(store, org, states)
    ensures Complete(store, org, all)
    decreases STATEMENTS + 1 - |states|
  {
    if |states| == STATEMENTS + 1 {
      all := states;
    } else {
      var i := |states| - 1;
      StatesSound(store, org, states, i);
      PositionOfStatement(i);
      StatementSucceeds(states[i], TableAt(i), org);
      var next := DeleteWhere(states[i], TableAt(i), org).value;
      TransactionStep(store, org, states, next);
      all := Completes(store, org, states + [next]);
    }
  }

  lemma {:induction false} BlockerNotDoomed(c: Table, p: Table, t: Table)
    requires ForeignKey(c, p, Refuse) && Position(c) == -1 && 0 <= Position(t) <= Position(p)
    ensures !Doomed(t, c)
  {
  }

  /** A blocking row survives every statement before the one on the row it protects. */
  lemma {:induction false} BlockerSurvives(store: Store, org: nat, states: seq<Store>, b: Key, r: Ref, i: nat)
    requires Resolves(store) && WellFormed(store) && Transaction(store, org, states)
    requires b in store && store[b].org == org && Position(b.table) == -1
    requires r in store[b].refs && r.onDelete.Refuse? && i <= Position(r.target.table)
    requires i < |states|
    ensures b in states[i] && r in states[i][b].refs
  {
    if i > 0 {
      BlockerSurvives(store, org, states, b, r, i - 1);
      assert RunsAt(states, org, i - 1);
      StatesSound(store, org, states, i - 1);
      PositionOfStatement(i - 1);
      BlockerNotDoomed(b.table, r.target.table, TableAt(i - 1));
      GoneDoomed(states[i - 1], TableAt(i - 1), org);
    }
  }

  /** The statement on the protected row then fails, so the transaction never gets past it. */
  lemma {:induction false} BlockerStops(store: Store, org: nat, states: seq<Store>, b: Key, r: Ref)
    requires Resolves(store) && WellFormed(store) && Transaction(store, org, states)
    requires b in store && store[b].org == org && Position(b.table) == -1
    requires r in store[b].refs && r.onDelete.Refuse? && Position(r.target.table) >= 0
    ensures |states| - 1 <= Position(r.target.table)
  {
    var i: nat := Position(r.target.table);
    if i < |states| - 1 {
      StatesSound(store, org, states, i);
      BlockerSurvives(store, org, states, b, r, i);
      PositionOfStatement(i);
      OnePerPosition(r.target.table, TableAt(i));
      assert RunsAt(states, org, i);
      StatementRefused(states[i], TableAt(i), org, b, r);
    }
  }

  lemma {:induction false} StatementRefused(store: Store, t: Table, org: nat, b: Key, r: Ref)
    requires Resolves(store) && WellFormed(store) && Position(t) >= 0 && Cleared(store, org, Position(t))
    requires b in store && store[b].org == org && Position(b.table) == -1
    requires r in store[b].refs && r.onDelete.Refuse? && r.target.table == t
    ensures DeleteWhere(store, t, org).None?
  {
    var gone := Gone(store, t, org);
    var left := Without(store, gone);
    GoneDoomed(store, t, org);
    BlockerNotDoomed(b.table, r.target.table, t);
    assert r.target in Selected(store, t, org);
    assert b in left && r in left[b].refs;
    assert PointsInto(left[b], gone, Refuse);
  }

  // ── Main results ─────────────────────────────────────────────────────

  /**
   The purge goes through exactly when no row of the organisation outside the sixteen tables
   forbids the deletion of a row inside them.
   */
  lemma {:induction false} PurgeSucceedsIff(store: Store, org: nat)
    requires Resolves(store) && WellFormed(store)
    ensures (exists states :: Complete(store, org, states)) <==> Unblocked(store, org)
  {
    if Unblocked(store, org) {
      var states := Completes(store, org, [store]);
      assert Complete(store, org, states);
    } else {
      var b :| b in store && store[b].org == org && Blocks(b, store[b]);
      var r :| r in store[b].refs && r.onDelete.Refuse? && Position(r.target.table) >= 0;
      forall states | Transaction(store, org, states)
        ensures !Complete(store, org, states)
      {
        BlockerStops(store, org, states, b, r);
      }
    }
  }

  /** An organisation whose user has sent a message: valid data, and a purge that cannot succeed. */
  lemma {:induction false} MessageBlocks(org: nat, user: nat, message: nat) returns (store: Store)
    ensures Resolves(store) && WellFormed(store) && !Unblocked(store, org)
    ensures !exists states :: Complete(store, org, states)
  {
    var o, u, m := Key(Organizations, org), Key(Users, user), Key(Messages, message);
    var toOrg, toUser := Ref(o, Refuse), Ref(u, Refuse);
    store := map[o := Row(org, {}), u := Row(org, {toOrg}), m := Row(org, {toOrg, toUser})];
    assert toUser in store[m].refs;
    assert Blocks(m, store[m]);
    PurgeSucceedsIff(store, org);
  }

  /**
   The outcome is determined: a transaction that gets stuck is as far as any can go, and the
   organisation then does own a blocking row.
   */
  lemma {:induction false} StuckMeansBlocked(store: Store, org: nat, states: seq<Store>)
    requires Resolves(store) && WellFormed(store) && Stuck(store, org, states)
    ensures !exists all :: Complete(store, org, all)
    ensures exists k :: k in store && store[k].org == org && Blocks(k, store[k])
  {
    forall all | Transaction(store, org, all)
      ensures !Complete(store, org, all)
    {
      StuckIsLast(store, org, states, all);
    }
    PurgeSucceedsIff(store, org);
  }

  lemma {:induction false} StuckIsLast(store: Store, org: nat, states: seq<Store>, all: seq<Store>)
    requires Stuck(store, org, states) && Transaction(store, org, all)
    ensures |all| <= |states|
  {
    if |states| < |all| {
      assert RunsAt(all, org, |states| - 1);
      SameStates(store, org, states, all, |states| - 1);
      assert false;
    }
  }

  lemma {:induction false} SameStates(store: Store, org: nat, a: seq<Store>, b: seq<Store>, i: nat)
    requires Transaction(store, org, a) && Transaction(store, org, b) && i < |a| && i < |b|
    ensures a[i] == b[i]
  {
    if i > 0 {
      SameStates(store, org, a, b, i - 1);
      assert RunsAt(a, org, i - 1) && RunsAt(b, org, i - 1);
    }
  }

  /** Nothing but references to rows that are gone is lost from a row that stays. */
  predicate OnlyDanglingLost(store: Store, after: Store) {
    forall k :: k in after && k in store ==> after[k].refs == set r | r in store[k].refs && r.target in after
  }

  lemma {:induction false} StatementLosesDangling(store: Store, t: Table, org: nat)
    requires Resolves(store) && DeleteWhere(store, t, org).Some?
    ensures OnlyDanglingLost(store, DeleteWhere(store, t, org).value)
  {
    var gone, after := Gone(store, t, org), DeleteWhere(store, t, org).value;
    DeleteKeepsResolved(store, t, org);
    forall k | k in after && k in store
      ensures after[k].refs == set r | r in store[k].refs && r.target in after
    {
      forall r | r in store[k].refs && r.target in after
        ensures r in after[k].refs
      {
        assert r.target !in gone;
      }
    }
  }

  lemma {:induction false} DanglingTwice(a: Store, b: Store, c: Store)
    requires OnlyDanglingLost(a, b) && OnlyDanglingLost(b, c)
    requires forall k :: k in c ==> k in b
    ensures OnlyDanglingLost(a, c)
  {
    forall k | k in c && k in a
      ensures c[k].refs == set r | r in a[k].refs && r.target in c
    {
      assert c[k].refs == set r | r in b[k].refs && r.target in c;
      assert b[k].refs == set r | r in a[k].refs && r.target in b;
    }
  }

  lemma {:induction false} StatesLoseDangling(store: Store, org: nat, states: seq<Store>, i: nat)
    requires Resolves(store) && WellFormed(store) && Transaction(store, org, states) && i < |states|
    ensures OnlyDanglingLost(store, states[i])
  {
    if i > 0 {
      StatesLoseDangling(store, org, states, i - 1);
      StatesSound(store, org, states, i - 1);
      assert RunsAt(states, org, i - 1);
      StatementLosesDangling(states[i - 1], TableAt(i - 1), org);
      DanglingTwice(store, states[i - 1], states[i]);
    }
  }

  /** A row the purge has to leave: of an unnamed table, and with no cascading reference into a named one. */
  predicate Stays(k: Key, row: Row) {
    Position(k.table) == -1 && forall r :: r in row.refs && r.onDelete.Cascade? ==> Position(r.target.table) == -1
  }

  /** Everything a cascade takes was selected or points at something it takes. */
  lemma {:induction false} CascadedOrigin(store: Store, gone: set<Key>, k: Key)
    requires k in Cascaded(store, gone)
    ensures k in gone || (k in store && PointsInto(store[k], Cascaded(store, gone), Cascade))
    decreases store.Keys - gone
  {
    var more := set c | c in store && c !in gone && PointsInto(store[c], gone, Cascade);
    if more != {} {
      Shrinks(store.Keys, gone, more);
      CascadedOrigin(store, gone + more, k);
      CascadedContains(store, gone + more);
    }
  }

  lemma {:induction false} OnlyDoomedCascade(c: Table, p: Table, t: Table)
    requires ForeignKey(c, p, Cascade) && Doomed(t, c) && Doomed(t, p) && 0 <= Position(t)
    ensures Position(c) >= 0 || Position(p) >= 0
  {
  }

  /** One statement never takes a row that has to stay. */
  lemma {:induction false} StatementLeaves(store: Store, t: Table, org: nat, k: Key)
    requires WellFormed(store) && Position(t) >= 0 && Cleared(store, org, Position(t))
    requires k in store && Stays(k, store[k])
    ensures k !in Gone(store, t, org)
  {
    if k in Gone(store, t, org) {
      GoneDoomed(store, t, org);
      CascadedOrigin(store, Selected(store, t, org), k);
      var r :| r in store[k].refs && r.onDelete == Cascade && r.target in Gone(store, t, org);
      OnlyDoomedCascade(k.table, r.target.table, t);
      assert false;
    }
  }

  lemma {:induction false} StaysThroughout(store: Store, org: nat, states: seq<Store>, i: nat, k: Key)
    requires Resolves(store) && WellFormed(store) && Transaction(store, org, states) && i < |states|
    requires k in store && Stays(k, store[k])
    ensures k in states[i]
  {
    if i > 0 {
      StaysThroughout(store, org, states, i - 1, k);
      StatesSound(store, org, states, i - 1);
      PositionOfStatement(i - 1);
      assert RunsAt(states, org, i - 1);
      StatementLeaves(states[i - 1], TableAt(i - 1), org, k);
    }
  }

  /** What is left of the organisation has no cascading reference into a named table: its target would be gone. */
  lemma {:induction false} SurvivorStays(store: Store, org: nat, states: seq<Store>, k: Key)
    requires Resolves(store) && WellFormed(store) && Complete(store, org, states)
    requires k in states[STATEMENTS] && states[STATEMENTS][k].org == org
    ensures k in store && Stays(k, store[k])
  {
    var after := states[STATEMENTS];
    StatesSound(store, org, states, STATEMENTS);
    forall r | r in store[k].refs && r.onDelete.Cascade?
      ensures Position(r.target.table) == -1
    {
      CascadeRefsRemain(store, org, states, STATEMENTS, k, r);
      assert r.target in after && after[r.target].org == org;
    }
  }

  /** What the purge leaves, described from the database before it. */
  function Purged(store: Store, org: nat): Store {
    var kept := map k | k in store && (store[k].org != org || Stays(k, store[k])) :: store[k];
    map k | k in kept :: kept[k].(refs := set r | r in kept[k].refs && r.target in kept)
  }

  /**
   A completed purge leaves exactly this: every row of other organisations as it was, and of
   the organisation the rows of unnamed tables that do not cascade from a named one, less
   their references to rows that are gone. After every statement on the way all foreign keys
   resolve.
   */
  lemma {:induction false} PurgeIsExact(store: Store, org: nat, states: seq<Store>)
    requires Resolves(store) && WellFormed(store) && Complete(store, org, states)
    ensures forall i :: 0 <= i <= STATEMENTS ==> Resolves(states[i])
    ensures states[STATEMENTS] == Purged(store, org)
    ensures Narrowed(store, states[STATEMENTS], org)
    ensures forall k :: k in states[STATEMENTS] && states[STATEMENTS][k].org == org ==> Position(k.table) == -1
  {
    var after, purged := states[STATEMENTS], Purged(store, org);
    forall i | 0 <= i <= STATEMENTS
      ensures Resolves(states[i])
    {
      StatesSound(store, org, states, i);
    }
    StatesSound(store, org, states, STATEMENTS);
    SurvivorsExactly(store, org, states);
    StatesLoseDangling(store, org, states, STATEMENTS);
    assert after.Keys == purged.Keys;
    forall k | k in after
      ensures after[k] == purged[k]
    {
      assert after[k].refs == purged[k].refs;
    }
  }

  /** A row survives exactly if it is another organisation's or has to stay. */
  lemma {:induction false} SurvivorsExactly(store: Store, org: nat, states: seq<Store>)
    requires Resolves(store) && WellFormed(store) && Complete(store, org, states)
    ensures forall k :: k in states[STATEMENTS] <==> k in store && (store[k].org != org || Stays(k, store[k]))
  {
    StatesSound(store, org, states, STATEMENTS);
    forall k | k in store && store[k].org == org && Stays(k, store[k])
      ensures k in states[STATEMENTS]
    {
      StaysThroughout(store, org, states, STATEMENTS, k);
    }
    forall k | k in states[STATEMENTS] && states[STATEMENTS][k].org == org
      ensures Stays(k, store[k])
    {
      SurvivorStays(store, org, states, k);
    }
  }

  /** Rows without references, as those of the audit log are, outlive their organisation. */
  lemma {:induction false} AuditRowsRemain(store: Store, org: nat, states: seq<Store>, k: Key)
    requires Resolves(store) && WellFormed(store) && Complete(store, org, states)
    requires k in store && k.table.AuditLog?
    ensures k in states[STATEMENTS] && states[STATEMENTS][k] == store[k]
  {
    assert store[k].refs == {} by {
      assert forall r :: r in store[k].refs ==> ForeignKey(k.table, r.target.table, r.onDelete);
    }
    PurgeIsExact(store, org, states);
    assert Stays(k, store[k]);
    assert states[STATEMENTS][k].refs == store[k].refs;
  }

  /** With nothing beyond seeded rows and login sessions, the organisation disappears completely. */
  lemma {:induction false} PurgeLeavesNothing(store: Store, org: nat, states: seq<Store>)
    requires Resolves(store) && WellFormed(store) && Complete(store, org, states)
    requires forall k :: k in store && store[k].org == org ==>
               Position(k.table) >= 0 || (k.table.UserSessions? && store[k].refs != {})
    ensures forall k :: k in states[STATEMENTS] ==> states[STATEMENTS][k].org != org
  {
    var after := states[STATEMENTS];
    PurgeIsExact(store, org, states);
    StatesSound(store, org, states, STATEMENTS);
    forall k | k in after
      ensures after[k].org != org
    {
      if after[k].org == org {
        var r :| r in store[k].refs;
        assert ForeignKey(k.table, r.target.table, r.onDelete);
        CascadeRefsRemain(store, org, states, STATEMENTS, k, r);
        UserRemains(after, k, r);
      }
    }
  }

  lemma {:induction false} UserRemains(after: Store, k: Key, r: Ref)
    requires Resolves(after) && WellFormed(after)
    requires k in after && k.table.UserSessions? && r in after[k].refs
    ensures r.target in after && r.target.table.Users? && after[r.target].org == after[k].org
  {
    assert ForeignKey(k.table, r.target.table, r.onDelete);
  }

  /** A row that survives keeps its cascading references. */
  lemma {:induction false} CascadeRefsRemain(store: Store, org: nat, states: seq<Store>, i: nat, k: Key, r: Ref)
    requires Resolves(store) && WellFormed(store) && Transaction(store, org, states) && i < |states|
    requires k in states[i] && k in store && r in store[k].refs && r.onDelete.Cascade?
    ensures r in states[i][k].refs
  {
    if i > 0 {
      assert RunsAt(states, org, i - 1);
      CascadeRefsRemain(store, org, states, i - 1, k, r);
    }
  }
}
