/**
 `--purge` of the demo seed (backend/scripts/seed_demo.py): sixteen DELETE statements, one
 table at a time, against the schema's foreign keys with their ON DELETE actions.
 */
module Purge {
  import opened Options

  /** The tables with foreign keys into organisation data. The purge deletes from the first sixteen. */
  datatype Table =
    | Wishes | Needs | Skills | Media | Reports | Documents | Payments | Sponsorships | Orphans | Guardians
    | Families | Donors | BusinessRules | Partners | Users | Organizations
    | UserSessions | MarketingChannels | Orphanages | BankTransfers | BankTransferItems | Messages
    | Notifications | WebhookEndpoints | WebhookDeliveries | ApiKeys | PlatformSettings | AuditLog

  datatype OnDelete = Refuse | Cascade | SetNull

  datatype Key = Key(table: Table, id: nat)
  datatype Ref = Ref(target: Key, onDelete: OnDelete)

  /** A row with the organisation it belongs to and its non-null foreign keys. */
  datatype Row = Row(org: nat, refs: set<Ref>)

  type Store = map<Key, Row>

  /** The table the i-th DELETE statement empties. */
  function TableAt(i: nat): Table
    requires i < 16
  {
    if i == 0 then Wishes
    else if i == 1 then Needs
    else if i == 2 then Skills
    else if i == 3 then Media
    else if i == 4 then Reports
    else if i == 5 then Documents
    else if i == 6 then Payments
    else if i == 7 then Sponsorships
    else if i == 8 then Orphans
    else if i == 9 then Guardians
    else if i == 10 then Families
    else if i == 11 then Donors
    else if i == 12 then BusinessRules
    else if i == 13 then Partners
    else if i == 14 then Users
    else Organizations
  }

  /** The statement that names a table, or -1 for a table the purge never names. */
  function Position(t: Table): int {
    match t
    case Wishes => 0 case Needs => 1 case Skills => 2 case Media => 3 case Reports => 4 case Documents => 5
    case Payments => 6 case Sponsorships => 7 case Orphans => 8 case Guardians => 9 case Families => 10
    case Donors => 11 case BusinessRules => 12 case Partners => 13 case Users => 14 case Organizations => 15
    case _ => -1
  }

  lemma {:induction false} PositionOfStatement(i: nat)
    requires i < 16
    ensures Position(TableAt(i)) == i
  {
  }

  /** The foreign keys of the schema, by table. */
  predicate ForeignKey(child: Table, parent: Table, action: OnDelete) {
    match child
    case Organizations => false
    case Users => (parent.Organizations? && action.Refuse?) || (parent.Partners? && action.SetNull?)
    case UserSessions => parent.Users? && action.Cascade?
    case Partners => (parent.Organizations? && action.Cascade?) || (parent.Users? && action.Refuse?)
    case MarketingChannels => (parent.Organizations? && action.Cascade?) || (parent.Users? && action.Refuse?)
    case Families => action.Refuse? && (parent.Organizations? || parent.Partners? || parent.Users?)
    case Guardians => action.Refuse? && (parent.Organizations? || parent.Families? || parent.Users?)
    case Orphans =>
      action.Refuse? && (parent.Organizations? || parent.Partners? || parent.Families? || parent.Users?
                         || parent.Orphanages? || parent.MarketingChannels?)
    case Documents =>
      (action.Refuse? && (parent.Organizations? || parent.Users?))
      || (action.Cascade? && (parent.Orphans? || parent.Guardians? || parent.Families?))
    case Reports => (action.Refuse? && (parent.Organizations? || parent.Users?)) || (action.Cascade? && parent.Orphans?)
    case Media =>
      (action.Refuse? && (parent.Organizations? || parent.Users? || parent.Documents?))
      || (action.Cascade? && parent.Orphans?) || (action.SetNull? && parent.Reports?)
    case Skills => (action.Refuse? && parent.Organizations?) || (action.Cascade? && parent.Orphans?)
    case Wishes => (action.Refuse? && parent.Organizations?) || (action.Cascade? && parent.Orphans?)
    case Needs => (action.Refuse? && parent.Organizations?) || (action.Cascade? && parent.Orphans?)
    case Donors =>
      action.Refuse? && (parent.Organizations? || parent.Users? || parent.MarketingChannels? || parent.Donors?)
    case Sponsorships =>
      action.Refuse? && (parent.Organizations? || parent.Donors? || parent.Orphans? || parent.MarketingChannels?
                         || parent.Users?)
    case Payments =>
      action.Refuse? && (parent.Organizations? || parent.Donors? || parent.Sponsorships? || parent.Orphans?
                         || parent.MarketingChannels? || parent.Users?)
    case BusinessRules => action.Refuse? && (parent.Organizations? || parent.Users?)
    case Orphanages => action.Refuse? && (parent.Organizations? || parent.Partners? || parent.Users?)
    case BankTransfers =>
      action.Refuse? && (parent.Organizations? || parent.Partners? || parent.Users? || parent.Documents?)
    case BankTransferItems => (action.Cascade? && parent.BankTransfers?) || (action.Refuse? && parent.Orphans?)
    case Messages =>
      action.Refuse? && (parent.Organizations? || parent.Users? || parent.Orphans? || parent.Sponsorships?)
    case Notifications => action.Refuse? && (parent.Organizations? || parent.Users?)
    case WebhookEndpoints => action.Refuse? && (parent.Organizations? || parent.Users?)
    case WebhookDeliveries => action.Cascade? && parent.WebhookEndpoints?
    case ApiKeys => action.Refuse? && (parent.Organizations? || parent.Users?)
    case PlatformSettings => action.Refuse? && parent.Users?
    case AuditLog => false
  }

  // ── One DELETE statement ─────────────────────────────────────────────

  predicate PointsInto(row: Row, gone: set<Key>, action: OnDelete) {
    exists r :: r in row.refs && r.onDelete == action && r.target in gone
  }

  lemma {:induction false} Shrinks(all: set<Key>, gone: set<Key>, more: set<Key>)
    requires more != {} && more <= all - gone
    ensures all - (gone + more) < all - gone
  {
    var k :| k in more;
    assert k in all - gone && k !in all - (gone + more);
  }

  /** The deleted rows with everything ON DELETE CASCADE takes along. */
  function Cascaded(store: Store, gone: set<Key>): set<Key>
    decreases store.Keys - gone
  {
    var more := set k | k in store && k !in gone && PointsInto(store[k], gone, Cascade);
    if more == {} then gone
    else
      Shrinks(store.Keys, gone, more);
      Cascaded(store, gone + more)
  }

  /** The rows left, with SET NULL references to deleted rows cleared. */
  function Without(store: Store, gone: set<Key>): Store {
    map k | k in store && k !in gone ::
      store[k].(refs := set r | r in store[k].refs && !(r.onDelete.SetNull? && r.target in gone))
  }

  function Selected(store: Store, t: Table, org: nat): set<Key> {
    set k | k in store && k.table == t && store[k].org == org
  }

  /** DELETE FROM t WHERE organization_id = org; None when a remaining row still refers to a deleted one. */
  function DeleteWhere(store: Store, t: Table, org: nat): Option<Store> {
    var gone := Cascaded(store, Selected(store, t, org));
    var left := Without(store, gone);
    if exists k :: k in left && PointsInto(left[k], gone, Refuse) then None else Some(left)
  }

  const STATEMENTS := 16

  /** The j-th statement takes `before` to `after`. */
  ghost predicate Runs(before: Store, after: Store, org: nat, j: nat)
    requires j < STATEMENTS
  {
    DeleteWhere(before, TableAt(j), org) == Some(after)
  }

  ghost predicate RunsAt(states: seq<Store>, org: nat, j: nat)
    requires j + 1 < |states| <= STATEMENTS + 1
  {
    Runs(states[j], states[j + 1], org, j)
  }

  /** The states of a transaction that has run its first |states| - 1 statements. */
  ghost predicate Transaction(store: Store, org: nat, states: seq<Store>) {
    && 1 <= |states| <= STATEMENTS + 1 && states[0] == store
    && forall j: nat :: j + 1 < |states| ==> RunsAt(states, org, j)
  }

  ghost predicate Complete(store: Store, org: nat, states: seq<Store>) {
    Transaction(store, org, states) && |states| == STATEMENTS + 1
  }

  /** The next statement fails. */
  ghost predicate Stuck(store: Store, org: nat, states: seq<Store>) {
    && Transaction(store, org, states) && |states| <= STATEMENTS
    && DeleteWhere(states[|states| - 1], TableAt(|states| - 1), org).None?
  }

  lemma {:induction false} TransactionStep(store: Store, org: nat, states: seq<Store>, next: Store)
    requires Transaction(store, org, states) && |states| <= STATEMENTS
    requires Runs(states[|states| - 1], next, org, |states| - 1)
    ensures Transaction(store, org, states + [next])
  {
    var all := states + [next];
    forall j: nat | j + 1 < |all|
      ensures RunsAt(all, org, j)
    {
      if j + 1 < |states| {
        assert RunsAt(states, org, j) && all[j] == states[j] && all[j + 1] == states[j + 1];
      }
    }
  }

  // ── The session ──────────────────────────────────────────────────────

  datatype Outcome = Pass | Fail {
    predicate IsFailure() {
      Fail?
    }

    function PropagateFailure(): Outcome
      requires Fail?
    {
      Fail
    }
  }

  class PurgeSession {
    var committed: Store
    var working: Store
    ghost var states: seq<Store>

    constructor (store: Store)
      ensures committed == store && working == store
    {
      committed, working, states := store, store, [store];
    }

    /** Inside the transaction for an organisation, after i statements. */
    ghost predicate Open(org: nat, i: nat)
      reads this
    {
      |states| == i + 1 && Transaction(committed, org, states) && states[i] == working
    }

    method DeleteRows(t: Table, org: nat, ghost i: nat) returns (r: Outcome)
      requires i < STATEMENTS && TableAt(i) == t && Open(org, i)
      modifies this`working, this`states
      ensures r.Pass? ==> Open(org, i + 1)
      ensures r.Fail? ==> Stuck(committed, org, states)
    {
      var next := DeleteWhere(working, t, org);
      if next.None? {
        return Fail;
      }
      TransactionStep(committed, org, states, next.value);
      working, states := next.value, states + [next.value];
      return Pass;
    }

    /** Statements 0 to 3: wishes, needs, skills and media. */
    method DeleteProfiles(org: nat) returns (r: Outcome)
      requires Open(org, 0)
      modifies this`working, this`states
      ensures r.Pass? ==> Open(org, 4)
      ensures r.Fail? ==> Stuck(committed, org, states)
    {
      r := Pass;
      :- DeleteRows(Wishes, org, 0);
      :- DeleteRows(Needs, org, 1);
      :- DeleteRows(Skills, org, 2);
      :- DeleteRows(Media, org, 3);
    }

    /** Statements 4 to 7: reports, documents, payments and sponsorships. */
    method DeleteGiving(org: nat) returns (r: Outcome)
      requires Open(org, 4)
      modifies this`working, this`states
      ensures r.Pass? ==> Open(org, 8)
      ensures r.Fail? ==> Stuck(committed, org, states)
    {
      r := Pass;
      :- DeleteRows(Reports, org, 4);
      :- DeleteRows(Documents, org, 5);
      :- DeleteRows(Payments, org, 6);
      :- DeleteRows(Sponsorships, org, 7);
    }

    /** Statements 8 to 11: orphans, guardians, families and donors. */
    method DeletePeople(org: nat) returns (r: Outcome)
      requires Open(org, 8)
      modifies this`working, this`states
      ensures r.Pass? ==> Open(org, 12)
      ensures r.Fail? ==> Stuck(committed, org, states)
    {
      r := Pass;
      :- DeleteRows(Orphans, org, 8);
      :- DeleteRows(Guardians, org, 9);
      :- DeleteRows(Families, org, 10);
      :- DeleteRows(Donors, org, 11);
    }

    /** Statements 12 to 15: business rules, partners, users and the organisation itself. */
    method DeleteTenant(org: nat) returns (r: Outcome)
      requires Open(org, 12)
      modifies this`working, this`states
      ensures r.Pass? ==> Open(org, 16)
      ensures r.Fail? ==> Stuck(committed, org, states)
    {
      r := Pass;
      :- DeleteRows(BusinessRules, org, 12);
      :- DeleteRows(Partners, org, 13);
      :- DeleteRows(Users, org, 14);
      :- DeleteRows(Organizations, org, 15);
    }

    /** `_purge`; None is an organisation that does not exist. A failing statement leaves nothing committed. */
    method Purge(organisation: Option<nat>) returns (r: Outcome)
      requires working == committed
      modifies this
      ensures organisation.None? ==> r.Pass? && committed == old(committed)
      ensures organisation.Some? && r.Pass? ==>
                Complete(old(committed), organisation.value, states) && committed == states[STATEMENTS]
      ensures organisation.Some? && r.Fail? ==>
                Stuck(old(committed), organisation.value, states) && committed == old(committed)
    {
      if organisation.None? {
        return Pass;
      }
      var org := organisation.value;
      states := [working];
      :- DeleteProfiles(org);
      :- DeleteGiving(org);
      :- DeletePeople(org);
      :- DeleteTenant(org);
      committed := working;
      return Pass;
    }
  }

  // ── Integrity ────────────────────────────────────────────────────────

  /** Every foreign key resolves. */
  predicate Resolves(store: Store) {
    forall k, r :: k in store && r in store[k].refs ==> r.target in store
  }

  /** References follow the schema and stay inside one organisation. */
  predicate WellFormed(store: Store) {
    && (forall k, r :: k in store && r in store[k].refs ==> ForeignKey(k.table, r.target.table, r.onDelete))
    && (forall k, r :: k in store && r in store[k].refs && r.target in store ==> store[r.target].org == store[k].org)
  }

  lemma {:induction false} CascadedContains(store: Store, gone: set<Key>)
    ensures gone <= Cascaded(store, gone)
    ensures forall k :: k in store && PointsInto(store[k], Cascaded(store, gone), Cascade) ==>
              k in Cascaded(store, gone)
    decreases store.Keys - gone
  {
    var more := set k | k in store && k !in gone && PointsInto(store[k], gone, Cascade);
    if more == {} {
      forall k | k in store && PointsInto(store[k], gone, Cascade)
        ensures k in gone
      {
        assert k !in more;
      }
    } else {
      Shrinks(store.Keys, gone, more);
      CascadedContains(store, gone + more);
    }
  }

  /** A successful statement leaves every foreign key resolved: no step of the purge ever dangles. */
  lemma {:induction false} DeleteKeepsResolved(store: Store, t: Table, org: nat)
    requires Resolves(store) && DeleteWhere(store, t, org).Some?
    ensures Resolves(DeleteWhere(store, t, org).value)
  {
    var gone := Cascaded(store, Selected(store, t, org));
    var left := DeleteWhere(store, t, org).value;
    CascadedContains(store, Selected(store, t, org));
    forall k, r | k in left && r in left[k].refs
      ensures r.target in left
    {
      assert r in store[k].refs;
      assert !PointsInto(left[k], gone, Refuse) && !PointsInto(store[k], gone, Cascade);
    }
  }
}
