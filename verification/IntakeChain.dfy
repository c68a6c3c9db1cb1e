/**
 From the plaintext schema to concurrent registration: migrations 0018, 0020 and 0021 in
 sequence establish the national-id invariant, and every later run of creates keeps it.
 */
module IntakeChain {
  import opened Options
  import opened Crypto
  import opened Registration
  import opened Protocol
  import opened ProtocolRuns
  import opened Migrations

  /** The orphans table after all three migrations. */
  function Migrated(key: nat, nonces: nat -> nat, legacy: seq<LegacyRow<Orphan>>): seq<Orphan> {
    BackfillAll(key, DropColumns(EncryptRows(key, nonces, legacy)))
  }

  /** The id the migrations act on: the plaintext if present, else what the ciphertext holds. */
  function EffectiveId(key: nat, row: LegacyRow<Orphan>): Option<string> {
    if row.nationalId.Some? then row.nationalId
    else if row.encrypted.None? then None
    else DecryptField(key, row.encrypted.value)
  }

  predicate KeyFits(key: nat, row: LegacyRow<Orphan>) {
    row.nationalId.None? && row.encrypted.Some? ==> DecryptField(key, row.encrypted.value).Some?
  }

  predicate SameRegistration(key: nat, a: LegacyRow<Orphan>, b: LegacyRow<Orphan>) {
    !a.rest.deleted && !b.rest.deleted && a.rest.org == b.rest.org
    && EffectiveId(key, a).Some? && EffectiveId(key, b).Some?
    && WithoutSpaces(EffectiveId(key, a).value) == WithoutSpaces(EffectiveId(key, b).value)
  }

  lemma {:induction false} MigratedRow(key: nat, nonces: nat -> nat, legacy: seq<LegacyRow<Orphan>>, i: nat)
    requires i < |legacy|
    ensures var id := EffectiveId(key, legacy[i]);
            var o := Migrated(key, nonces, legacy)[i];
            && (Readable(key, DropColumns(EncryptRows(key, nonces, legacy))[i]) <==> KeyFits(key, legacy[i]))
            && (id.Some? ==> o.encrypted.Some? && DecryptField(key, o.encrypted.value) == id)
            && o.blindIndex == (if id.None? then None else Some(NationalIdBlindIndex(key, id.value)))
            && (KeyFits(key, legacy[i]) && id.None? ==> o.encrypted.None?)
            && o.(encrypted := None, blindIndex := None) == legacy[i].rest.(encrypted := None, blindIndex := None)
  {
    var row := EncryptRows(key, nonces, legacy)[i];
    assert row == EncryptRow(key, nonces(i), legacy[i]);
    assert Migrated(key, nonces, legacy)[i] == Backfill(key, DropColumn(row));
  }

  /**
   0021 succeeds exactly when every kept ciphertext fits the key and no two live rows of one
   organisation share an id.
   */
  lemma {:induction false} MigrationsSucceedIff(key: nat, nonces: nat -> nat, legacy: seq<LegacyRow<Orphan>>)
    ensures var rows := DropColumns(EncryptRows(key, nonces, legacy));
            ((forall i :: 0 <= i < |rows| ==> Readable(key, rows[i])) && IdsDistinct(BackfillAll(key, rows)))
            <==> (forall i :: 0 <= i < |legacy| ==> KeyFits(key, legacy[i]))
                 && (forall i, j :: 0 <= i < j < |legacy| ==> !SameRegistration(key, legacy[i], legacy[j]))
  {
    var rows := DropColumns(EncryptRows(key, nonces, legacy));
    forall i | 0 <= i < |legacy|
      ensures Readable(key, rows[i]) <==> KeyFits(key, legacy[i])
    {
      MigratedRow(key, nonces, legacy, i);
    }
    forall i, j | 0 <= i < j < |legacy|
      ensures IdClash(BackfillAll(key, rows)[i], BackfillAll(key, rows)[j])
              <==> SameRegistration(key, legacy[i], legacy[j])
    {
      ClashIffSameId(key, nonces, legacy, i, j);
    }
  }

  lemma {:induction false} ClashIffSameId(key: nat, nonces: nat -> nat, legacy: seq<LegacyRow<Orphan>>, i: nat, j: nat)
    requires i < j < |legacy|
    ensures var m := Migrated(key, nonces, legacy);
            IdClash(m[i], m[j]) <==> SameRegistration(key, legacy[i], legacy[j])
  {
    var m := Migrated(key, nonces, legacy);
    MigratedRow(key, nonces, legacy, i);
    MigratedRow(key, nonces, legacy, j);
    var a, b := EffectiveId(key, legacy[i]), EffectiveId(key, legacy[j]);
    assert m[i].deleted == legacy[i].rest.deleted && m[i].org == legacy[i].rest.org by {
      assert m[i].(encrypted := None, blindIndex := None).deleted == m[i].deleted;
      assert m[i].(encrypted := None, blindIndex := None).org == m[i].org;
    }
    assert m[j].deleted == legacy[j].rest.deleted && m[j].org == legacy[j].rest.org by {
      assert m[j].(encrypted := None, blindIndex := None).deleted == m[j].deleted;
      assert m[j].(encrypted := None, blindIndex := None).org == m[j].org;
    }
    if a.Some? && b.Some? {
      SameIndexIff(key, a.value, b.value);
    }
  }

  /** The three migrations as they run, one after the other. */
  method Migrate<G>(guardians: LegacyTable<G>, legacy: LegacyTable<Orphan>, key: nat,
                    nonces: nat -> nat, orphanNonces: nat -> nat)
    returns (table: OrphanTable, result: MigrationResult)
    requires guardians as object != legacy as object
    modifies guardians, legacy
    ensures result.Applied?
            <==> (forall i :: 0 <= i < |old(legacy.rows)| ==> KeyFits(key, old(legacy.rows)[i]))
                 && (forall i, j :: 0 <= i < j < |old(legacy.rows)| ==>
                       !SameRegistration(key, old(legacy.rows)[i], old(legacy.rows)[j]))
    ensures result.Applied? ==> table.rows == Migrated(key, orphanNonces, old(legacy.rows)) && table.uniqueNationalIds
  {
    MigrationsSucceedIff(key, orphanNonces, legacy.rows);
    Upgrade0018(guardians, legacy, key, nonces, orphanNonces);
    table := new OrphanTable(DropColumns(legacy.rows));
    result := table.Upgrade0021(key);
  }

  /** The unique indexes the database already had at schema 0017. */
  ghost predicate LegacyUnique(env: Env, legacy: seq<LegacyRow<Orphan>>) {
    forall i, j :: 0 <= i < j < |legacy| ==>
      !RowClash(legacy[i].rest, legacy[j].rest) && !NameClash(env, legacy[i].rest, legacy[j].rest)
  }

  /** A successful migration leaves a database in which ciphertext and index agree and all unique indexes hold. */
  lemma {:induction false} MigrationEstablishes(env: Env, nonces: nat -> nat, legacy: seq<LegacyRow<Orphan>>,
                             families: seq<Family>, audits: seq<Audit>)
    requires LegacyUnique(env, legacy)
    requires forall i, j :: 0 <= i < j < |families| ==> !FamilyClash(families[i], families[j])
    requires forall i :: 0 <= i < |legacy| ==> KeyFits(env.key, legacy[i])
    requires forall i, j :: 0 <= i < j < |legacy| ==> !SameRegistration(env.key, legacy[i], legacy[j])
    ensures Indexed(env, Migrated(env.key, nonces, legacy))
    ensures Unique(env, Db(Migrated(env.key, nonces, legacy), families, audits))
  {
    var rows := Migrated(env.key, nonces, legacy);
    forall i | 0 <= i < |rows|
      ensures IndexMatches(env, rows[i])
    {
      MigratedRow(env.key, nonces, legacy, i);
    }
    forall i, j | 0 <= i < j < |rows|
      ensures !Clash(env, rows[i], rows[j])
    {
      ClashIffSameId(env.key, nonces, legacy, i, j);
      MigratedRow(env.key, nonces, legacy, i);
      MigratedRow(env.key, nonces, legacy, j);
      KeysIgnoreIds(env, rows[i], legacy[i].rest);
      KeysIgnoreIds(env, rows[j], legacy[j].rest);
    }
  }

  lemma {:induction false} KeysIgnoreIds(env: Env, a: Orphan, b: Orphan)
    requires a.(encrypted := None, blindIndex := None) == b.(encrypted := None, blindIndex := None)
    ensures a.id == b.id && a.code == b.code && NameKeyOf(env, a) == NameKeyOf(env, b)
  {
    var x, y := a.(encrypted := None, blindIndex := None), b.(encrypted := None, blindIndex := None);
    assert x.id == a.id && y.id == b.id && x.code == a.code && y.code == b.code;
    assert NameKeyOf(env, x) == NameKeyOf(env, a) && NameKeyOf(env, y) == NameKeyOf(env, b);
  }

  /**
   The whole chain, then any interleaving of creates and deletions: every orphan has a blind
   index exactly with a ciphertext and over the id it encrypts, every id the migrations act
   on, kept in plaintext or as ciphertext before 0018, still decrypts from its row, and the
   uniqueness rules hold.
   */
  lemma {:induction false} ChainThenRuns(env: Env, nonces: nat -> nat, legacy: seq<LegacyRow<Orphan>>,
                      families: seq<Family>, audits: seq<Audit>, run: seq<Action>)
    requires LegacyUnique(env, legacy)
    requires forall i, j :: 0 <= i < j < |families| ==> !FamilyClash(families[i], families[j])
    requires forall i :: 0 <= i < |legacy| ==> KeyFits(env.key, legacy[i])
    requires forall i, j :: 0 <= i < j < |legacy| ==> !SameRegistration(env.key, legacy[i], legacy[j])
    requires Execute(env, Init(Db(Migrated(env.key, nonces, legacy), families, audits)), run).Some?
    ensures var db := Execute(env, Init(Db(Migrated(env.key, nonces, legacy), families, audits)), run).value.db;
            && Indexed(env, db.orphans) && Unique(env, db)
            && |legacy| <= |db.orphans|
            && (forall i :: 0 <= i < |legacy| && EffectiveId(env.key, legacy[i]).Some? ==>
                  db.orphans[i].encrypted.Some?
                  && DecryptField(env.key, db.orphans[i].encrypted.value) == EffectiveId(env.key, legacy[i]))
  {
    var db0 := Db(Migrated(env.key, nonces, legacy), families, audits);
    MigrationEstablishes(env, nonces, legacy, families, audits);
    RunKeepsIndexed(env, db0, run);
    Linearisable(env, db0, run);
    NothingHalfWritten(env, db0, run);
    var s := Execute(env, Init(db0), run).value;
    forall i | 0 <= i < |legacy| && EffectiveId(env.key, legacy[i]).Some?
      ensures i < |s.db.orphans| && s.db.orphans[i].encrypted.Some?
              && DecryptField(env.key, s.db.orphans[i].encrypted.value) == EffectiveId(env.key, legacy[i])
    {
      OldRowsRemain(env, db0, s.history, s.db, i);
      MigratedRow(env.key, nonces, legacy, i);
    }
    OldRowsCounted(env, db0, s.history, s.db);
  }

  lemma {:induction false} OldRowsCounted(env: Env, db0: Db, history: seq<Event>, db: Db)
    requires Accounted(env, db0, history, db)
    ensures |db0.orphans| <= |db.orphans|
  {
    assert |Undeleted(db.orphans)| == |Undeleted(db0.orphans)| + |CreatedOrphans(env, history)|;
  }

  lemma {:induction false} OldRowsRemain(env: Env, db0: Db, history: seq<Event>, db: Db, i: nat)
    requires Accounted(env, db0, history, db) && i < |db0.orphans|
    ensures i < |db.orphans| && db.orphans[i].encrypted == db0.orphans[i].encrypted
  {
    OldRowsCounted(env, db0, history, db);
    assert Undeleted(db.orphans)[i] == Undeleted(db0.orphans)[i];
  }
}
