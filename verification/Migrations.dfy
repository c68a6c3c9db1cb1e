/**
 Migrations 0018, 0020 and 0021: national ids are encrypted row by row, the plaintext column
 is dropped, and a blind index is computed from the ciphertexts and made unique.
 */
module Migrations {
  import opened Options
  import opened Crypto
  import opened Registration

  /** A row at schema 0017: both national-id columns, and every other column. */
  datatype LegacyRow<R> = LegacyRow(nationalId: Option<string>, encrypted: Option<Token>, rest: R)

  // ── 0018: encrypt and null ───────────────────────────────────────────

  function EncryptRow<R>(key: nat, nonce: nat, row: LegacyRow<R>): LegacyRow<R> {
    if row.nationalId.None? then row
    else row.(encrypted := Some(EncryptField(key, nonce, row.nationalId.value)), nationalId := None)
  }

  /** A whole table after 0018; nonces(i) is what Fernet draws for row i. */
  function EncryptRows<R>(key: nat, nonces: nat -> nat, rows: seq<LegacyRow<R>>): (after: seq<LegacyRow<R>>)
    ensures |after| == |rows|
    ensures forall i :: 0 <= i < |rows| ==> after[i] == EncryptRow(key, nonces(i), rows[i])
  {
    seq(|rows|, i requires 0 <= i < |rows| => EncryptRow(key, nonces(i), rows[i]))
  }

  class LegacyTable<R> {
    var rows: seq<LegacyRow<R>>

    constructor (rows: seq<LegacyRow<R>>)
      ensures this.rows == rows
    {
      this.rows := rows;
    }

    /** SELECT id, national_id ... WHERE national_id IS NOT NULL, with positions as ids. */
    method SelectPlain() returns (selected: seq<nat>)
      ensures forall k :: 0 <= k < |selected| ==> selected[k] < |rows| && rows[selected[k]].nationalId.Some?
      ensures forall k, l :: 0 <= k < l < |selected| ==> selected[k] < selected[l]
      ensures forall i :: 0 <= i < |rows| && rows[i].nationalId.Some? ==> i in selected
    {
      selected := [];
      for i := 0 to |rows|
        invariant forall k :: 0 <= k < |selected| ==> selected[k] < i && rows[selected[k]].nationalId.Some?
        invariant forall k, l :: 0 <= k < l < |selected| ==> selected[k] < selected[l]
        invariant forall j :: 0 <= j < i && rows[j].nationalId.Some? ==> j in selected
      {
        if rows[i].nationalId.Some? {
          selected := selected + [i];
        }
      }
    }

    /** The backfill of one table. */
    method EncryptAll(key: nat, nonces: nat -> nat)
      modifies this
      ensures rows == EncryptRows(key, nonces, old(rows))
    {
      var selected := SelectPlain();
      for k := 0 to |selected|
        invariant |rows| == |old(rows)|
        invariant forall i :: 0 <= i < |rows| ==>
                    rows[i] == if i in selected[..k] then EncryptRow(key, nonces(i), old(rows)[i]) else old(rows)[i]
      {
        var i := selected[k];
        assert i !in selected[..k];
        assert selected[..k + 1] == selected[..k] + [i];
        rows := rows[i := rows[i].(encrypted := Some(EncryptField(key, nonces(i), rows[i].nationalId.value)),
                                   nationalId := None)];
      }
      assert selected[..|selected|] == selected;
    }
  }

  method Upgrade0018<G, O>(guardians: LegacyTable<G>, orphans: LegacyTable<O>, key: nat,
                           nonces: nat -> nat, orphanNonces: nat -> nat)
    modifies guardians, orphans
    requires guardians as object != orphans as object
    ensures guardians.rows == EncryptRows(key, nonces, old(guardians.rows))
    ensures orphans.rows == EncryptRows(key, orphanNonces, old(orphans.rows))
  {
    guardians.EncryptAll(key, nonces);
    orphans.EncryptAll(key, orphanNonces);
  }

  /** Running 0018 again, with whatever nonces, finds nothing to do. */
  lemma {:induction false} EncryptIdempotent<R>(key: nat, nonces: nat -> nat, others: nat -> nat,
                                                rows: seq<LegacyRow<R>>)
    ensures EncryptRows(key, others, EncryptRows(key, nonces, rows)) == EncryptRows(key, nonces, rows)
  {
    var once := EncryptRows(key, nonces, rows);
    var twice := EncryptRows(key, others, once);
    forall i | 0 <= i < |rows|
      ensures twice[i] == once[i]
    {
      assert once[i].nationalId.None?;
    }
  }

  /** Every plaintext id can be decrypted afterwards, and no plaintext remains. */
  lemma {:induction false} PlaintextsSurvive<R>(key: nat, nonces: nat -> nat, rows: seq<LegacyRow<R>>, i: nat)
    requires i < |rows|
    ensures var row := EncryptRows(key, nonces, rows)[i];
            && row.nationalId.None? && row.rest == rows[i].rest
            && (rows[i].nationalId.Some? ==>
                  row.encrypted.Some? && DecryptField(key, row.encrypted.value) == rows[i].nationalId)
            && (rows[i].nationalId.None? ==> row.encrypted == rows[i].encrypted)
  {
  }

  /** The ids a row gives access to, in plain or by decryption. */
  function KnownIds<R>(key: nat, row: LegacyRow<R>): set<string> {
    (if row.nationalId.Some? then {row.nationalId.value} else {})
    + (if row.encrypted.Some? && DecryptField(key, row.encrypted.value).Some?
       then {DecryptField(key, row.encrypted.value).value} else {})
  }

  /** A row loses an id exactly when it held both columns and they disagreed: the plaintext wins. */
  lemma {:induction false} NothingLostIff<R>(key: nat, nonces: nat -> nat, rows: seq<LegacyRow<R>>, i: nat)
    requires i < |rows|
    ensures KnownIds(key, rows[i]) <= KnownIds(key, EncryptRows(key, nonces, rows)[i])
            <==> rows[i].nationalId.None? || rows[i].encrypted.None?
                 || DecryptField(key, rows[i].encrypted.value).None?
                 || DecryptField(key, rows[i].encrypted.value) == rows[i].nationalId
  {
    var row, row' := rows[i], EncryptRows(key, nonces, rows)[i];
    if row.nationalId.Some? {
      assert KnownIds(key, row') == {row.nationalId.value};
      if row.encrypted.Some? && DecryptField(key, row.encrypted.value).Some? {
        assert DecryptField(key, row.encrypted.value).value in KnownIds(key, row);
      }
    }
  }

  /** A row whose plaintext and ciphertext hold different ids forgets the one in the ciphertext. */
  lemma {:induction false} CiphertextOverwritten<R>(key: nat, nonces: nat -> nat, plain: string,
                                                    hidden: string, rest: R)
    requires plain != hidden
    ensures var row := LegacyRow(Some(plain), Some(EncryptField(key, nonces(0), hidden)), rest);
            hidden in KnownIds(key, row) && hidden !in KnownIds(key, EncryptRows(key, nonces, [row])[0])
  {
    var row := LegacyRow(Some(plain), Some(EncryptField(key, nonces(0), hidden)), rest);
    assert KnownIds(key, EncryptRows(key, nonces, [row])[0]) == {plain};
  }

  // ── 0020: drop the plaintext column ──────────────────────────────────

  /** The orphan row at schema 0020: its ciphertext is the only trace of the id. */
  function DropColumn(row: LegacyRow<Orphan>): Orphan {
    row.rest.(encrypted := row.encrypted, blindIndex := None)
  }

  function DropColumns(rows: seq<LegacyRow<Orphan>>): seq<Orphan> {
    seq(|rows|, i requires 0 <= i < |rows| => DropColumn(rows[i]))
  }

  // ── 0021: blind index ────────────────────────────────────────────────

  predicate Readable(key: nat, o: Orphan) {
    o.encrypted.None? || DecryptField(key, o.encrypted.value).Some?
  }

  function Backfill(key: nat, o: Orphan): Orphan {
    if o.encrypted.None? || DecryptField(key, o.encrypted.value).None? then o
    else o.(blindIndex := Some(NationalIdBlindIndex(key, DecryptField(key, o.encrypted.value).value)))
  }

  function BackfillAll(key: nat, rows: seq<Orphan>): seq<Orphan> {
    seq(|rows|, i requires 0 <= i < |rows| => Backfill(key, rows[i]))
  }

  /** GROUP BY organization_id, national_id_blind_index over live indexed rows: the codes of each group. */
  function Groups(rows: seq<Orphan>): map<IdKey, seq<string>> {
    if rows == [] then map[]
    else
      var before, o := Groups(rows[..|rows| - 1]), rows[|rows| - 1];
      if IdKeyOf(o).None? then before
      else
        var k := IdKeyOf(o).value;
        before[k := (if k in before then before[k] else []) + [o.code]]
  }

  /** HAVING COUNT(*) > 1 */
  function DuplicateGroups(rows: seq<Orphan>): map<IdKey, seq<string>> {
    map k | k in Groups(rows) && |Groups(rows)[k]| > 1 :: Groups(rows)[k]
  }

  /** What CREATE UNIQUE INDEX demands of the table. */
  predicate IdsDistinct(rows: seq<Orphan>) {
    forall i, j :: 0 <= i < j < |rows| ==> !IdClash(rows[i], rows[j])
  }

  predicate HasKey(rows: seq<Orphan>, k: IdKey) {
    exists i :: 0 <= i < |rows| && IdKeyOf(rows[i]) == Some(k)
  }

  predicate HasKeyTwice(rows: seq<Orphan>, k: IdKey) {
    exists i, j :: 0 <= i < j < |rows| && IdKeyOf(rows[i]) == Some(k) && IdKeyOf(rows[j]) == Some(k)
  }

  lemma {:induction false} GroupSizes(rows: seq<Orphan>, k: IdKey)
    ensures k in Groups(rows) <==> HasKey(rows, k)
    ensures k in Groups(rows) ==> |Groups(rows)[k]| >= 1
    ensures k in Groups(rows) && |Groups(rows)[k]| > 1 <==> HasKeyTwice(rows, k)
  {
    if rows != [] {
      var n := |rows| - 1;
      var before := rows[..n];
      GroupSizes(before, k);
      KeyAppend(before, rows[n], k);
      assert rows == before + [rows[n]];
    }
  }

  /** A row that falls under the check: live and indexed, of that organisation and digest. */
  predicate Registered(o: Orphan, k: IdKey) {
    !o.deleted && o.org == k.org && o.blindIndex == Some(k.digest)
  }

  /** The codes of the rows registered under a key, in order. */
  function CodesOf(rows: seq<Orphan>, k: IdKey): seq<string> {
    if rows == [] then []
    else CodesOf(rows[..|rows| - 1], k) + if Registered(rows[|rows| - 1], k) then [rows[|rows| - 1].code] else []
  }

  /** Every group lists the codes of exactly the rows registered under its key. */
  lemma {:induction false} GroupsListCodes(rows: seq<Orphan>, k: IdKey)
    ensures CodesOf(rows, k) == if k in Groups(rows) then Groups(rows)[k] else []
  {
    if rows != [] {
      var n := |rows| - 1;
      GroupsListCodes(rows[..n], k);
      assert IdKeyOf(rows[n]) == Some(k) <==> Registered(rows[n], k);
    }
  }

  /** What the error reports: the keys that at least two rows share, each with the codes of those rows. */
  lemma {:induction false} ReportedGroups(rows: seq<Orphan>, k: IdKey)
    ensures k in DuplicateGroups(rows) <==> |CodesOf(rows, k)| > 1
    ensures k in DuplicateGroups(rows) ==> DuplicateGroups(rows)[k] == CodesOf(rows, k)
  {
    GroupsListCodes(rows, k);
  }

  lemma {:induction false} KeyAppend(before: seq<Orphan>, o: Orphan, k: IdKey)
    ensures HasKey(before + [o], k) <==> HasKey(before, k) || IdKeyOf(o) == Some(k)
    ensures HasKeyTwice(before + [o], k) <==> HasKeyTwice(before, k) || (HasKey(before, k) && IdKeyOf(o) == Some(k))
  {
    var rows := before + [o];
    if i :| 0 <= i < |before| && IdKeyOf(before[i]) == Some(k) {
      assert IdKeyOf(rows[i]) == Some(k);
      if IdKeyOf(o) == Some(k) {
        assert IdKeyOf(rows[|before|]) == Some(k);
      }
    }
    if IdKeyOf(o) == Some(k) {
      assert IdKeyOf(rows[|before|]) == Some(k);
    }
    if i, j :| 0 <= i < j < |before| && IdKeyOf(before[i]) == Some(k) && IdKeyOf(before[j]) == Some(k) {
      assert IdKeyOf(rows[i]) == Some(k) && IdKeyOf(rows[j]) == Some(k);
    }
  }

  /** The pre-check passes exactly when the index build would: no opaque failure is left. */
  lemma {:induction false} CheckIsExact(rows: seq<Orphan>)
    ensures DuplicateGroups(rows) == map[] <==> IdsDistinct(rows)
  {
    if i, j :| 0 <= i < j < |rows| && IdClash(rows[i], rows[j]) {
      var k := IdKeyOf(rows[i]).value;
      assert HasKeyTwice(rows, k);
      GroupSizes(rows, k);
      assert k in DuplicateGroups(rows);
    } else {
      forall k | k in Groups(rows)
        ensures |Groups(rows)[k]| <= 1
      {
        GroupSizes(rows, k);
        DistinctHasNoPair(rows, k);
      }
    }
  }

  lemma {:induction false} DistinctHasNoPair(rows: seq<Orphan>, k: IdKey)
    requires IdsDistinct(rows)
    ensures !HasKeyTwice(rows, k)
  {
    forall i, j | 0 <= i < j < |rows|
      ensures !(IdKeyOf(rows[i]) == Some(k) && IdKeyOf(rows[j]) == Some(k))
    {
      assert !IdClash(rows[i], rows[j]);
    }
  }

  datatype MigrationResult = Applied | Undecryptable(code: string) | Duplicates(groups: map<IdKey, seq<string>>)

  class OrphanTable {
    var rows: seq<Orphan>
    var uniqueNationalIds: bool

    constructor (rows: seq<Orphan>)
      ensures this.rows == rows && !uniqueNationalIds
    {
      this.rows := rows;
      uniqueNationalIds := false;
    }

    /** 0021: backfill, pre-check, index. A RuntimeError rolls the whole migration back. */
    method Upgrade0021(key: nat) returns (result: MigrationResult)
      requires forall i :: 0 <= i < |rows| ==> rows[i].blindIndex.None?
      modifies this
      ensures result.Applied? <==>
                (forall i :: 0 <= i < |old(rows)| ==> Readable(key, old(rows)[i]))
                && IdsDistinct(BackfillAll(key, old(rows)))
      ensures result.Applied? ==> rows == BackfillAll(key, old(rows)) && uniqueNationalIds
      ensures !result.Applied? ==> rows == old(rows) && uniqueNationalIds == old(uniqueNationalIds)
      ensures result.Undecryptable? <==> exists i :: 0 <= i < |old(rows)| && !Readable(key, old(rows)[i])
      ensures result.Undecryptable? ==>
                exists i :: 0 <= i < |old(rows)| && result.code == old(rows)[i].code && !Readable(key, old(rows)[i])
      ensures result.Duplicates? ==> result.groups == DuplicateGroups(BackfillAll(key, old(rows))) != map[]
    {
      var working := rows;
      for i := 0 to |rows|
        invariant rows == old(rows) && uniqueNationalIds == old(uniqueNationalIds)
        invariant |working| == |rows|
        invariant forall j :: 0 <= j < i ==> Readable(key, rows[j]) && working[j] == Backfill(key, rows[j])
        invariant forall j :: i <= j < |rows| ==> working[j] == rows[j]
      {
        if rows[i].encrypted.Some? {
          var plaintext := DecryptField(key, rows[i].encrypted.value);
          if plaintext.None? {
            assert !Readable(key, old(rows)[i]);
            return Undecryptable(rows[i].code);
          }
          working := working[i := working[i].(blindIndex := Some(NationalIdBlindIndex(key, plaintext.value)))];
        }
      }
      assert working == BackfillAll(key, rows);
      CheckIsExact(working);
      var groups := DuplicateGroups(working);
      if groups != map[] {
        return Duplicates(groups);
      }
      rows, uniqueNationalIds := working, true;
      return Applied;
    }
  }
}
