/**
 The get-or-create loops of the demo seed (backend/scripts/seed_demo.py) over any number of
 seed runs. Sessions do not autoflush, so a lookup sees flushed rows only; partners,
 families, orphans, donors and sponsorships are looked up by code in the whole table,
 guardians by full name in the organisation.
 */
module SeedUpserts {
  import opened Options

  /** `key` is the code or the full name; `availableSince` is only ever set on orphans. */
  datatype Row = Row(org: nat, key: string, availableSince: Option<nat>)

  datatype Lookup = ByCode | ByName

  predicate Matches(l: Lookup, org: nat, r: Row, key: string) {
    r.key == key && (l.ByName? ==> r.org == org)
  }

  predicate Found(l: Lookup, org: nat, rows: seq<Row>, key: string) {
    exists i :: 0 <= i < |rows| && Matches(l, org, rows[i], key)
  }

  /** The rows one loop adds: one per key that no flushed row matches. */
  function Missing(l: Lookup, org: nat, rows: seq<Row>, keys: seq<string>): seq<Row> {
    if keys == [] then []
    else
      var n := |keys| - 1;
      Missing(l, org, rows, keys[..n]) + if Found(l, org, rows, keys[n]) then [] else [Row(org, keys[n], None)]
  }

  /** `stamp_available_since` */
  function StampRow(r: Row, now: nat): Row {
    if r.availableSince.None? then r.(availableSince := Some(now)) else r
  }

  function Stamped(rows: seq<Row>, available: seq<string>, now: nat): seq<Row> {
    seq(|rows|, i requires 0 <= i < |rows| => if rows[i].key in available then StampRow(rows[i], now) else rows[i])
  }

  /** What one seed run brings: the codes it moves into the available pool, and its clock. */
  datatype Run = Run(available: seq<string>, now: nat)

  function SeedOnce(l: Lookup, org: nat, rows: seq<Row>, keys: seq<string>, run: Run): seq<Row> {
    Stamped(rows + Missing(l, org, rows, keys), run.available, run.now)
  }

  function Seeded(l: Lookup, org: nat, rows: seq<Row>, keys: seq<string>, runs: seq<Run>): seq<Row> {
    if runs == [] then rows
    else
      var n := |runs| - 1;
      SeedOnce(l, org, Seeded(l, org, rows, keys, runs[..n]), keys, runs[n])
  }

  predicate Distinct(keys: seq<string>) {
    forall i, j :: 0 <= i < j < |keys| ==> keys[i] != keys[j]
  }

  /** The UNIQUE constraint of the code columns. */
  predicate UniqueKeys(rows: seq<Row>) {
    forall i, j :: 0 <= i < j < |rows| ==> rows[i].key != rows[j].key
  }

  lemma {:induction false} MissingKeys(l: Lookup, org: nat, rows: seq<Row>, keys: seq<string>)
    ensures forall r :: r in Missing(l, org, rows, keys) ==> r.key in keys
  {
    if keys != [] {
      var n := |keys| - 1;
      MissingKeys(l, org, rows, keys[..n]);
      forall r | r in Missing(l, org, rows, keys)
        ensures r.key in keys
      {
        assert r in Missing(l, org, rows, keys[..n]) || r.key == keys[n];
      }
    }
  }

  lemma {:induction false} MissingUnique(org: nat, rows: seq<Row>, keys: seq<string>)
    requires UniqueKeys(rows) && Distinct(keys)
    ensures UniqueKeys(rows + Missing(ByCode, org, rows, keys))
  {
    if keys != [] {
      var n := |keys| - 1;
      var before := Missing(ByCode, org, rows, keys[..n]);
      MissingUnique(org, rows, keys[..n]);
      MissingKeys(ByCode, org, rows, keys[..n]);
      if Found(ByCode, org, rows, keys[n]) {
        assert Missing(ByCode, org, rows, keys) == before;
      } else {
        assert forall i :: 0 <= i < |rows| ==> !Matches(ByCode, org, rows[i], keys[n]);
        forall i | 0 <= i < |before|
          ensures before[i].key != keys[n]
        {
          assert before[i] in before && before[i].key in keys[..n];
        }
        assert rows + Missing(ByCode, org, rows, keys) == rows + before + [Row(org, keys[n], None)];
      }
    }
  }

  // ── The session ──────────────────────────────────────────────────────

  class SeedTable {
    var rows: seq<Row>
    var pending: seq<Row>

    constructor (rows: seq<Row>)
      ensures this.rows == rows && pending == []
    {
      this.rows, pending := rows, [];
    }

    /** A lookup by code or name; None when no flushed row matches. */
    method Get(l: Lookup, org: nat, key: string) returns (i: Option<nat>)
      ensures i.Some? <==> Found(l, org, rows, key)
      ensures i.Some? ==> i.value < |rows| && Matches(l, org, rows[i.value], key)
    {
      for k := 0 to |rows|
        invariant forall j :: 0 <= j < k ==> !Matches(l, org, rows[j], key)
      {
        if Matches(l, org, rows[k], key) {
          return Some(k);
        }
      }
      return None;
    }

    /** One get-or-create loop and the flush after it. */
    method Upsert(l: Lookup, org: nat, keys: seq<string>)
      requires pending == []
      modifies this
      ensures rows == old(rows) + Missing(l, org, old(rows), keys) && pending == []
    {
      for k := 0 to |keys|
        invariant rows == old(rows)
        invariant pending == Missing(l, org, rows, keys[..k])
      {
        assert keys[..k + 1][..k] == keys[..k];
        var row := Get(l, org, keys[k]);
        if row.None? {
          pending := pending + [Row(org, keys[k], None)];
        }
      }
      assert keys[..|keys|] == keys;
      rows, pending := rows + pending, [];
    }

    /** The orphans of one seed run: upserted by code, then the available ones stamped. */
    method SeedOrphans(org: nat, codes: seq<string>, run: Run)
      requires pending == [] && UniqueKeys(rows) && Distinct(codes)
      requires forall k :: 0 <= k < |run.available| ==> run.available[k] in codes
      modifies this
      ensures rows == SeedOnce(ByCode, org, old(rows), codes, run) && UniqueKeys(rows) && pending == []
    {
      MissingUnique(org, rows, codes);
      Upsert(ByCode, org, codes);
      ghost var flushed := rows;
      assert Stamped(flushed, [], run.now) == flushed;
      for k := 0 to |run.available|
        invariant rows == Stamped(flushed, run.available[..k], run.now) && pending == []
      {
        var i := Get(ByCode, org, run.available[k]);
        StampNext(flushed, run.available, k, run.now, i);
        if i.Some? {
          rows := rows[i.value := StampRow(rows[i.value], run.now)];
        }
      }
      assert run.available[..|run.available|] == run.available;
    }
  }

  lemma {:induction false} StampNext(flushed: seq<Row>, available: seq<string>, k: nat, now: nat, i: Option<nat>)
    requires UniqueKeys(flushed) && k < |available|
    requires i.Some? <==> Found(ByCode, 0, Stamped(flushed, available[..k], now), available[k])
    requires i.Some? ==> i.value < |flushed| && flushed[i.value].key == available[k]
    ensures var rows := Stamped(flushed, available[..k], now);
            Stamped(flushed, available[..k + 1], now)
            == if i.None? then rows else rows[i.value := StampRow(rows[i.value], now)]
  {
    var rows, after := Stamped(flushed, available[..k], now), Stamped(flushed, available[..k + 1], now);
    assert available[..k + 1] == available[..k] + [available[k]];
    forall j | 0 <= j < |flushed| && (i.None? || j != i.value)
      ensures after[j] == rows[j]
    {
      assert i.None? ==> !Matches(ByCode, 0, rows[j], available[k]);
    }
  }

  // ── After any number of runs ─────────────────────────────────────────

  function CountOwn(rows: seq<Row>, org: nat, key: string): nat {
    if rows == [] then 0
    else CountOwn(rows[..|rows| - 1], org, key)
         + if rows[|rows| - 1].org == org && rows[|rows| - 1].key == key then 1 else 0
  }

  function Times(keys: seq<string>, key: string): nat {
    if keys == [] then 0 else Times(keys[..|keys| - 1], key) + if keys[|keys| - 1] == key then 1 else 0
  }

  lemma {:induction false} CountConcat(a: seq<Row>, b: seq<Row>, org: nat, key: string)
    ensures CountOwn(a + b, org, key) == CountOwn(a, org, key) + CountOwn(b, org, key)
  {
    if b == [] {
      assert a + b == a;
    } else {
      assert (a + b)[..|a + b| - 1] == a + b[..|b| - 1];
      CountConcat(a, b[..|b| - 1], org, key);
    }
  }

  lemma {:induction false} CountStamped(rows: seq<Row>, available: seq<string>, now: nat, org: nat, key: string)
    ensures CountOwn(Stamped(rows, available, now), org, key) == CountOwn(rows, org, key)
  {
    if rows != [] {
      var n := |rows| - 1;
      CountStamped(rows[..n], available, now, org, key);
      assert Stamped(rows, available, now)[..n] == Stamped(rows[..n], available, now);
    }
  }

  lemma {:induction false} CountMissing(l: Lookup, org: nat, rows: seq<Row>, keys: seq<string>, key: string)
    ensures CountOwn(Missing(l, org, rows, keys), org, key) == if Found(l, org, rows, key) then 0 else Times(keys, key)
  {
    if keys != [] {
      var n := |keys| - 1;
      CountMissing(l, org, rows, keys[..n], key);
      var before := Missing(l, org, rows, keys[..n]);
      CountConcat(before, [Row(org, keys[n], None)], org, key);
      assert before + [] == before;
    }
  }

  /** Whatever a run looks up is there afterwards, and what was there still is. */
  lemma {:induction false} FoundAfter(l: Lookup, org: nat, rows: seq<Row>, keys: seq<string>, run: Run, key: string)
    requires Found(l, org, rows, key) || key in keys
    ensures Found(l, org, SeedOnce(l, org, rows, keys, run), key)
  {
    var added, after := rows + Missing(l, org, rows, keys), SeedOnce(l, org, rows, keys, run);
    if i :| 0 <= i < |rows| && Matches(l, org, rows[i], key) {
      assert Matches(l, org, after[i], key);
    } else {
      var i := MissingHas(l, org, rows, keys, key);
      assert added[|rows| + i] == Row(org, key, None);
      assert Matches(l, org, after[|rows| + i], key);
    }
  }

  lemma {:induction false} MissingHas(l: Lookup, org: nat, rows: seq<Row>, keys: seq<string>, key: string)
    returns (i: nat)
    requires key in keys && !Found(l, org, rows, key)
    ensures i < |Missing(l, org, rows, keys)| && Missing(l, org, rows, keys)[i] == Row(org, key, None)
  {
    var n := |keys| - 1;
    if keys[n] == key {
      i := |Missing(l, org, rows, keys[..n])|;
    } else {
      i := MissingHas(l, org, rows, keys[..n], key);
    }
  }

  /** After the first run every key is found, so a later run adds nothing. */
  lemma {:induction false} AllFound(l: Lookup, org: nat, rows: seq<Row>, keys: seq<string>, runs: seq<Run>, key: string)
    requires runs != [] && key in keys
    ensures Found(l, org, Seeded(l, org, rows, keys, runs), key)
  {
    var n := |runs| - 1;
    FoundAfter(l, org, Seeded(l, org, rows, keys, runs[..n]), keys, runs[n], key);
  }

  lemma {:induction false} NothingMissing(l: Lookup, org: nat, rows: seq<Row>, keys: seq<string>)
    requires forall k :: 0 <= k < |keys| ==> Found(l, org, rows, keys[k])
    ensures Missing(l, org, rows, keys) == []
  {
    if keys != [] {
      NothingMissing(l, org, rows, keys[..|keys| - 1]);
    }
  }

  lemma {:induction false} LaterRunsOnlyStamp(l: Lookup, org: nat, rows: seq<Row>, keys: seq<string>, runs: seq<Run>)
    requires |runs| >= 2
    ensures var n := |runs| - 1;
            Seeded(l, org, rows, keys, runs)
            == Stamped(Seeded(l, org, rows, keys, runs[..n]), runs[n].available, runs[n].now)
  {
    var n := |runs| - 1;
    var before := Seeded(l, org, rows, keys, runs[..n]);
    forall k | 0 <= k < |keys|
      ensures Found(l, org, before, keys[k])
    {
      AllFound(l, org, rows, keys, runs[..n], keys[k]);
    }
    NothingMissing(l, org, before, keys);
    assert before + [] == before;
  }

  /**
   After any n >= 1 runs the organisation holds what it held of a key before and, if the
   lookup found nothing then, one row per occurrence of the key in the fixtures.
   */
  lemma {:induction false} RowsAfterRuns(l: Lookup, org: nat, rows: seq<Row>, keys: seq<string>,
                                         runs: seq<Run>, key: string)
    requires runs != []
    ensures CountOwn(Seeded(l, org, rows, keys, runs), org, key)
            == CountOwn(rows, org, key) + if Found(l, org, rows, key) then 0 else Times(keys, key)
  {
    var n := |runs| - 1;
    var before := Seeded(l, org, rows, keys, runs[..n]);
    if n == 0 {
      CountMissing(l, org, rows, keys, key);
      CountConcat(rows, Missing(l, org, rows, keys), org, key);
      CountStamped(rows + Missing(l, org, rows, keys), runs[n].available, runs[n].now, org, key);
    } else {
      RowsAfterRuns(l, org, rows, keys, runs[..n], key);
      LaterRunsOnlyStamp(l, org, rows, keys, runs);
      CountStamped(before, runs[n].available, runs[n].now, org, key);
    }
  }

  lemma {:induction false} NoneOwned(l: Lookup, org: nat, rows: seq<Row>, key: string)
    requires !Found(l, org, rows, key)
    ensures CountOwn(rows, org, key) == 0
  {
    if rows != [] {
      var n := |rows| - 1;
      assert !Matches(l, org, rows[n], key);
      assert forall i :: 0 <= i < n ==> rows[..n][i] == rows[i];
      NoneOwned(l, org, rows[..n], key);
    }
  }

  /**
   A fixture key ends up exactly once in the organisation if and only if it was there
   exactly once before, or the lookup found nothing and the fixtures name it once. A code
   already taken by another organisation is found by the lookup, and is never created here.
   */
  lemma {:induction false} ExactlyOnceIff(l: Lookup, org: nat, rows: seq<Row>, keys: seq<string>,
                                          runs: seq<Run>, key: string)
    requires runs != [] && key in keys
    ensures CountOwn(Seeded(l, org, rows, keys, runs), org, key) == 1
            <==> CountOwn(rows, org, key) == 1 || (!Found(l, org, rows, key) && Times(keys, key) == 1)
  {
    RowsAfterRuns(l, org, rows, keys, runs, key);
    if !Found(l, org, rows, key) {
      NoneOwned(l, org, rows, key);
    }
  }

  predicate Elsewhere(rows: seq<Row>, org: nat) {
    forall i :: 0 <= i < |rows| ==> rows[i].org != org
  }

  /** A guardian of the same name in another organisation is not found, and changes nothing here. */
  lemma {:induction false} NamesakesElsewhere(org: nat, rows: seq<Row>, others: seq<Row>, keys: seq<string>,
                                              runs: seq<Run>, key: string)
    requires runs != [] && Elsewhere(others, org)
    ensures CountOwn(Seeded(ByName, org, rows + others, keys, runs), org, key)
            == CountOwn(Seeded(ByName, org, rows, keys, runs), org, key)
  {
    RowsAfterRuns(ByName, org, rows + others, keys, runs, key);
    RowsAfterRuns(ByName, org, rows, keys, runs, key);
    CountConcat(rows, others, org, key);
    NoneElsewhere(others, org, key);
    if Found(ByName, org, rows, key) {
      var i :| 0 <= i < |rows| && Matches(ByName, org, rows[i], key);
      assert Matches(ByName, org, (rows + others)[i], key);
    }
  }

  lemma {:induction false} NoneElsewhere(others: seq<Row>, org: nat, key: string)
    requires Elsewhere(others, org)
    ensures CountOwn(others, org, key) == 0
  {
    if others != [] {
      NoneElsewhere(others[..|others| - 1], org, key);
    }
  }

  /** A code taken in another organisation is found there, and never created here. */
  lemma {:induction false} CodeTakenElsewhere(org: nat, rows: seq<Row>, keys: seq<string>, runs: seq<Run>, i: nat)
    requires runs != [] && i < |rows| && Elsewhere(rows, org)
    ensures CountOwn(Seeded(ByCode, org, rows, keys, runs), org, rows[i].key) == 0
  {
    RowsAfterRuns(ByCode, org, rows, keys, runs, rows[i].key);
    NoneElsewhere(rows, org, rows[i].key);
    assert Matches(ByCode, org, rows[i], rows[i].key);
  }

  /** The first run that moved a key into the available pool. */
  function FirstAvailable(runs: seq<Run>, key: string): Option<nat> {
    if runs == [] then None
    else
      var n := |runs| - 1;
      var earlier := FirstAvailable(runs[..n], key);
      if earlier.Some? then earlier
      else if key in runs[n].available then Some(runs[n].now) else None
  }

  /**
   No run removes, reorders or renames a row, and available_since is the value a row came
   with or else the clock of the first run that made it available, however often it is
   stamped again.
   */
  lemma {:induction false} StampedOnce(l: Lookup, org: nat, rows: seq<Row>, keys: seq<string>, runs: seq<Run>, i: nat)
    requires i < |Seeded(l, org, rows, keys, runs)|
    ensures var row := Seeded(l, org, rows, keys, runs)[i];
            |rows| <= |Seeded(l, org, rows, keys, runs)|
            && (i < |rows| ==> row.org == rows[i].org && row.key == rows[i].key)
            && row.availableSince == if i < |rows| && rows[i].availableSince.Some? then rows[i].availableSince
                                     else FirstAvailable(runs, row.key)
  {
    if runs != [] {
      var n := |runs| - 1;
      var before := Seeded(l, org, rows, keys, runs[..n]);
      if n == 0 {
        assert runs[..n] == [];
        NewRowsUnstamped(l, org, rows, keys);
      } else {
        LaterRunsOnlyStamp(l, org, rows, keys, runs);
        StampedOnce(l, org, rows, keys, runs[..n], i);
      }
    }
  }

  lemma {:induction false} NewRowsUnstamped(l: Lookup, org: nat, rows: seq<Row>, keys: seq<string>)
    ensures forall r :: r in Missing(l, org, rows, keys) ==> r.org == org && r.availableSince.None?
  {
    if keys != [] {
      NewRowsUnstamped(l, org, rows, keys[..|keys| - 1]);
    }
  }
}
