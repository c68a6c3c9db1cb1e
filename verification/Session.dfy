/**
 The body of `create_orphan_record` as it runs: one database session that adds rows,
 flushes them against the unique indexes, rolls back or commits. Alone in the database it
 computes exactly the serial create the concurrent protocol is measured against.
 */
module Session {
  import opened Options
  import opened Registration

  /** `UPDATE families SET coordinates = ... WHERE id = :id` */
  function WithCoordinates(rows: seq<Family>, id: nat, point: Point): seq<Family> {
    seq(|rows|, i requires 0 <= i < |rows| =>
      if rows[i].id == id then rows[i].(coordinates := Some(point)) else rows[i])
  }

  class DbSession {
    var committed: Db
    var families: seq<Family>
    var orphans: seq<Orphan>
    var audits: seq<Audit>

    /** Nothing is flushed or added since the last commit or rollback. */
    predicate Clean()
      reads this
    {
      families == [] && orphans == [] && audits == []
    }

    constructor (db: Db)
      ensures Clean() && committed == db
    {
      committed := db;
      families, orphans, audits := [], [], [];
    }

    method Rollback()
      modifies this
      ensures Clean() && committed == old(committed)
    {
      families, orphans, audits := [], [], [];
    }

    method Commit()
      modifies this
      ensures Clean()
      ensures committed == Db(old(committed).orphans + old(orphans), old(committed).families + old(families),
                              old(committed).audits + old(audits))
    {
      committed := Db(committed.orphans + orphans, committed.families + families, committed.audits + audits);
      families, orphans, audits := [], [], [];
    }

    /** False stands for an IntegrityError. */
    method AddFamily(f: Family) returns (ok: bool)
      modifies this`families
      ensures ok <==> !AnyFamilyClash(committed.families + old(families), Some(f))
      ensures families == if ok then old(families) + [f] else old(families)
    {
      ok := !AnyFamilyClash(committed.families + families, Some(f));
      if ok {
        families := families + [f];
      }
    }

    method AddOrphan(env: Env, o: Orphan) returns (conflict: Option<Conflict>)
      modifies this`orphans
      ensures conflict == FlushConflict(env, committed.orphans + old(orphans), o)
      ensures orphans == if conflict.None? then old(orphans) + [o] else old(orphans)
    {
      conflict := FlushConflict(env, committed.orphans + orphans, o);
      if conflict.None? {
        orphans := orphans + [o];
      }
    }

    method RecordAudit(a: Audit)
      modifies this`audits
      ensures audits == old(audits) + [a]
    {
      audits := audits + [a];
    }

    /** The staff path's family: flushed without coordinates, which a second statement then sets. */
    method AddHomeFamily(req: Request, draw: Draw) returns (ok: bool)
      requires Clean() && BuildFamily(req, draw).Some?
      modifies this`families
      ensures ok <==> !AnyFamilyClash(committed.families, BuildFamily(req, draw))
      ensures families == if ok then [BuildFamily(req, draw).value] else []
    {
      var family := BuildFamily(req, draw).value;
      assert committed.families + families == committed.families;
      assert forall i :: 0 <= i < |committed.families| ==>
          FamilyClash(committed.families[i], family.(coordinates := None))
          == FamilyClash(committed.families[i], family);
      ok := AddFamily(family.(coordinates := None));
      if ok && family.coordinates.Some? {
        families := WithCoordinates(families, family.id, family.coordinates.value);
      }
    }

    /** From the orphan's flush on: the index backstop, the audit row and the commit. */
    method InsertOrphan(env: Env, req: Request, draw: Draw) returns (verdict: Verdict)
      requires orphans == [] && audits == []
      requires families == if BuildFamily(req, draw).Some? then [BuildFamily(req, draw).value] else []
      modifies this
      ensures Clean()
      ensures var conflict := FlushConflict(env, old(committed).orphans, BuildOrphan(env, req, draw));
              Outcome(committed, verdict)
              == if conflict.Some? then Outcome(old(committed), ConflictVerdict(conflict.value))
                 else Outcome(Insert(env, old(committed), req, draw), Created(draw.orphanId))
    {
      assert committed.orphans + orphans == committed.orphans;
      var conflict := AddOrphan(env, BuildOrphan(env, req, draw));
      if conflict.Some? {
        Rollback();
        if conflict.value.IdConflict? {
          return DuplicateNationalId;
        }
        if conflict.value.NameConflict? {
          return DuplicateName(None);
        }
        return Failed;
      }
      RecordAudit(CreatedAudit(env, req, draw));
      Commit();
      assert old(committed).families + [] == old(committed).families;
      return Created(draw.orphanId);
    }

    /** `create_orphan_record` */
    method CreateOrphanRecord(env: Env, req: Request, draw: Draw) returns (verdict: Verdict)
      requires Clean()
      modifies this
      ensures Clean()
      ensures Outcome(committed, verdict) == Serial(env, old(committed), req, draw)
      ensures verdict.Created? ==> Stored(env, old(committed), committed, req, draw)
    {
      SerialStores(env, committed, req, draw);
      if !OrphanageOwned(env, req) {
        return BadOrphanage;
      }
      if !NationalIdValid(env, req) {
        return BadNationalId;
      }
      var existing := FindDuplicate(env, committed.orphans, req);
      if existing.Some? {
        return DuplicateName(Some(existing.value.code));
      }
      if BuildFamily(req, draw).Some? {
        var ok := AddHomeFamily(req, draw);
        if !ok {
          Rollback();
          return Failed;
        }
      }
      verdict := InsertOrphan(env, req, draw);
    }
  }
}
