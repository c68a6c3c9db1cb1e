/**
 Orphan registration (backend/app/services/orphans.py): the rows it writes, the rules it
 checks, and the effect of one create run with nobody else in the database.
 */
module Registration {
  import opened Options
  import opened Calendar
  import opened Crypto

  // ── Rows ─────────────────────────────────────────────────────────────

  datatype Orphan = Orphan(
    id: nat, org: nat, partner: nat, code: string,
    firstName: string, familyName: string, dateOfBirth: Day, fatherName: Option<string>,
    familyId: Option<nat>, orphanageId: Option<nat>,
    encrypted: Option<Token>, blindIndex: Option<Digest>,
    caseStatus: string, deleted: bool)

  datatype Address = Address(
    city: Option<string>, village: Option<string>, district: Option<string>,
    street: Option<string>, houseNumber: Option<string>, floor: Option<string>)

  datatype Point = Point(lng: real, lat: real)

  datatype Family = Family(id: nat, org: nat, partner: nat, code: string, address: Address, coordinates: Option<Point>)

  datatype Audit = Audit(org: nat, user: nat, action: string, entityId: nat, via: Option<string>)

  datatype Db = Db(orphans: seq<Orphan>, families: seq<Family>, audits: seq<Audit>)

  // ── Requests ─────────────────────────────────────────────────────────

  datatype HomeAddress = HomeAddress(address: Address, coordinates: Option<Point>)

  datatype Request = Request(
    org: nat, user: nat, partner: nat, via: string,
    firstName: string, familyName: string, dateOfBirth: Day, fatherName: string,
    nationality: Option<string>, nationalId: Option<string>,
    orphanageId: Option<nat>, familyId: Option<nat>, home: Option<HomeAddress>)

  /** What the call draws at random: row ids, codes and the encryption nonce. */
  datatype Draw = Draw(orphanId: nat, orphanCode: string, familyId: nat, familyCode: string, nonce: nat)

  datatype IdRule = IdRule(required: bool, length: Option<int>, regex: Option<string>)

  /** The parts of the world a create only reads. */
  datatype Env = Env(
    key: nat,
    lower: string -> string,
    upper: string -> string,
    fullMatch: (string, string) -> bool,
    rules: map<string, IdRule>,
    orphanages: map<nat, nat>)

  datatype Verdict =
    | Created(orphanId: nat)
    | BadOrphanage
    | BadNationalId
    | DuplicateName(existingCode: Option<string>)
    | DuplicateNationalId
    | Failed

  /** The HTTP status the caller sees. */
  function Status(v: Verdict): int {
    match v
    case Created(_) => 201
    case BadOrphanage => 400
    case BadNationalId => 422
    case DuplicateName(_) => 409
    case DuplicateNationalId => 409
    case Failed => 500
  }

  function Text(t: Option<string>): string {
    if t.Some? then t.value else ""
  }

  /** `x or None` on a text field */
  function OrNone(t: Option<string>): Option<string> {
    if Text(t) == "" then None else t
  }

  // ── Validation ───────────────────────────────────────────────────────

  predicate OrphanageOwned(env: Env, req: Request) {
    req.orphanageId.None?
    || (req.orphanageId.value in env.orphanages && env.orphanages[req.orphanageId.value] == req.org)
  }

  /** The country's rule; a country without a row asks for nothing. */
  function RuleFor(env: Env, nationality: string): IdRule {
    var code := env.upper(nationality);
    if code in env.rules then env.rules[code] else IdRule(false, None, None)
  }

  /** `_validate_national_id` accepts. */
  predicate NationalIdValid(env: Env, req: Request) {
    Text(req.nationality) == ""
    || var rule := RuleFor(env, req.nationality.value);
       var id := Text(req.nationalId);
       if id == "" then !rule.required
       else (rule.length.Some? ==> |id| == rule.length.value)
            && (rule.regex.Some? ==> env.fullMatch(rule.regex.value, id))
  }

  // ── Built rows ───────────────────────────────────────────────────────

  predicate HasContent(h: HomeAddress) {
    var a := h.address;
    Text(a.city) != "" || Text(a.village) != "" || Text(a.district) != "" || Text(a.street) != ""
    || Text(a.houseNumber) != "" || Text(a.floor) != "" || h.coordinates.Some?
  }

  /** The family a create materialises from the home address, when no family is pinned. */
  function BuildFamily(req: Request, draw: Draw): Option<Family> {
    if req.familyId.None? && req.home.Some? && HasContent(req.home.value) then
      var a := req.home.value.address;
      Some(Family(draw.familyId, req.org, req.partner, draw.familyCode,
                  Address(OrNone(a.city), OrNone(a.village), OrNone(a.district),
                          OrNone(a.street), OrNone(a.houseNumber), OrNone(a.floor)),
                  req.home.value.coordinates))
    else None
  }

  function BuildOrphan(env: Env, req: Request, draw: Draw): Orphan {
    var id := Text(req.nationalId);
    Orphan(draw.orphanId, req.org, req.partner, draw.orphanCode,
           req.firstName, req.familyName, req.dateOfBirth, Some(req.fatherName),
           if BuildFamily(req, draw).Some? then Some(draw.familyId) else req.familyId,
           req.orphanageId,
           if id == "" then None else Some(EncryptField(env.key, draw.nonce, id)),
           if id == "" then None else Some(NationalIdBlindIndex(env.key, id)),
           "pending_review", false)
  }

  function CreatedAudit(env: Env, req: Request, draw: Draw): Audit {
    Audit(req.org, req.user, "orphan.created", draw.orphanId, Some(req.via))
  }

  // ── Unique indexes ───────────────────────────────────────────────────

  datatype NameKey = NameKey(org: nat, first: string, family: string, dob: Day, father: string)
  datatype IdKey = IdKey(org: nat, digest: Digest)

  /** Entry of a row in idx_orphans_no_duplicate: live rows only, and NULL fathers never collide. */
  function NameKeyOf(env: Env, o: Orphan): Option<NameKey> {
    if o.deleted || o.fatherName.None? then None
    else Some(NameKey(o.org, env.lower(o.firstName), env.lower(o.familyName), o.dateOfBirth, o.fatherName.value))
  }

  /** Entry of a row in uq_orphans_national_id_per_org: live rows with an index only. */
  function IdKeyOf(o: Orphan): Option<IdKey> {
    if o.deleted || o.blindIndex.None? then None else Some(IdKey(o.org, o.blindIndex.value))
  }

  predicate RowClash(a: Orphan, b: Orphan) {
    a.id == b.id || a.code == b.code
  }

  predicate NameClash(env: Env, a: Orphan, b: Orphan) {
    NameKeyOf(env, a).Some? && NameKeyOf(env, a) == NameKeyOf(env, b)
  }

  predicate IdClash(a: Orphan, b: Orphan) {
    IdKeyOf(a).Some? && IdKeyOf(a) == IdKeyOf(b)
  }

  predicate Clash(env: Env, a: Orphan, b: Orphan) {
    RowClash(a, b) || NameClash(env, a, b) || IdClash(a, b)
  }

  predicate FamilyClash(f: Family, g: Family) {
    f.id == g.id || f.code == g.code
  }

  predicate AnyRowClash(rows: seq<Orphan>, o: Orphan) {
    exists i :: 0 <= i < |rows| && RowClash(rows[i], o)
  }

  predicate AnyNameClash(env: Env, rows: seq<Orphan>, o: Orphan) {
    exists i :: 0 <= i < |rows| && NameClash(env, rows[i], o)
  }

  predicate AnyIdClash(rows: seq<Orphan>, o: Orphan) {
    exists i :: 0 <= i < |rows| && IdClash(rows[i], o)
  }

  predicate AnyFamilyClash(rows: seq<Family>, f: Option<Family>) {
    f.Some? && exists i :: 0 <= i < |rows| && FamilyClash(rows[i], f.value)
  }

  datatype Conflict = RowConflict | NameConflict | IdConflict

  /** The first unique index an insert violates, in the order the indexes were created. */
  function FlushConflict(env: Env, rows: seq<Orphan>, o: Orphan): Option<Conflict> {
    if AnyRowClash(rows, o) then Some(RowConflict)
    else if AnyNameClash(env, rows, o) then Some(NameConflict)
    else if AnyIdClash(rows, o) then Some(IdConflict)
    else None
  }

  /** What the except-branch turns an IntegrityError into. */
  function ConflictVerdict(c: Conflict): Verdict {
    match c
    case RowConflict => Failed
    case NameConflict => DuplicateName(None)
    case IdConflict => DuplicateNationalId
  }

  // ── One create on its own ────────────────────────────────────────────

  function RequestNameKey(env: Env, req: Request): NameKey {
    NameKey(req.org, env.lower(req.firstName), env.lower(req.familyName), req.dateOfBirth, req.fatherName)
  }

  /** `_find_duplicate`: the first live row with the request's name key. */
  function FindDuplicate(env: Env, rows: seq<Orphan>, req: Request): Option<Orphan> {
    if rows == [] then None
    else if NameKeyOf(env, rows[0]) == Some(RequestNameKey(env, req)) then Some(rows[0])
    else FindDuplicate(env, rows[1..], req)
  }

  datatype Outcome = Outcome(db: Db, verdict: Verdict)

  function Insert(env: Env, db: Db, req: Request, draw: Draw): Db {
    var family := BuildFamily(req, draw);
    Db(db.orphans + [BuildOrphan(env, req, draw)],
       if family.Some? then db.families + [family.value] else db.families,
       db.audits + [CreatedAudit(env, req, draw)])
  }

  /** The whole of `create_orphan_record` with no concurrent call. */
  function Serial(env: Env, db: Db, req: Request, draw: Draw): Outcome {
    if !OrphanageOwned(env, req) then Outcome(db, BadOrphanage)
    else if !NationalIdValid(env, req) then Outcome(db, BadNationalId)
    else
      var existing := FindDuplicate(env, db.orphans, req);
      if existing.Some? then Outcome(db, DuplicateName(Some(existing.value.code)))
      else if AnyFamilyClash(db.families, BuildFamily(req, draw)) then Outcome(db, Failed)
      else
        var conflict := FlushConflict(env, db.orphans, BuildOrphan(env, req, draw));
        if conflict.Some? then Outcome(db, ConflictVerdict(conflict.value))
        else Outcome(Insert(env, db, req, draw), Created(draw.orphanId))
  }

  // ── What an accepted create stores, column by column ─────────────────

  /** A text column holds what was given, with blanks as NULL. */
  predicate Holds(column: Option<string>, given: Option<string>) {
    match given
    case None => column.None?
    case Some(text) => if |text| == 0 then column.None? else column == given
  }

  predicate AddressStored(stored: Address, given: Address) {
    && Holds(stored.city, given.city) && Holds(stored.village, given.village)
    && Holds(stored.district, given.district) && Holds(stored.street, given.street)
    && Holds(stored.houseNumber, given.houseNumber) && Holds(stored.floor, given.floor)
  }

  /** An address with anything in it: a non-blank line or a position. */
  predicate SaysAnything(h: HomeAddress) {
    var a := h.address;
    h.coordinates.Some?
    || exists line :: line in [a.city, a.village, a.district, a.street, a.houseNumber, a.floor]
                      && line.Some? && |line.value| > 0
  }

  /** The orphan row of a request, but for the family. */
  predicate OrphanStored(env: Env, req: Request, draw: Draw, o: Orphan) {
    && o.id == draw.orphanId && o.code == draw.orphanCode
    && o.org == req.org && o.partner == req.partner && o.orphanageId == req.orphanageId
    && o.firstName == req.firstName && o.familyName == req.familyName
    && o.dateOfBirth == req.dateOfBirth && o.fatherName == Some(req.fatherName)
    && o.caseStatus == "pending_review" && !o.deleted
    && (if req.nationalId.None? || |req.nationalId.value| == 0 then o.encrypted.None? && o.blindIndex.None?
        else o.encrypted.Some? && DecryptField(env.key, o.encrypted.value) == req.nationalId
             && o.blindIndex == Some(Hmac(env.key, WithoutSpaces(req.nationalId.value))))
  }

  /** The family row of a request's home address. */
  predicate FamilyStored(req: Request, draw: Draw, f: Family) {
    && f.id == draw.familyId && f.code == draw.familyCode && f.org == req.org && f.partner == req.partner
    && req.home.Some? && AddressStored(f.address, req.home.value.address)
    && f.coordinates == req.home.value.coordinates
  }

  predicate AuditStored(req: Request, draw: Draw, a: Audit) {
    a.org == req.org && a.user == req.user && a.action == "orphan.created"
    && a.entityId == draw.orphanId && a.via == Some(req.via)
  }

  /** One orphan, one audit row, and a family exactly when none is pinned and the home address says anything. */
  predicate Stored(env: Env, before: Db, after: Db, req: Request, draw: Draw) {
    && |after.orphans| == |before.orphans| + 1 && before.orphans <= after.orphans
    && |after.audits| == |before.audits| + 1 && before.audits <= after.audits
    && var o := after.orphans[|before.orphans|];
       OrphanStored(env, req, draw, o) && AuditStored(req, draw, after.audits[|before.audits|])
       && if req.familyId.None? && req.home.Some? && SaysAnything(req.home.value) then
            && |after.families| == |before.families| + 1 && before.families <= after.families
            && FamilyStored(req, draw, after.families[|before.families|])
            && o.familyId == Some(after.families[|before.families|].id)
          else after.families == before.families && o.familyId == req.familyId
  }

  lemma {:induction false} NonBlank(t: Option<string>)
    ensures Text(t) != "" <==> t.Some? && |t.value| > 0
  {
  }

  lemma {:induction false} ContentExactly(h: HomeAddress)
    ensures HasContent(h) <==> SaysAnything(h)
  {
    var a := h.address;
    var lines := [a.city, a.village, a.district, a.street, a.houseNumber, a.floor];
    forall line | line in lines
      ensures Text(line) != "" <==> line.Some? && |line.value| > 0
    {
      NonBlank(line);
    }
    assert a.city in lines && a.village in lines && a.district in lines;
    assert a.street in lines && a.houseNumber in lines && a.floor in lines;
  }

  lemma {:induction false} OrphanBuilt(env: Env, req: Request, draw: Draw)
    ensures OrphanStored(env, req, draw, BuildOrphan(env, req, draw))
    ensures AuditStored(req, draw, CreatedAudit(env, req, draw))
  {
    NormalizeDeletesSpaces(Text(req.nationalId));
  }

  lemma {:induction false} FamilyBuilt(req: Request, draw: Draw)
    ensures BuildFamily(req, draw).Some? <==> req.familyId.None? && req.home.Some? && SaysAnything(req.home.value)
    ensures BuildFamily(req, draw).Some? ==> FamilyStored(req, draw, BuildFamily(req, draw).value)
  {
    if req.home.Some? {
      ContentExactly(req.home.value);
    }
  }

  lemma {:induction false} InsertStores(env: Env, db: Db, req: Request, draw: Draw)
    ensures Stored(env, db, Insert(env, db, req, draw), req, draw)
  {
    OrphanBuilt(env, req, draw);
    FamilyBuilt(req, draw);
  }

  lemma {:induction false} SerialStores(env: Env, db: Db, req: Request, draw: Draw)
    ensures Serial(env, db, req, draw).verdict.Created? ==> Stored(env, db, Serial(env, db, req, draw).db, req, draw)
  {
    InsertStores(env, db, req, draw);
  }

  /** The soft delete of DELETE /orphans/{id}: a 404 on a missing, foreign or deleted row. */
  predicate Deletable(o: Orphan, org: nat, id: nat) {
    o.id == id && o.org == org && !o.deleted
  }

  function MarkDeleted(rows: seq<Orphan>, org: nat, id: nat): (marked: seq<Orphan>)
    ensures |marked| == |rows|
    ensures forall i :: 0 <= i < |rows| ==>
              marked[i] == if Deletable(rows[i], org, id) then rows[i].(deleted := true) else rows[i]
  {
    if rows == [] then []
    else [if Deletable(rows[0], org, id) then rows[0].(deleted := true) else rows[0]] + MarkDeleted(rows[1..], org, id)
  }

  function SoftDelete(db: Db, org: nat, user: nat, id: nat): Db {
    if exists i :: 0 <= i < |db.orphans| && Deletable(db.orphans[i], org, id) then
      db.(orphans := MarkDeleted(db.orphans, org, id),
          audits := db.audits + [Audit(org, user, "orphan.deleted", id, None)])
    else db
  }

  // ── The invariants a database keeps ──────────────────────────────────

  /** All unique indexes hold. */
  ghost predicate Unique(env: Env, db: Db) {
    && (forall i, j :: 0 <= i < j < |db.orphans| ==> !Clash(env, db.orphans[i], db.orphans[j]))
    && (forall i, j :: 0 <= i < j < |db.families| ==> !FamilyClash(db.families[i], db.families[j]))
  }

  /** A blind index exactly with a ciphertext, and over the text the ciphertext decrypts to. */
  predicate IndexMatches(env: Env, o: Orphan) {
    match o.encrypted
    case None => o.blindIndex.None?
    case Some(token) =>
      var text := DecryptField(env.key, token);
      text.Some? && o.blindIndex == Some(NationalIdBlindIndex(env.key, text.value))
  }

  ghost predicate Indexed(env: Env, rows: seq<Orphan>) {
    forall i :: 0 <= i < |rows| ==> IndexMatches(env, rows[i])
  }

  // ── Lemmas about one create ──────────────────────────────────────────

  lemma {:induction false} BuiltRowKeys(env: Env, req: Request, draw: Draw)
    ensures var o := BuildOrphan(env, req, draw);
            NameKeyOf(env, o) == Some(RequestNameKey(env, req)) && IndexMatches(env, o)
  {
  }

  lemma {:induction false} FindDuplicateSpec(env: Env, rows: seq<Orphan>, req: Request, draw: Draw)
    ensures FindDuplicate(env, rows, req).Some? <==> AnyNameClash(env, rows, BuildOrphan(env, req, draw))
    ensures FindDuplicate(env, rows, req).Some? ==>
              FindDuplicate(env, rows, req).value in rows
              && NameClash(env, FindDuplicate(env, rows, req).value, BuildOrphan(env, req, draw))
  {
    var o := BuildOrphan(env, req, draw);
    BuiltRowKeys(env, req, draw);
    if rows != [] {
      FindDuplicateSpec(env, rows[1..], req, draw);
      if AnyNameClash(env, rows[1..], o) {
        var i :| 0 <= i < |rows| - 1 && NameClash(env, rows[1..][i], o);
        assert NameClash(env, rows[i + 1], o);
      }
      if AnyNameClash(env, rows, o) && !NameClash(env, rows[0], o) {
        var i :| 0 <= i < |rows| && NameClash(env, rows[i], o);
        assert NameClash(env, rows[1..][i - 1], o);
      }
    }
  }

  lemma {:induction false} NoConflictMeansNoClash(env: Env, rows: seq<Orphan>, o: Orphan)
    requires FlushConflict(env, rows, o).None?
    ensures forall i :: 0 <= i < |rows| ==> !Clash(env, rows[i], o)
  {
  }

  /** A create alone is accepted exactly when it is valid and nothing in the database collides with its rows. */
  lemma {:induction false} AcceptedIff(env: Env, db: Db, req: Request, draw: Draw)
    ensures var o := BuildOrphan(env, req, draw);
            Serial(env, db, req, draw).verdict.Created?
            <==> OrphanageOwned(env, req) && NationalIdValid(env, req)
                 && !AnyFamilyClash(db.families, BuildFamily(req, draw))
                 && (forall i :: 0 <= i < |db.orphans| ==> !Clash(env, db.orphans[i], o))
  {
    FindDuplicateSpec(env, db.orphans, req, draw);
  }

  /** Which answer a create alone gets, in terms of what is stored: the checks in order, each with its own reason. */
  lemma {:induction false} VerdictExactly(env: Env, db: Db, req: Request, draw: Draw)
    ensures var o, v := BuildOrphan(env, req, draw), Serial(env, db, req, draw).verdict;
            var valid := OrphanageOwned(env, req) && NationalIdValid(env, req);
            var named := AnyNameClash(env, db.orphans, o);
            var stale := AnyFamilyClash(db.families, BuildFamily(req, draw)) || AnyRowClash(db.orphans, o);
            && (v.BadOrphanage? <==> !OrphanageOwned(env, req))
            && (v.BadNationalId? <==> OrphanageOwned(env, req) && !NationalIdValid(env, req))
            && (v.DuplicateName? <==> valid && named)
            && (v.Failed? <==> valid && !named && stale)
            && (v.DuplicateNationalId? <==> valid && !named && !stale && AnyIdClash(db.orphans, o))
            && (v.DuplicateName? ==>
                  exists d :: d in db.orphans && NameClash(env, d, o) && v.existingCode == Some(d.code))
            && (!v.Created? ==> Serial(env, db, req, draw).db == db)
  {
    FindDuplicateSpec(env, db.orphans, req, draw);
  }

  lemma {:induction false} SerialKeepsUnique(env: Env, db: Db, req: Request, draw: Draw)
    requires Unique(env, db)
    ensures Unique(env, Serial(env, db, req, draw).db)
  {
    if Serial(env, db, req, draw).verdict.Created? {
      AcceptedIff(env, db, req, draw);
      InsertKeepsUnique(env, db, req, draw);
    }
  }

  lemma {:induction false} InsertKeepsUnique(env: Env, db: Db, req: Request, draw: Draw)
    requires Unique(env, db)
    requires !AnyFamilyClash(db.families, BuildFamily(req, draw))
    requires forall i :: 0 <= i < |db.orphans| ==> !Clash(env, db.orphans[i], BuildOrphan(env, req, draw))
    ensures Unique(env, Insert(env, db, req, draw))
  {
  }

  lemma {:induction false} InsertKeepsIndexed(env: Env, db: Db, req: Request, draw: Draw)
    requires Indexed(env, db.orphans)
    ensures Indexed(env, Insert(env, db, req, draw).orphans)
  {
    BuiltRowKeys(env, req, draw);
  }

  lemma {:induction false} DeleteKeepsUnique(env: Env, db: Db, org: nat, user: nat, id: nat)
    requires Unique(env, db)
    ensures Unique(env, SoftDelete(db, org, user, id))
    ensures Indexed(env, db.orphans) ==> Indexed(env, SoftDelete(db, org, user, id).orphans)
  {
    var rows := MarkDeleted(db.orphans, org, id);
    forall i, j | 0 <= i < j < |rows|
      ensures !Clash(env, rows[i], rows[j])
    {
      assert !Clash(env, db.orphans[i], db.orphans[j]);
    }
  }

  /** Two live orphans with ids of equal non-whitespace text cannot both be in a unique database. */
  lemma {:induction false} UniqueNationalIds(env: Env, db: Db, i: nat, j: nat)
    requires Unique(env, db) && Indexed(env, db.orphans)
    requires i < j < |db.orphans|
    requires var a, b := db.orphans[i], db.orphans[j];
             !a.deleted && !b.deleted && a.org == b.org && a.encrypted.Some? && b.encrypted.Some?
    ensures WithoutSpaces(DecryptField(env.key, db.orphans[i].encrypted.value).value)
            != WithoutSpaces(DecryptField(env.key, db.orphans[j].encrypted.value).value)
  {
    var a, b := db.orphans[i], db.orphans[j];
    assert IndexMatches(env, a) && IndexMatches(env, b);
    assert !Clash(env, a, b);
    SameIndexIff(env.key, DecryptField(env.key, a.encrypted.value).value,
                 DecryptField(env.key, b.encrypted.value).value);
  }
}
