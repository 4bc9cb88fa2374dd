/** The lifecycle of hosted-API profiles: internal/db/change_host_profile_store.go with the table
    constraints of internal/db/git_association_v43.go and the host operations of
    internal/db/change_host_store.go. Each transaction is one step on maps of rows. */
module ProfileStore {
  import opened Wrappers

  datatype Lifecycle = Draft | Verified | Active | Degraded | Invalid | Revoked

  datatype HostLifecycle = Preview | Approved | HostRevoked

  datatype Document = Document(schemaVersion: int, profileId: string, profileRevision: int, hostId: string, adapter: string,
                               displayName: string, specDigest: string, credentialReference: string, body: string)

  /** The functions of other packages that the store calls, and the text checks of its tables. */
  datatype Contract = Contract(decode: string -> Option<Document>, encode: Document -> string, passes: Document -> bool,
                               validCredential: string -> bool, validJson: string -> bool, validDigest: string -> bool)

  datatype Row = Row(hostId: string, revision: int, schemaVersion: int, displayName: string, lifecycle: Lifecycle,
                     profileJson: string, report: string, specDigest: string, verifiedAt: Option<int>, activatedAt: Option<int>,
                     lastSuccessAt: Option<int>, lastFailureAt: Option<int>, lastFailureCode: string)

  datatype Host = Host(lifecycle: HostLifecycle, credentialReference: string)

  /** The tables: profiles, hosts, and the profiles that snapshots name. */
  datatype Db = Db(rows: map<string, Row>, hosts: map<string, Host>, referenced: set<string>)

  /** A record handed to CreateDraft. */
  datatype DraftRecord = DraftRecord(profileId: string, hostId: string, revision: int, schemaVersion: int, displayName: string,
                                     lifecycle: Lifecycle, profileJson: string, report: string, specDigest: string)

  datatype Outcome = Done | NotFound | Conflict | Referenced | Refused

  // ---------------------------------------------------------------- record checks

  /** profileMatchesRecord. */
  predicate Matches(contract: Contract, profileId: string, hostId: string, revision: int, schemaVersion: int,
                    displayName: string, specDigest: string, d: Document)
  {
    && d.schemaVersion == schemaVersion && d.profileId == profileId && d.profileRevision == revision &&
       d.hostId == hostId
    && d.adapter == "openapi"
    && d.displayName == displayName && d.specDigest == specDigest
    && contract.validCredential(d.credentialReference)
  }

  predicate MatchesRow(contract: Contract, id: string, r: Row, d: Document) {
    Matches(contract, id, r.hostId, r.revision, r.schemaVersion, r.displayName, r.specDigest, d)
  }

  predicate InService(l: Lifecycle) {
    l.Verified? || l.Active? || l.Degraded?
  }

  /** The CHECK clauses of the profile table. */
  predicate RowChecks(contract: Contract, id: string, r: Row) {
    && r.revision >= 1 && r.schemaVersion == 1
    && id != "" && r.hostId != "" && r.displayName != ""
    && contract.validJson(r.profileJson) && contract.validJson(r.report) && contract.validDigest(r.specDigest)
    && (r.lifecycle.Verified? ==> r.verifiedAt.Some?)
    && (r.lifecycle.Active? ==> r.verifiedAt.Some? && r.activatedAt.Some?)
    && (r.lifecycle.Degraded? ==> r.lastFailureCode != "")
  }

  // ---------------------------------------------------------------- the operations as steps

  function DraftRow(rec: DraftRecord): Row {
    Row(rec.hostId, rec.revision, rec.schemaVersion, rec.displayName, Draft, rec.profileJson, rec.report, rec.specDigest,
        None, None, None, None, "")
  }

  /** validateProfileRecord for a draft. */
  predicate ValidDraft(contract: Contract, rec: DraftRecord) {
    && rec.profileId != "" && rec.hostId != "" && rec.revision >= 1
    && contract.decode(rec.profileJson).Some?
    && MatchesRow(contract, rec.profileId, DraftRow(rec), contract.decode(rec.profileJson).value)
  }

  predicate RevisionTaken(db: Db, hostId: string, revision: int) {
    exists id :: id in db.rows && db.rows[id].hostId == hostId && db.rows[id].revision == revision
  }

  /** Only this revision is the greatest: the allocation query has one answer. */
  lemma {:induction false} MaximumRevisionUnique(db: Db, hostId: string, m: int)
    requires m >= 0
    requires forall id :: id in db.rows && db.rows[id].hostId == hostId ==> db.rows[id].revision <= m
    requires m > 0 ==> exists id :: id in db.rows && db.rows[id].hostId == hostId && db.rows[id].revision == m
    ensures m == MaximumRevision(db, hostId)
  {
  }

  function InsertDraft(contract: Contract, db: Db, rec: DraftRecord): (Db, Outcome) {
    if ValidDraft(contract, rec) && rec.profileId !in db.rows && !RevisionTaken(db, rec.hostId, rec.revision)
       && rec.hostId in db.hosts && RowChecks(contract, rec.profileId, DraftRow(rec))
    then (db.(rows := db.rows[rec.profileId := DraftRow(rec)]), Done)
    else (db, Refused)
  }

  ghost function MaximumRevision(db: Db, hostId: string): (m: int)
    ensures m >= 0
    ensures forall id :: id in db.rows && db.rows[id].hostId == hostId ==> db.rows[id].revision <= m
    ensures m > 0 ==> exists id :: id in db.rows && db.rows[id].hostId == hostId && db.rows[id].revision == m
    decreases db.rows
  {
    if db.rows == map[] then 0
    else
      var id :| id in db.rows;
      var rest := db.(rows := db.rows - {id});
      assert id !in rest.rows && forall k :: k in db.rows ==> k == id || (k in rest.rows && rest.rows[k] == db.rows[k]);
      var m := MaximumRevision(rest, hostId);
      if db.rows[id].hostId == hostId && db.rows[id].revision > m then db.rows[id].revision else m
  }

  ghost function CreateDraft(contract: Contract, db: Db, rec0: DraftRecord): (Db, Outcome) {
    var rec := if rec0.report == "" then rec0.(report := "{}") else rec0;
    if !rec.lifecycle.Draft? || rec.revision < 0 then (db, Refused)
    else if rec.revision > 0 then InsertDraft(contract, db, rec)
    else AllocateDraft(contract, db, rec)
  }

  ghost function AllocateDraft(contract: Contract, db: Db, rec: DraftRecord): (Db, Outcome) {
    if contract.decode(rec.profileJson).None? then (db, Refused)
    else
      var next := MaximumRevision(db, rec.hostId) + 1;
      var d := contract.decode(rec.profileJson).value.(profileRevision := next);
      InsertDraft(contract, db, rec.(revision := next, profileJson := contract.encode(d)))
  }

  /** The first half of UpdateDraft: it reads the row and checks the new document against it. */
  function CheckUpdate(contract: Contract, db: Db, id: string, json: string, report: string): Outcome {
    if id !in db.rows then NotFound
    else
      var r := db.rows[id];
      if !r.lifecycle.Draft? && !r.lifecycle.Invalid? then Conflict
      else if contract.decode(json).None? then Refused
      else
        var d := contract.decode(json).value;
        if MatchesRow(contract, id, r.(specDigest := d.specDigest), d) && contract.validJson(report) then Done else Refused
  }

  /** Its second half, the conditional UPDATE; it looks at the lifecycle and the table's own checks only. */
  function WriteDraft(contract: Contract, db: Db, id: string, json: string, report: string): (Db, Outcome) {
    if id in db.rows && (db.rows[id].lifecycle.Draft? || db.rows[id].lifecycle.Invalid?) then
      var updated := Redrafted(contract, db.rows[id], json, report);
      if RowChecks(contract, id, updated) then (db.(rows := db.rows[id := updated]), Done) else (db, Refused)
    else (db, Conflict)
  }

  function Redrafted(contract: Contract, r: Row, json: string, report: string): Row {
    var d := contract.decode(json);
    r.(profileJson := json, report := report, specDigest := if d.Some? then d.value.specDigest else r.specDigest)
  }

  /** The check of MarkVerified: it reads the row and validates its document. */
  function CheckVerifiable(contract: Contract, db: Db, id: string): Outcome {
    if id !in db.rows then NotFound
    else if !db.rows[id].lifecycle.Draft? && !db.rows[id].lifecycle.Invalid? then Conflict
    else if contract.decode(db.rows[id].profileJson).None? then Refused
    else
      var d := contract.decode(db.rows[id].profileJson).value;
      if MatchesRow(contract, id, db.rows[id], d) && contract.passes(d) then Done else Refused
  }

  /** The conditional UPDATE of MarkVerified; it looks at the lifecycle only. */
  function CommitVerified(db: Db, id: string, at: int): (Db, Outcome) {
    if id in db.rows && (db.rows[id].lifecycle.Draft? || db.rows[id].lifecycle.Invalid?)
    then (db.(rows := db.rows[id := db.rows[id].(lifecycle := Verified, verifiedAt := Some(at), lastFailureCode := "")]), Done)
    else (db, Conflict)
  }

  function RevokeActive(rows: map<string, Row>, hostId: string): map<string, Row> {
    map id | id in rows :: if rows[id].hostId == hostId && rows[id].lifecycle.Active? then rows[id].(lifecycle := Revoked) else rows[id]
  }

  function Activate(contract: Contract, db: Db, id: string, at: int): (Db, Outcome) {
    if id !in db.rows then (db, NotFound)
    else
      var r := db.rows[id];
      if !r.lifecycle.Verified? then (db, Conflict)
      else if contract.decode(r.profileJson).None? then (db, Refused)
      else
        var credential := contract.decode(r.profileJson).value.credentialReference;
        if !contract.validCredential(credential) || r.hostId !in db.hosts then (db, Refused)
        else if !db.hosts[r.hostId].lifecycle.Approved? then (db, Conflict)
        else
          var demoted := RevokeActive(db.rows, r.hostId);
          (db.(rows := demoted[id := r.(lifecycle := Active, activatedAt := Some(at))],
               hosts := db.hosts[r.hostId := db.hosts[r.hostId].(credentialReference := credential)]), Done)
  }

  function MarkDegraded(db: Db, id: string, code: string, at: int): (Db, Outcome) {
    if code == "" then (db, Refused)
    else if id in db.rows && db.rows[id].lifecycle.Active?
    then (db.(rows := db.rows[id := db.rows[id].(lifecycle := Degraded, lastFailureAt := Some(at), lastFailureCode := code)]), Done)
    else (db, Conflict)
  }

  function Revoke(db: Db, id: string): (Db, Outcome) {
    if id in db.rows && !db.rows[id].lifecycle.Revoked?
    then (db.(rows := db.rows[id := db.rows[id].(lifecycle := Revoked)]), Done)
    else (db, Conflict)
  }

  function TouchSuccess(db: Db, id: string, at: int): (Db, Outcome) {
    if id in db.rows && (db.rows[id].lifecycle.Active? || db.rows[id].lifecycle.Degraded?)
    then (db.(rows := db.rows[id := db.rows[id].(lastSuccessAt := Some(at))]), Done)
    else (db, NotFound)
  }

  function Delete(db: Db, id: string): (Db, Outcome) {
    if id !in db.rows || InService(db.rows[id].lifecycle) then (db, NotFound)
    else if id in db.referenced then (db, Referenced)
    else (db.(rows := db.rows - {id}), Done)
  }

  function StorePreview(db: Db, hostId: string): (Db, Outcome) {
    if hostId !in db.hosts then (db.(hosts := db.hosts[hostId := Host(Preview, "")]), Done)
    else if db.hosts[hostId].lifecycle.Preview? then (db, Done)
    else (db, Refused)
  }

  function ApproveHost(db: Db, hostId: string): (Db, Outcome) {
    if hostId in db.hosts && db.hosts[hostId].lifecycle.Preview?
    then (db.(hosts := db.hosts[hostId := db.hosts[hostId].(lifecycle := Approved)]), Done)
    else (db, Refused)
  }

  function RevokeHost(db: Db, hostId: string): (Db, Outcome) {
    if hostId in db.hosts && db.hosts[hostId].lifecycle.Approved?
    then (db.(hosts := db.hosts[hostId := db.hosts[hostId].(lifecycle := HostRevoked)]), Done)
    else (db, NotFound)
  }

  function SetCredential(contract: Contract, db: Db, hostId: string, reference: string): (Db, Outcome) {
    if reference != "" && !contract.validCredential(reference) then (db, Refused)
    else if hostId in db.hosts && !db.hosts[hostId].lifecycle.HostRevoked?
    then (db.(hosts := db.hosts[hostId := db.hosts[hostId].(credentialReference := reference)]), Done)
    else (db, Refused)
  }

  /** What one statement or transaction does. UpdateDraft and MarkVerified each read in one statement and write in
      another, so each is two operations; the second says at which place of the run the first stands. */
  datatype Op =
    | OpCreate(rec: DraftRecord)
    | OpReadDraft(id: string, json: string, report: string)
    | OpWriteDraft(id: string, json: string, report: string, from: nat)
    | OpCheck(id: string)
    | OpCommit(id: string, at: int, from: nat)
    | OpActivate(id: string, at: int)
    | OpDegrade(id: string, code: string, at: int)
    | OpRevoke(id: string)
    | OpTouch(id: string, at: int)
    | OpDelete(id: string)
    | OpPreview(hostId: string)
    | OpApprove(hostId: string)
    | OpRevokeHost(hostId: string)
    | OpSetCredential(hostId: string, reference: string)
    | OpSnapshot(id: string)

  ghost function Step(contract: Contract, db: Db, op: Op): (Db, Outcome) {
    match op
    case OpCreate(rec) => CreateDraft(contract, db, rec)
    case OpReadDraft(id, json, report) => (db, CheckUpdate(contract, db, id, json, report))
    case OpWriteDraft(id, json, report, _) => WriteDraft(contract, db, id, json, report)
    case OpCheck(id) => (db, CheckVerifiable(contract, db, id))
    case OpCommit(id, at, _) => CommitVerified(db, id, at)
    case OpActivate(id, at) => Activate(contract, db, id, at)
    case OpDegrade(id, code, at) => MarkDegraded(db, id, code, at)
    case OpRevoke(id) => Revoke(db, id)
    case OpTouch(id, at) => TouchSuccess(db, id, at)
    case OpDelete(id) => Delete(db, id)
    case OpPreview(hostId) => StorePreview(db, hostId)
    case OpApprove(hostId) => ApproveHost(db, hostId)
    case OpRevokeHost(hostId) => RevokeHost(db, hostId)
    case OpSetCredential(hostId, reference) => SetCredential(contract, db, hostId, reference)
    case OpSnapshot(id) => (db.(referenced := db.referenced + {id}), Done)
  }

  /** Operations on hosts, and reads. */
  predicate LeavesRows(op: Op) {
    || op.OpReadDraft? || op.OpCheck? || op.OpPreview? || op.OpApprove? || op.OpRevokeHost? || op.OpSetCredential? ||
       op.OpSnapshot?
  }

  lemma {:induction false} RowsAreLeft(contract: Contract, db: Db, op: Op)
    requires LeavesRows(op)
    ensures Step(contract, db, op).0.rows == db.rows && db.hosts.Keys <= Step(contract, db, op).0.hosts.Keys
  {
  }

  // ---------------------------------------------------------------- the invariant

  ghost predicate RowsValid(contract: Contract, db: Db) {
    forall id :: id in db.rows ==>
      && RowChecks(contract, id, db.rows[id]) && db.rows[id].hostId in db.hosts
      && (db.rows[id].lifecycle.Verified? || db.rows[id].lifecycle.Degraded? ==> db.rows[id].verifiedAt.Some?)
  }

  ghost predicate RevisionsUnique(db: Db) {
    forall i, j :: i in db.rows && j in db.rows && i != j ==>
      db.rows[i].hostId != db.rows[j].hostId || db.rows[i].revision != db.rows[j].revision
  }

  ghost predicate OneActivePerHost(db: Db) {
    forall i, j :: i in db.rows && j in db.rows && db.rows[i].lifecycle.Active? && db.rows[j].lifecycle.Active? ==>
      db.rows[i].hostId == db.rows[j].hostId ==> i == j
  }

  /** What the tables themselves keep: valid rows, unique revisions, one active profile per host. */
  ghost predicate Structure(contract: Contract, db: Db) {
    RowsValid(contract, db) && RevisionsUnique(db) && OneActivePerHost(db)
  }

  /** The row's document belongs to it, and passed the full contract if the row is in service. */
  ghost predicate DocumentSound(contract: Contract, id: string, r: Row) {
    && contract.decode(r.profileJson).Some?
    && MatchesRow(contract, id, r, contract.decode(r.profileJson).value)
    && (InService(r.lifecycle) ==> contract.passes(contract.decode(r.profileJson).value))
  }

  ghost predicate DocumentsSound(contract: Contract, db: Db) {
    forall id :: id in db.rows ==> DocumentSound(contract, id, db.rows[id])
  }

  ghost predicate Invariant(contract: Contract, db: Db) {
    Structure(contract, db) && DocumentsSound(contract, db)
  }

  /** Each host carries the credential of its active profile. */
  ghost predicate CredentialsInSync(contract: Contract, db: Db) {
    forall id :: id in db.rows && db.rows[id].lifecycle.Active? && contract.decode(db.rows[id].profileJson).Some? ==>
      db.rows[id].hostId in db.hosts
      && db.hosts[db.rows[id].hostId].credentialReference
          == contract.decode(db.rows[id].profileJson).value.credentialReference
  }

  lemma {:induction false} InsertKeepsStructure(contract: Contract, db: Db, rec: DraftRecord)
    requires Structure(contract, db)
    ensures Structure(contract, InsertDraft(contract, db, rec).0)
  {
  }

  lemma {:induction false} InsertKeeps(contract: Contract, db: Db, rec: DraftRecord)
    requires Structure(contract, db)
    ensures Structure(contract, InsertDraft(contract, db, rec).0)
    ensures DocumentsSound(contract, db) ==> DocumentsSound(contract, InsertDraft(contract, db, rec).0)
    ensures CredentialsInSync(contract, db) ==> CredentialsInSync(contract, InsertDraft(contract, db, rec).0)
  {
    InsertKeepsStructure(contract, db, rec);
  }

  lemma {:induction false} CreateKeeps(contract: Contract, db: Db, rec: DraftRecord)
    requires Structure(contract, db)
    ensures Structure(contract, CreateDraft(contract, db, rec).0)
    ensures DocumentsSound(contract, db) ==> DocumentsSound(contract, CreateDraft(contract, db, rec).0)
    ensures CredentialsInSync(contract, db) ==> CredentialsInSync(contract, CreateDraft(contract, db, rec).0)
  {
    var inserted := CreateInserts(contract, db, rec);
    InsertKeeps(contract, db, inserted);
  }

  /** Creating a draft changes nothing or inserts one record. */
  lemma {:induction false} CreateInserts(contract: Contract, db: Db, rec: DraftRecord) returns (inserted: DraftRecord)
    ensures CreateDraft(contract, db, rec).0 in {db, InsertDraft(contract, db, inserted).0}
    ensures inserted.profileId == rec.profileId
  {
    inserted := if rec.report == "" then rec.(report := "{}") else rec;
    if inserted.revision == 0 && contract.decode(inserted.profileJson).Some? {
      var next := MaximumRevision(db, inserted.hostId) + 1;
      var d := contract.decode(inserted.profileJson).value.(profileRevision := next);
      inserted := inserted.(revision := next, profileJson := contract.encode(d));
    }
  }

  /** Replacing one row by a valid one of the same identity keeps the structure, provided a newly active row is the
      only one of its host. */
  lemma {:induction false} ReplaceKeepsStructure(contract: Contract, db: Db, id: string, r: Row)
    requires Structure(contract, db) && id in db.rows
    requires r.hostId == db.rows[id].hostId && r.revision == db.rows[id].revision && RowChecks(contract, id, r)
    requires r.lifecycle.Verified? || r.lifecycle.Degraded? ==> r.verifiedAt.Some?
    requires r.lifecycle.Active? ==>
               forall j :: j in db.rows && db.rows[j].hostId == r.hostId && db.rows[j].lifecycle.Active? ==> j == id
    ensures Structure(contract, db.(rows := db.rows[id := r]))
  {
    var rows := db.rows[id := r];
    assert rows[id] == r;
    assert forall j :: j in rows ==>
          j in db.rows && rows[j].hostId == db.rows[j].hostId && rows[j].revision == db.rows[j].revision;
    assert forall j :: j in rows && j != id ==> rows[j] == db.rows[j];
  }

  lemma {:induction false} ReplaceKeepsDocuments(contract: Contract, db: Db, id: string, r: Row)
    requires DocumentsSound(contract, db) && id in db.rows
    ensures DocumentsSound(contract, db.(rows := db.rows[id := r])) <==> DocumentSound(contract, id, r)
  {
    var rows := db.rows[id := r];
    assert rows[id] == r && forall j :: j in rows && j != id ==> j in db.rows && rows[j] == db.rows[j];
  }

  lemma {:induction false} ReplaceKeeps(contract: Contract, db: Db, id: string, r: Row)
    requires Structure(contract, db) && id in db.rows
    requires r.hostId == db.rows[id].hostId && r.revision == db.rows[id].revision && RowChecks(contract, id, r)
    requires r.lifecycle.Verified? || r.lifecycle.Degraded? ==> r.verifiedAt.Some?
    requires r.lifecycle.Active? ==>
               forall j :: j in db.rows && db.rows[j].hostId == r.hostId && db.rows[j].lifecycle.Active? ==> j == id
    ensures Structure(contract, db.(rows := db.rows[id := r]))
    ensures DocumentsSound(contract, db) ==>
              (DocumentsSound(contract, db.(rows := db.rows[id := r])) <==> DocumentSound(contract, id, r))
  {
    ReplaceKeepsStructure(contract, db, id, r);
    if DocumentsSound(contract, db) { ReplaceKeepsDocuments(contract, db, id, r); }
  }

  lemma {:induction false} RevokedRows(rows: map<string, Row>, hostId: string)
    ensures var revoked := RevokeActive(rows, hostId);
            && revoked.Keys == rows.Keys
            && forall j :: j in revoked ==>
                 && (revoked[j] == rows[j] || revoked[j] == rows[j].(lifecycle := Revoked))
                 && (revoked[j].lifecycle.Active? ==> revoked[j] == rows[j] && rows[j].hostId != hostId)
  {
  }

  lemma {:induction false} RevokeActiveKeepsStructure(contract: Contract, db: Db, hostId: string)
    requires Structure(contract, db)
    ensures Structure(contract, db.(rows := RevokeActive(db.rows, hostId)))
  {
    var rows := RevokeActive(db.rows, hostId);
    RevokedRows(db.rows, hostId);
    assert forall j :: j in rows ==>
          j in db.rows && rows[j].hostId == db.rows[j].hostId && rows[j].revision == db.rows[j].revision;
  }

  lemma {:induction false} RevokeActiveKeeps(contract: Contract, db: Db, hostId: string)
    requires Structure(contract, db)
    ensures Structure(contract, db.(rows := RevokeActive(db.rows, hostId)))
    ensures DocumentsSound(contract, db) ==> DocumentsSound(contract, db.(rows := RevokeActive(db.rows, hostId)))
    ensures forall j :: j in db.rows ==>
              var r := RevokeActive(db.rows, hostId)[j];
              r.hostId == db.rows[j].hostId && !(r.hostId == hostId && r.lifecycle.Active?)
  {
    RevokeActiveKeepsStructure(contract, db, hostId);
    RevokedRows(db.rows, hostId);
  }

  lemma {:induction false} ActivateKeeps(contract: Contract, db: Db, id: string, at: int)
    requires Structure(contract, db)
    ensures Structure(contract, Activate(contract, db, id, at).0)
    ensures DocumentsSound(contract, db) ==> DocumentsSound(contract, Activate(contract, db, id, at).0)
  {
    if Activate(contract, db, id, at).1 == Done {
      var r := db.rows[id];
      var demoted := db.(rows := RevokeActive(db.rows, r.hostId));
      RevokeActiveKeeps(contract, db, r.hostId);
      assert demoted.rows[id] == r;
      ReplaceKeeps(contract, demoted, id, r.(lifecycle := Active, activatedAt := Some(at)));
      var next := Activate(contract, db, id, at).0;
      assert next.hosts.Keys == db.hosts.Keys;
      assert Structure(contract, demoted.(rows := next.rows));
    }
  }

  /** Activation leaves the activated profile as its host's only active one and hands the host its
      credential; whatever was active before is revoked in the same step. */
  lemma {:induction false} ActivateSwitches(contract: Contract, db: Db, id: string, at: int, j: string)
    requires Structure(contract, db) && j in db.rows && Activate(contract, db, id, at).1 == Done
    ensures var next := Activate(contract, db, id, at).0;
            var host := db.rows[id].hostId;
            && next.rows.Keys == db.rows.Keys
            && (next.rows[j].lifecycle.Active? && db.rows[j].hostId == host <==> j == id)
            && (db.rows[j].lifecycle.Active? && db.rows[j].hostId == host ==> next.rows[j].lifecycle.Revoked?)
            && (db.rows[j].hostId != host ==> next.rows[j] == db.rows[j])
            && next.hosts[host].credentialReference
                == contract.decode(db.rows[id].profileJson).value.credentialReference
            && db.hosts[host].lifecycle.Approved?
  {
  }

  lemma {:induction false} ActivateKeepsCredentials(contract: Contract, db: Db, id: string, at: int)
    requires Structure(contract, db) && CredentialsInSync(contract, db)
    ensures CredentialsInSync(contract, Activate(contract, db, id, at).0)
  {
    if Activate(contract, db, id, at).1 == Done {
      var next := Activate(contract, db, id, at).0;
      forall j | j in next.rows && next.rows[j].lifecycle.Active? && contract.decode(next.rows[j].profileJson).Some?
        ensures next.rows[j].hostId in next.hosts
        ensures next.hosts[next.rows[j].hostId].credentialReference
             == contract.decode(next.rows[j].profileJson).value.credentialReference
      {
        ActivateSwitches(contract, db, id, at, j);
      }
    }
  }

  lemma {:induction false} DeleteKeeps(contract: Contract, db: Db, id: string)
    requires Structure(contract, db)
    ensures Structure(contract, Delete(db, id).0)
    ensures DocumentsSound(contract, db) ==> DocumentsSound(contract, Delete(db, id).0)
  {
  }

  lemma {:induction false} HostsKeep(contract: Contract, db: Db, next: Db)
    requires Structure(contract, db) && next.rows == db.rows && db.hosts.Keys <= next.hosts.Keys
    ensures Structure(contract, next) && (DocumentsSound(contract, db) ==> DocumentsSound(contract, next))
  {
  }

  lemma {:induction false} WriteKeeps(contract: Contract, db: Db, id: string, json: string, report: string)
    requires Structure(contract, db)
    ensures Structure(contract, WriteDraft(contract, db, id, json, report).0)
    ensures DocumentsSound(contract, db) ==>
              (DocumentsSound(contract, WriteDraft(contract, db, id, json, report).0) <==> WriteFits(contract, db, id, json, report))
  {
    if WriteDraft(contract, db, id, json, report).1 == Done {
      ReplaceKeeps(contract, db, id, Redrafted(contract, db.rows[id], json, report));
    }
  }

  /** The second half of an update fits: it does nothing, or its document belongs to the row that is stored now. */
  ghost predicate WriteFits(contract: Contract, db: Db, id: string, json: string, report: string) {
    WriteDraft(contract, db, id, json, report).1 == Done ==>
      var d := contract.decode(json);
      d.Some? && MatchesRow(contract, id, db.rows[id].(specDigest := d.value.specDigest), d.value)
  }

  lemma {:induction false} CommitVerifiedExact(contract: Contract, db: Db, id: string, at: int)
    requires Structure(contract, db)
    ensures Structure(contract, CommitVerified(db, id, at).0)
    ensures DocumentsSound(contract, db) ==>
              (DocumentsSound(contract, CommitVerified(db, id, at).0) <==> CommitFits(contract, db, id, at))
  {
    if CommitVerified(db, id, at).1 == Done {
      ReplaceKeeps(contract, db, id,
                   db.rows[id].(lifecycle := Verified, verifiedAt := Some(at), lastFailureCode := ""));
    }
  }

  ghost predicate CommitFits(contract: Contract, db: Db, id: string, at: int) {
    CommitVerified(db, id, at).1 == Done ==>
      var d := contract.decode(db.rows[id].profileJson);
      d.Some? && contract.passes(d.value)
  }

  lemma {:induction false} RestKeeps(contract: Contract, db: Db, op: Op)
    requires Structure(contract, db) && (op.OpDegrade? || op.OpRevoke? || op.OpTouch?)
    ensures Structure(contract, Step(contract, db, op).0)
    ensures DocumentsSound(contract, db) ==> DocumentsSound(contract, Step(contract, db, op).0)
  {
    var next := Step(contract, db, op).0;
    if next != db { ReplaceKeeps(contract, db, op.id, next.rows[op.id]); }
  }

  ghost predicate Fits(contract: Contract, db: Db, op: Op) {
    match op
    case OpWriteDraft(id, json, report, _) => WriteFits(contract, db, id, json, report)
    case OpCommit(id, at, _) => CommitFits(contract, db, id, at)
    case _ => true
  }

  /** What a step does to the structure and to the documents. */
  ghost predicate Keeps(contract: Contract, db: Db, op: Op) {
    && Structure(contract, Step(contract, db, op).0)
    && (DocumentsSound(contract, db) ==> (DocumentsSound(contract, Step(contract, db, op).0) <==> Fits(contract, db, op)))
  }

  lemma {:induction false} HostStepKeeps(contract: Contract, db: Db, op: Op)
    requires Structure(contract, db) && LeavesRows(op)
    ensures Keeps(contract, db, op)
  {
    RowsAreLeft(contract, db, op);
    HostsKeep(contract, db, Step(contract, db, op).0);
  }

  lemma {:induction false} DraftStepKeeps(contract: Contract, db: Db, op: Op)
    requires Structure(contract, db) && (op.OpCreate? || op.OpWriteDraft? || op.OpCommit?)
    ensures Keeps(contract, db, op)
  {
    match op
    case OpCreate(rec) => CreateKeeps(contract, db, rec);
    case OpWriteDraft(id, json, report, _) => WriteKeeps(contract, db, id, json, report);
    case OpCommit(id, at, _) => CommitVerifiedExact(contract, db, id, at);
  }

  lemma {:induction false} RowStepKeeps(contract: Contract, db: Db, op: Op)
    requires Structure(contract, db) && (op.OpActivate? || op.OpDelete? || op.OpDegrade? || op.OpRevoke? || op.OpTouch?)
    ensures Keeps(contract, db, op)
  {
    match op
    case OpActivate(id, at) => ActivateKeeps(contract, db, id, at);
    case OpDelete(id) => DeleteKeeps(contract, db, id);
    case _ => RestKeeps(contract, db, op);
  }

  lemma {:induction false} StepKeeps(contract: Contract, db: Db, op: Op)
    requires Structure(contract, db)
    ensures Keeps(contract, db, op)
  {
    if LeavesRows(op) {
      HostStepKeeps(contract, db, op);
    } else if op.OpCreate? || op.OpWriteDraft? || op.OpCommit? {
      DraftStepKeeps(contract, db, op);
    } else {
      RowStepKeeps(contract, db, op);
    }
  }

  /** Every operation, whatever raced with it, keeps the structure: at most one active profile per host, unique
      revisions, valid rows. */
  lemma {:induction false} StepKeepsStructure(contract: Contract, db: Db, op: Op)
    requires Structure(contract, db)
    ensures Structure(contract, Step(contract, db, op).0)
  {
    StepKeeps(contract, db, op);
  }

  /** Every operation but the two second halves also keeps a passed document behind every row in service. */
  lemma {:induction false} StepKeepsInvariant(contract: Contract, db: Db, op: Op)
    requires Invariant(contract, db)
    ensures Invariant(contract, Step(contract, db, op).0) <==> Fits(contract, db, op)
  {
    StepKeeps(contract, db, op);
  }

  /** Active rows that are left as they are on hosts that keep their credentials stay in sync. */
  lemma {:induction false} QuietKeepsCredentials(contract: Contract, db: Db, next: Db)
    requires CredentialsInSync(contract, db)
    requires forall id :: id in next.rows && next.rows[id].lifecycle.Active? ==>
               && id in db.rows && db.rows[id].lifecycle.Active?
               && next.rows[id].hostId == db.rows[id].hostId && next.rows[id].profileJson == db.rows[id].profileJson
    requires forall h :: h in db.hosts ==>
          h in next.hosts && next.hosts[h].credentialReference == db.hosts[h].credentialReference
    ensures CredentialsInSync(contract, next)
  {
  }

  lemma {:induction false} HostStepKeepsCredentials(contract: Contract, db: Db, op: Op)
    requires CredentialsInSync(contract, db) && LeavesRows(op) && !op.OpSetCredential?
    ensures CredentialsInSync(contract, Step(contract, db, op).0)
  {
    RowsAreLeft(contract, db, op);
    QuietKeepsCredentials(contract, db, Step(contract, db, op).0);
  }

  lemma {:induction false} HostsAreLeft(contract: Contract, db: Db, op: Op)
    requires op.OpDelete? || WritesOneRow(op)
    ensures Step(contract, db, op).0.hosts == db.hosts
  {
  }

  lemma {:induction false} RowStepKeepsCredentials(contract: Contract, db: Db, op: Op)
    requires CredentialsInSync(contract, db) && (op.OpDelete? || WritesOneRow(op))
    ensures CredentialsInSync(contract, Step(contract, db, op).0)
  {
    HostsAreLeft(contract, db, op);
    var next := Step(contract, db, op).0;
    forall id | id in next.rows && next.rows[id].lifecycle.Active?
      ensures id in db.rows && db.rows[id].lifecycle.Active?
      ensures next.rows[id].hostId == db.rows[id].hostId && next.rows[id].profileJson == db.rows[id].profileJson
    {
      StillActive(contract, db, op, id);
    }
    QuietKeepsCredentials(contract, db, next);
  }

  /** Only activation makes a row active. */
  lemma {:induction false} StillActive(contract: Contract, db: Db, op: Op, id: string)
    requires !op.OpActivate? && id in Step(contract, db, op).0.rows &&
             Step(contract, db, op).0.rows[id].lifecycle.Active?
    ensures id in db.rows && db.rows[id].lifecycle.Active?
    ensures var r, r' := db.rows[id], Step(contract, db, op).0.rows[id];
            r'.hostId == r.hostId && r'.profileJson == r.profileJson
  {
    if id in db.rows { StepOnRow(contract, db, op, id); } else { StepAddsRow(contract, db, op, id); }
    if WritesOneRow(op) { OneRowStaysActive(contract, db, op, id); }
  }

  lemma {:induction false} OneRowStaysActive(contract: Contract, db: Db, op: Op, id: string)
    requires WritesOneRow(op) && id in db.rows && id in Step(contract, db, op).0.rows
    ensures Step(contract, db, op).0.rows[id].lifecycle.Active? ==> db.rows[id].lifecycle.Active?
  {
  }

  /** The active profiles of a host, if any, name this credential. */
  ghost predicate NamesCredential(contract: Contract, db: Db, hostId: string, reference: string) {
    forall id :: id in db.rows && db.rows[id].hostId == hostId && db.rows[id].lifecycle.Active?
                 && contract.decode(db.rows[id].profileJson).Some? ==>
      reference == contract.decode(db.rows[id].profileJson).value.credentialReference
  }

  lemma {:induction false} SetCredentialExact(contract: Contract, db: Db, hostId: string, reference: string)
    requires CredentialsInSync(contract, db)
    ensures var (next, outcome) := SetCredential(contract, db, hostId, reference);
            CredentialsInSync(contract, next) <==> (outcome == Done ==> NamesCredential(contract, db, hostId, reference))
  {
  }

  /** Credentials stay in sync under every operation but one: setting a host's credential directly
      keeps them exactly when the host has no active profile or is given that profile's reference. */
  lemma {:induction false} StepKeepsCredentials(contract: Contract, db: Db, op: Op)
    requires Structure(contract, db) && CredentialsInSync(contract, db)
    ensures CredentialsInSync(contract, Step(contract, db, op).0) <==>
              (op.OpSetCredential? && Step(contract, db, op).1 == Done ==> NamesCredential(contract, db, op.hostId, op.reference))
  {
    match op
    case OpCreate(rec) => CreateKeeps(contract, db, rec);
    case OpActivate(id, at) => ActivateKeepsCredentials(contract, db, id, at);
    case OpSetCredential(hostId, reference) => SetCredentialExact(contract, db, hostId, reference);
    case _ => if LeavesRows(op) { HostStepKeepsCredentials(contract, db, op); } else { RowStepKeepsCredentials(contract, db, op); }
  }

  // ---------------------------------------------------------------- one row

  ghost predicate SameIdentity(r: Row, s: Row) {
    r.hostId == s.hostId && r.revision == s.revision && r.schemaVersion == s.schemaVersion && r.displayName == s.displayName
  }

  /** Where a row may go in one operation while it exists. */
  ghost predicate MayBecome(l: Lifecycle, m: Lifecycle) {
    || l == m
    || (m.Verified? && (l.Draft? || l.Invalid?))
    || (m.Active? && l.Verified?)
    || (m.Degraded? && l.Active?)
    || (m.Revoked? && !l.Revoked?)
  }

  /** What one operation may do to a row. */
  ghost predicate Advances(r: Row, r': Row) {
    && SameIdentity(r', r) && MayBecome(r.lifecycle, r'.lifecycle)
    && (r'.profileJson != r.profileJson || r'.specDigest != r.specDigest ==>
          (r.lifecycle.Draft? || r.lifecycle.Invalid?) && r'.lifecycle == r.lifecycle)
  }

  /** Operations that write at most the row they name. */
  predicate WritesOneRow(op: Op) {
    op.OpWriteDraft? || op.OpCommit? || op.OpDegrade? || op.OpRevoke? || op.OpTouch?
  }

  /** What a step did to one row. */
  ghost predicate AdvancesRow(contract: Contract, db: Db, op: Op, id: string) {
    var next := Step(contract, db, op).0;
    && next.rows.Keys == db.rows.Keys
    && (id in db.rows ==>
          && Advances(db.rows[id], next.rows[id])
          && (!op.OpWriteDraft? ==> next.rows[id].profileJson == db.rows[id].profileJson))
  }

  lemma {:induction false} WriteAdvances(contract: Contract, db: Db, op: Op, id: string)
    requires op.OpWriteDraft? || op.OpCommit?
    ensures AdvancesRow(contract, db, op, id)
  {
    assert Step(contract, db, op).0.rows.Keys == db.rows.Keys;
  }

  lemma {:induction false} LifecycleAdvances(contract: Contract, db: Db, op: Op, id: string)
    requires op.OpDegrade? || op.OpRevoke? || op.OpTouch?
    ensures AdvancesRow(contract, db, op, id)
  {
    assert Step(contract, db, op).0.rows.Keys == db.rows.Keys;
  }

  lemma {:induction false} OneRowAdvances(contract: Contract, db: Db, op: Op, id: string)
    requires WritesOneRow(op)
    ensures AdvancesRow(contract, db, op, id)
  {
    if op.OpWriteDraft? || op.OpCommit? {
      WriteAdvances(contract, db, op, id);
    } else {
      LifecycleAdvances(contract, db, op, id);
    }
  }

  lemma {:induction false} ActivateAdvances(contract: Contract, db: Db, id: string, at: int, j: string)
    ensures var next := Activate(contract, db, id, at).0;
            && next.rows.Keys == db.rows.Keys
            && (j in db.rows ==> Advances(db.rows[j], next.rows[j]) && next.rows[j].profileJson == db.rows[j].profileJson)
  {
    if id in db.rows { RevokedRows(db.rows, db.rows[id].hostId); }
    assert Activate(contract, db, id, at).0.rows.Keys == db.rows.Keys;
  }

  lemma {:induction false} CreateAdds(contract: Contract, db: Db, rec: DraftRecord)
    ensures var (next, outcome) := CreateDraft(contract, db, rec);
            && (forall id :: id in db.rows ==> id in next.rows && next.rows[id] == db.rows[id])
            && (forall id :: id in next.rows && id !in db.rows ==>
                  id == rec.profileId && outcome == Done && next.rows[id].lifecycle.Draft?)
            && (rec.profileId in db.rows ==> outcome != Done)
  {
    var inserted := CreateInserts(contract, db, rec);
  }

  /** One operation on a surviving row: identity never changes, the lifecycle moves along the allowed
      edges, and the document changes only while the row is a draft or invalid. */
  lemma {:induction false} StepOnRow(contract: Contract, db: Db, op: Op, id: string)
    requires id in db.rows && id in Step(contract, db, op).0.rows
    ensures Advances(db.rows[id], Step(contract, db, op).0.rows[id])
    ensures !op.OpWriteDraft? ==> Step(contract, db, op).0.rows[id].profileJson == db.rows[id].profileJson
  {
    match op
    case OpCreate(rec) => CreateAdds(contract, db, rec);
    case OpActivate(i, at) => ActivateAdvances(contract, db, i, at, id);
    case OpDelete(_) =>
    case _ => if LeavesRows(op) { RowsAreLeft(contract, db, op); } else { OneRowAdvances(contract, db, op, id); }
  }

  /** A new row is a draft, from a creation that succeeded. */
  lemma {:induction false} StepAddsRow(contract: Contract, db: Db, op: Op, id: string)
    requires id !in db.rows && id in Step(contract, db, op).0.rows
    ensures op.OpCreate? && op.rec.profileId == id && Step(contract, db, op).1 == Done
    ensures Step(contract, db, op).0.rows[id].lifecycle.Draft?
  {
    match op
    case OpCreate(rec) => CreateAdds(contract, db, rec);
    case OpActivate(i, at) => ActivateAdvances(contract, db, i, at, id);
    case OpDelete(_) =>
    case _ => if LeavesRows(op) { RowsAreLeft(contract, db, op); } else { OneRowAdvances(contract, db, op, id); }
  }

  /** A row disappears only by deletion, which a draft, an invalid or a revoked row allows and a
      snapshot's reference forbids. */
  lemma {:induction false} StepRemovesRow(contract: Contract, db: Db, op: Op, id: string)
    requires id in db.rows && id !in Step(contract, db, op).0.rows
    ensures op == OpDelete(id) && !InService(db.rows[id].lifecycle) && id !in db.referenced
  {
    match op
    case OpCreate(rec) => CreateAdds(contract, db, rec);
    case OpActivate(i, at) => ActivateAdvances(contract, db, i, at, id);
    case OpDelete(_) =>
    case _ => if LeavesRows(op) { RowsAreLeft(contract, db, op); } else { OneRowAdvances(contract, db, op, id); }
  }

  // ---------------------------------------------------------------- runs

  /** The states of a run, one per executed operation, after the first. */
  ghost function Reached(contract: Contract, db: Db, ops: seq<Op>): Db {
    if ops == [] then db else Step(contract, Reached(contract, db, ops[..|ops| - 1]), ops[|ops| - 1]).0
  }

  const EMPTY := Db(map[], map[], {})

  /** After any run from empty tables, with any interleaving, the structure holds and no row is marked invalid. */
  lemma {:induction false} EveryRunKeepsStructure(contract: Contract, ops: seq<Op>)
    ensures var db := Reached(contract, EMPTY, ops);
            Structure(contract, db) && forall id :: id in db.rows ==> !db.rows[id].lifecycle.Invalid?
  {
    if ops != [] {
      var before := Reached(contract, EMPTY, ops[..|ops| - 1]);
      EveryRunKeepsStructure(contract, ops[..|ops| - 1]);
      StepKeepsStructure(contract, before, ops[|ops| - 1]);
      NoRowTurnsInvalid(contract, before, ops[|ops| - 1]);
    }
  }

  lemma {:induction false} NoRowTurnsInvalid(contract: Contract, db: Db, op: Op)
    requires forall id :: id in db.rows ==> !db.rows[id].lifecycle.Invalid?
    ensures forall id :: id in Step(contract, db, op).0.rows ==> !Step(contract, db, op).0.rows[id].lifecycle.Invalid?
  {
    forall id | id in Step(contract, db, op).0.rows
      ensures !Step(contract, db, op).0.rows[id].lifecycle.Invalid?
    {
      if id in db.rows { StepOnRow(contract, db, op, id); } else { StepAddsRow(contract, db, op, id); }
    }
  }

  /** Over any run that never sets a host credential directly, with any interleaving, hosts carry their active
      profile's credential throughout. */
  lemma {:induction false} EveryRunKeepsCredentials(contract: Contract, ops: seq<Op>)
    requires forall i :: 0 <= i < |ops| ==> !ops[i].OpSetCredential?
    ensures CredentialsInSync(contract, Reached(contract, EMPTY, ops))
  {
    if ops != [] {
      EveryRunKeepsStructure(contract, ops[..|ops| - 1]);
      EveryRunKeepsCredentials(contract, ops[..|ops| - 1]);
      StepKeepsCredentials(contract, Reached(contract, EMPTY, ops[..|ops| - 1]), ops[|ops| - 1]);
    }
  }

  ghost predicate PresentThroughout(contract: Contract, db: Db, ops: seq<Op>, id: string) {
    forall n :: 0 <= n <= |ops| ==> id in Reached(contract, db, ops[..n]).rows
  }

  /** Over any run: once a row has left the drafts its document and identity are frozen for as long as
      the row exists, it never becomes a draft again, and once revoked it stays revoked. */
  lemma {:induction false} LaterRowsAreFrozen(contract: Contract, db: Db, ops: seq<Op>, id: string)
    requires PresentThroughout(contract, db, ops, id) && id in db.rows
    requires !db.rows[id].lifecycle.Draft? && !db.rows[id].lifecycle.Invalid?
    ensures id in Reached(contract, db, ops).rows
    ensures var r, r' := db.rows[id], Reached(contract, db, ops).rows[id];
            && r'.profileJson == r.profileJson && r'.specDigest == r.specDigest
            && r'.hostId == r.hostId && r'.revision == r.revision
            && !r'.lifecycle.Draft? && !r'.lifecycle.Invalid?
            && (r.lifecycle.Revoked? ==> r'.lifecycle.Revoked?)
  {
    assert ops[..|ops|] == ops;
    if ops != [] {
      var n := |ops| - 1;
      forall k | 0 <= k <= n
        ensures id in Reached(contract, db, ops[..n][..k]).rows
      {
        assert ops[..n][..k] == ops[..k];
      }
      LaterRowsAreFrozen(contract, db, ops[..n], id);
      StepOnRow(contract, Reached(contract, db, ops[..n]), ops[n], id);
    }
  }

  /** A new revision is above every stored one of its host, so it is unique among stored rows. */
  lemma {:induction false} NewRevisionIsNext(contract: Contract, db: Db, rec: DraftRecord)
    requires rec.revision == 0 && CreateDraft(contract, db, rec).1 == Done
    ensures var next := CreateDraft(contract, db, rec).0;
            && rec.profileId in next.rows && rec.profileId !in db.rows
            && next.rows[rec.profileId].revision == MaximumRevision(db, rec.hostId) + 1
            && forall id :: id in db.rows && db.rows[id].hostId == rec.hostId ==>
                 db.rows[id].revision < next.rows[rec.profileId].revision
  {
  }

  /** Not over all history: after a deletion the next number is one the host has already given out exactly when the
      deleted row held its host's greatest revision. */
  lemma {:induction false} RevisionIsReused(contract: Contract, db: Db, id: string)
    requires Structure(contract, db) && id in db.rows && Delete(db, id).1 == Done
    ensures var host := db.rows[id].hostId;
            MaximumRevision(Delete(db, id).0, host) + 1 <= db.rows[id].revision <==> db.rows[id].revision == MaximumRevision(db, host)
  {
    var host, rest := db.rows[id].hostId, Delete(db, id).0;
    assert forall j :: j in rest.rows <==> j in db.rows && j != id;
    assert forall j :: j in rest.rows ==> rest.rows[j] == db.rows[j];
    assert db.rows[id].revision <= MaximumRevision(db, host);
    assert MaximumRevision(rest, host) > 0 ==>
          exists j :: j in rest.rows && rest.rows[j].hostId == host && rest.rows[j].revision == MaximumRevision(rest, host);
  }

  // ---------------------------------------------------------------- when operations do their work

  /** The row is there and in one of the lifecycles. */
  predicate Is(db: Db, id: string, lifecycles: set<Lifecycle>) {
    id in db.rows && db.rows[id].lifecycle in lifecycles
  }

  predicate HostIs(db: Db, hostId: string, lifecycles: set<HostLifecycle>) {
    hostId in db.hosts && db.hosts[hostId].lifecycle in lifecycles
  }

  /** The text is a document about the row. */
  predicate Describes(contract: Contract, id: string, r: Row, json: string) {
    && contract.decode(json).Some?
    && var d := contract.decode(json).value;
       && d.profileId == id && d.hostId == r.hostId && d.profileRevision == r.revision &&
          d.schemaVersion == r.schemaVersion
       && d.displayName == r.displayName && d.adapter == "openapi" && contract.validCredential(d.credentialReference)
  }

  /** The row stores a document about itself, under the digest that the document names. */
  predicate Belongs(contract: Contract, id: string, r: Row) {
    Describes(contract, id, r, r.profileJson) && contract.decode(r.profileJson).value.specDigest == r.specDigest
  }

  /** The table takes the row as a draft. */
  predicate Storable(contract: Contract, id: string, r: Row) {
    && id != "" && r.hostId != "" && r.displayName != "" && r.revision >= 1 && r.schemaVersion == 1
    && contract.validJson(r.profileJson) && contract.validJson(r.report) && contract.validDigest(r.specDigest)
  }

  /** The draft that the record asks for: with its own revision, or with the one behind the greatest of the host, which is
      then written into the document. */
  ghost predicate DraftOf(contract: Contract, db: Db, rec: DraftRecord, r: Row) {
    && r.hostId == rec.hostId && r.schemaVersion == rec.schemaVersion && r.displayName == rec.displayName
    && r.specDigest == rec.specDigest && r.report == (if rec.report == "" then "{}" else rec.report)
    && r.lifecycle == Draft && r.verifiedAt == r.activatedAt == r.lastSuccessAt == r.lastFailureAt == None &&
       r.lastFailureCode == ""
    && if rec.revision != 0 then r.revision == rec.revision && r.profileJson == rec.profileJson
       else && contract.decode(rec.profileJson).Some?
            && r.profileJson == contract.encode(contract.decode(rec.profileJson).value.(profileRevision := r.revision))
            && (forall j :: j in db.rows && db.rows[j].hostId == rec.hostId ==> db.rows[j].revision < r.revision)
            && (r.revision == 1 || exists j :: j in db.rows && db.rows[j].hostId == rec.hostId && db.rows[j].revision == r.revision - 1)
  }

  /** The draft may be inserted. */
  ghost predicate Insertable(contract: Contract, db: Db, rec: DraftRecord, r: Row) {
    && DraftOf(contract, db, rec, r) && Storable(contract, rec.profileId, r) && Belongs(contract, rec.profileId, r)
    && rec.profileId !in db.rows && rec.hostId in db.hosts
    && forall j :: j in db.rows ==> db.rows[j].hostId != r.hostId || db.rows[j].revision != r.revision
  }

  /** The row is verified and names a credential that can be handed to its host. */
  predicate Activatable(contract: Contract, db: Db, id: string) {
    && Is(db, id, {Verified}) && contract.decode(db.rows[id].profileJson).Some?
    && contract.validCredential(contract.decode(db.rows[id].profileJson).value.credentialReference)
  }

  /** When an operation does its work. */
  ghost predicate Enabled(contract: Contract, db: Db, op: Op) {
    match op
    case OpCreate(rec) => rec.lifecycle == Draft && rec.revision >= 0 && exists r :: Insertable(contract, db, rec, r)
    case OpReadDraft(id, json, report) =>
      Is(db, id, {Draft, Invalid}) && Describes(contract, id, db.rows[id], json) && contract.validJson(report)
    case OpWriteDraft(id, json, report, _) =>
      Is(db, id, {Draft, Invalid}) && Storable(contract, id, WithDocument(contract, db.rows[id], json, report))
    case OpCheck(id) =>
      && Is(db, id, {Draft, Invalid}) && Belongs(contract, id, db.rows[id])
      && contract.passes(contract.decode(db.rows[id].profileJson).value)
    case OpCommit(id, _, _) => Is(db, id, {Draft, Invalid})
    case OpActivate(id, _) => Activatable(contract, db, id) && HostIs(db, db.rows[id].hostId, {Approved})
    case OpDegrade(id, code, _) => Is(db, id, {Active}) && code != ""
    case OpRevoke(id) => Is(db, id, {Draft, Verified, Active, Degraded, Invalid})
    case OpTouch(id, _) => Is(db, id, {Active, Degraded})
    case OpDelete(id) => Is(db, id, {Draft, Invalid, Revoked}) && id !in db.referenced
    case OpPreview(hostId) => hostId !in db.hosts || HostIs(db, hostId, {Preview})
    case OpApprove(hostId) => HostIs(db, hostId, {Preview})
    case OpRevokeHost(hostId) => HostIs(db, hostId, {Approved})
    case OpSetCredential(hostId, reference) =>
      HostIs(db, hostId, {Preview, Approved}) && (reference == "" || contract.validCredential(reference))
    case OpSnapshot(_) => true
  }

  function WithDocument(contract: Contract, r: Row, json: string, report: string): Row {
    r.(profileJson := json, report := report,
       specDigest := if contract.decode(json).None? then r.specDigest else contract.decode(json).value.specDigest)
  }

  /** The row becomes r; every other row, every host and every reference stays. */
  ghost predicate Sets(db: Db, next: Db, id: string, r: Row) {
    && next.hosts == db.hosts && next.referenced == db.referenced && next.rows.Keys == db.rows.Keys + {id} &&
       next.rows[id] == r
    && forall j :: j in db.rows && j != id ==> next.rows[j] == db.rows[j]
  }

  /** The host becomes h; every row, every other host and every reference stays. */
  ghost predicate SetsHost(db: Db, next: Db, hostId: string, h: Host) {
    && next.rows == db.rows && next.referenced == db.referenced && next.hosts.Keys == db.hosts.Keys + {hostId} &&
       next.hosts[hostId] == h
    && forall k :: k in db.hosts && k != hostId ==> next.hosts[k] == db.hosts[k]
  }

  /** The row is in service with its credential at the host; an active row of the host, if another, is revoked; all else
      stays. */
  ghost predicate Switches(contract: Contract, db: Db, next: Db, id: string, at: int)
    requires Enabled(contract, db, OpActivate(id, at))
  {
    var host, document := db.rows[id].hostId, contract.decode(db.rows[id].profileJson).value;
    && next.rows.Keys == db.rows.Keys && next.rows[id] == db.rows[id].(lifecycle := Active, activatedAt := Some(at))
    && (forall j :: j in db.rows && j != id ==>
          next.rows[j] == if db.rows[j].hostId == host && db.rows[j].lifecycle == Active then db.rows[j].(lifecycle := Revoked)
                          else db.rows[j])
    && SetsHost(db.(rows := next.rows), next, host, Host(Approved, document.credentialReference))
  }

  /** What an enabled operation leaves. */
  ghost predicate Works(contract: Contract, db: Db, op: Op, next: Db)
    requires Enabled(contract, db, op)
  {
    match op
    case OpCreate(rec) => exists r :: Insertable(contract, db, rec, r) && Sets(db, next, rec.profileId, r)
    case OpReadDraft(_, _, _) => next == db
    case OpWriteDraft(id, json, report, _) => Sets(db, next, id, WithDocument(contract, db.rows[id], json, report))
    case OpCheck(_) => next == db
    case OpCommit(id, at, _) =>
      Sets(db, next, id, db.rows[id].(lifecycle := Verified, verifiedAt := Some(at), lastFailureCode := ""))
    case OpActivate(id, at) => Switches(contract, db, next, id, at)
    case OpDegrade(id, code, at) =>
      Sets(db, next, id, db.rows[id].(lifecycle := Degraded, lastFailureAt := Some(at), lastFailureCode := code))
    case OpRevoke(id) => Sets(db, next, id, db.rows[id].(lifecycle := Revoked))
    case OpTouch(id, at) => Sets(db, next, id, db.rows[id].(lastSuccessAt := Some(at)))
    case OpDelete(id) => id !in next.rows && Sets(next, db, id, db.rows[id])
    case OpPreview(hostId) => if hostId in db.hosts then next == db else SetsHost(db, next, hostId, Host(Preview, ""))
    case OpApprove(hostId) => SetsHost(db, next, hostId, Host(Approved, db.hosts[hostId].credentialReference))
    case OpRevokeHost(hostId) => SetsHost(db, next, hostId, Host(HostRevoked, db.hosts[hostId].credentialReference))
    case OpSetCredential(hostId, reference) => SetsHost(db, next, hostId, Host(db.hosts[hostId].lifecycle, reference))
    case OpSnapshot(id) => next.rows == db.rows && next.hosts == db.hosts && next.referenced == db.referenced + {id}
  }

  /** What an operation that is not enabled answers. */
  ghost predicate Declines(contract: Contract, db: Db, op: Op, outcome: Outcome) {
    match op
    case OpReadDraft(id, _, _) => outcome == DeclinesDraft(db, id)
    case OpCheck(id) => outcome == DeclinesDraft(db, id)
    case OpWriteDraft(id, _, _, _) => outcome == if Is(db, id, {Draft, Invalid}) then Refused else Conflict
    case OpCommit(_, _, _) => outcome == Conflict
    case OpActivate(id, _) =>
      outcome == if id !in db.rows then NotFound
                 else if !Is(db, id, {Verified}) then Conflict
                 else if Activatable(contract, db, id) && db.rows[id].hostId in db.hosts then Conflict
                 else Refused
    case OpDegrade(_, code, _) => outcome == if code == "" then Refused else Conflict
    case OpRevoke(_) => outcome == Conflict
    case OpTouch(_, _) => outcome == NotFound
    case OpDelete(id) => outcome == if Is(db, id, {Draft, Invalid, Revoked}) then Referenced else NotFound
    case OpRevokeHost(_) => outcome == NotFound
    case _ => outcome == Refused
  }

  function DeclinesDraft(db: Db, id: string): Outcome {
    if id !in db.rows then NotFound else if Is(db, id, {Draft, Invalid}) then Refused else Conflict
  }

  /** The operation does its work exactly when it is enabled; otherwise it says why and changes nothing. */
  ghost predicate DoesItsWork(contract: Contract, db: Db, op: Op) {
    var (next, outcome) := Step(contract, db, op);
    if Enabled(contract, db, op) then outcome == Done && Works(contract, db, op, next)
    else outcome != Done && Declines(contract, db, op, outcome) && next == db
  }

  lemma {:induction false} OneDraft(contract: Contract, db: Db, rec: DraftRecord, r: Row, r': Row)
    requires DraftOf(contract, db, rec, r) && DraftOf(contract, db, rec, r') && r.revision >= 1 && r'.revision >= 1
    ensures r == r'
  {
  }

  lemma {:induction false} InsertWorks(contract: Contract, db: Db, rec: DraftRecord, ins: DraftRecord)
    requires ins.profileId == rec.profileId && ins.lifecycle.Draft? && DraftOf(contract, db, rec, DraftRow(ins))
    ensures var (next, outcome) := InsertDraft(contract, db, ins);
            if Insertable(contract, db, rec, DraftRow(ins)) then outcome == Done && Sets(db, next, rec.profileId, DraftRow(ins))
            else outcome == Refused && next == db
  {
  }

  lemma {:induction false} InsertableOnce(contract: Contract, db: Db, rec: DraftRecord, r: Row)
    requires DraftOf(contract, db, rec, r) && r.revision >= 1
    ensures (exists r' :: Insertable(contract, db, rec, r')) <==> Insertable(contract, db, rec, r)
  {
    forall r' | Insertable(contract, db, rec, r') ensures r' == r { OneDraft(contract, db, rec, r, r'); }
  }

  lemma {:induction false} DraftInserted(contract: Contract, db: Db, rec: DraftRecord, ins: DraftRecord)
    requires rec.lifecycle.Draft? && rec.revision >= 0 && ins.revision >= 1
    requires ins.profileId == rec.profileId && ins.lifecycle.Draft? && DraftOf(contract, db, rec, DraftRow(ins))
    requires CreateDraft(contract, db, rec) == InsertDraft(contract, db, ins)
    ensures DoesItsWork(contract, db, OpCreate(rec))
  {
    InsertWorks(contract, db, rec, ins);
    InsertableOnce(contract, db, rec, DraftRow(ins));
  }

  lemma {:induction false} AllocationWorks(contract: Contract, db: Db, rec0: DraftRecord)
    requires rec0.lifecycle.Draft? && rec0.revision == 0
    ensures DoesItsWork(contract, db, OpCreate(rec0))
  {
    var rec := if rec0.report == "" then rec0.(report := "{}") else rec0;
    if contract.decode(rec.profileJson).Some? {
      var next := MaximumRevision(db, rec.hostId) + 1;
      var json := contract.encode(contract.decode(rec.profileJson).value.(profileRevision := next));
      DraftInserted(contract, db, rec0, rec.(revision := next, profileJson := json));
    }
  }

  lemma {:induction false} CreateWorks(contract: Contract, db: Db, op: Op)
    requires op.OpCreate?
    ensures DoesItsWork(contract, db, op)
  {
    var rec := op.rec;
    if rec.lifecycle.Draft? && rec.revision == 0 {
      AllocationWorks(contract, db, rec);
    } else if rec.lifecycle.Draft? && rec.revision > 0 {
      DraftInserted(contract, db, rec, if rec.report == "" then rec.(report := "{}") else rec);
    }
  }

  lemma {:induction false} UpdateWorks(contract: Contract, db: Db, op: Op)
    requires op.OpReadDraft? || op.OpWriteDraft? || op.OpCheck? || op.OpCommit?
    ensures DoesItsWork(contract, db, op)
  {
  }

  lemma {:induction false} ActivationSwitches(contract: Contract, db: Db, id: string, at: int)
    requires Enabled(contract, db, OpActivate(id, at))
    ensures Activate(contract, db, id, at).1 == Done && Switches(contract, db, Activate(contract, db, id, at).0, id, at)
  {
  }

  lemma {:induction false} ActivationWorks(contract: Contract, db: Db, op: Op)
    requires op.OpActivate?
    ensures DoesItsWork(contract, db, op)
  {
    if Enabled(contract, db, op) { ActivationSwitches(contract, db, op.id, op.at); }
  }

  lemma {:induction false} ServiceWorks(contract: Contract, db: Db, op: Op)
    requires op.OpDegrade? || op.OpRevoke? || op.OpTouch? || op.OpDelete?
    ensures DoesItsWork(contract, db, op)
  {
  }

  lemma {:induction false} HostWorks(contract: Contract, db: Db, op: Op)
    requires op.OpPreview? || op.OpApprove? || op.OpRevokeHost? || op.OpSetCredential? || op.OpSnapshot?
    ensures DoesItsWork(contract, db, op)
  {
  }

  /** Every operation, on any tables. */
  lemma {:induction false} StepDoesItsWork(contract: Contract, db: Db, op: Op)
    ensures DoesItsWork(contract, db, op)
  {
    match op
    case OpCreate(_) => CreateWorks(contract, db, op);
    case OpReadDraft(_, _, _) => UpdateWorks(contract, db, op);
    case OpWriteDraft(_, _, _, _) => UpdateWorks(contract, db, op);
    case OpCheck(_) => UpdateWorks(contract, db, op);
    case OpCommit(_, _, _) => UpdateWorks(contract, db, op);
    case OpActivate(_, _) => ActivationWorks(contract, db, op);
    case OpDegrade(_, _, _) => ServiceWorks(contract, db, op);
    case OpRevoke(_) => ServiceWorks(contract, db, op);
    case OpTouch(_, _) => ServiceWorks(contract, db, op);
    case OpDelete(_) => ServiceWorks(contract, db, op);
    case _ => HostWorks(contract, db, op);
  }

  // ---------------------------------------------------------------- reads and writes of one call, apart

  /** The state before the n-th operation of a run from empty tables. */
  ghost function At(contract: Contract, ops: seq<Op>, n: nat): Db
    requires n <= |ops|
  {
    Reached(contract, EMPTY, ops[..n])
  }

  lemma {:induction false} AtNext(contract: Contract, ops: seq<Op>, n: nat)
    requires n < |ops|
    ensures At(contract, ops, n + 1) == Step(contract, At(contract, ops, n), ops[n]).0
  {
    assert ops[..n + 1][..n] == ops[..n];
  }

  // ---------------------------------------------------------------- what a run says about a row

  ghost predicate SameHost(db: Db, i: string, j: string) {
    i in db.rows && j in db.rows && db.rows[i].hostId == db.rows[j].hostId
  }

  ghost predicate IsDone(contract: Contract, db: Db, op: Op) {
    Step(contract, db, op).1 == Done
  }

  /** The operation puts another profile of the host in service. */
  ghost predicate Displaces(contract: Contract, db: Db, op: Op, id: string) {
    IsDone(contract, db, op) && op.OpActivate? && op.id != id && SameHost(db, op.id, id)
  }

  ghost predicate PutsInService(contract: Contract, db: Db, op: Op, id: string) {
    IsDone(contract, db, op) && op.OpActivate? && op.id == id
  }

  ghost predicate TakesOut(contract: Contract, db: Db, op: Op, id: string) {
    (IsDone(contract, db, op) && (op.OpRevoke? || op.OpDegrade?) && op.id == id) || Displaces(contract, db, op, id)
  }

  ghost predicate Retires(contract: Contract, db: Db, op: Op, id: string) {
    (IsDone(contract, db, op) && op.OpRevoke? && op.id == id) || (Displaces(contract, db, op, id) && Is(db, id, {Active}))
  }

  ghost predicate Deletes(contract: Contract, db: Db, op: Op, id: string) {
    IsDone(contract, db, op) && op.OpDelete? && op.id == id
  }

  lemma {:induction false} ActivationMoves(contract: Contract, db: Db, op: Op, id: string)
    requires op.OpActivate? && Enabled(contract, db, op)
    ensures var next := Step(contract, db, op).0;
            && (Is(next, id, {Active}) <==> id == op.id || (Is(db, id, {Active}) && !SameHost(db, op.id, id)))
            && (Is(next, id, {Revoked}) <==> Is(db, id, {Revoked}) || (id != op.id && Is(db, id, {Active}) && SameHost(db, op.id, id)))
  {
    ActivationWorks(contract, db, op);
  }

  lemma {:induction false} ServiceMoves(contract: Contract, db: Db, op: Op, id: string)
    requires op.OpDegrade? || op.OpRevoke? || op.OpDelete?
    ensures var next, done := Step(contract, db, op).0, IsDone(contract, db, op);
            && (Is(next, id, {Active}) <==> Is(db, id, {Active}) && !(done && (op.OpRevoke? || op.OpDegrade?) && op.id == id))
            && (Is(next, id, {Revoked}) <==>
                  (done && op.OpRevoke? && op.id == id) || (Is(db, id, {Revoked}) && !(done && op.OpDelete? && op.id == id)))
  {
    ServiceWorks(contract, db, op);
  }

  lemma {:induction false} OtherMoves(contract: Contract, db: Db, op: Op, id: string)
    requires !op.OpActivate?
    ensures var next, done := Step(contract, db, op).0, IsDone(contract, db, op);
            && (Is(next, id, {Active}) <==> Is(db, id, {Active}) && !(done && (op.OpRevoke? || op.OpDegrade?) && op.id == id))
            && (Is(next, id, {Revoked}) <==>
                  (done && op.OpRevoke? && op.id == id) || (Is(db, id, {Revoked}) && !(done && op.OpDelete? && op.id == id)))
  {
    if op.OpDegrade? || op.OpRevoke? || op.OpDelete? { ServiceMoves(contract, db, op, id); }
    else if LeavesRows(op) { RowsAreLeft(contract, db, op); }
    else {
      StepDoesItsWork(contract, db, op);
    }
  }

  /** How one operation moves a profile in and out of service, and out for good. */
  lemma {:induction false} Moves(contract: Contract, db: Db, op: Op, id: string)
    ensures var next := Step(contract, db, op).0;
            && (Is(next, id, {Active}) <==>
                  PutsInService(contract, db, op, id) || (Is(db, id, {Active}) && !TakesOut(contract, db, op, id)))
            && (Is(next, id, {Revoked}) <==>
                  Retires(contract, db, op, id) || (Is(db, id, {Revoked}) && !Deletes(contract, db, op, id)))
  {
    if !op.OpActivate? { OtherMoves(contract, db, op, id); }
    else {
      StepDoesItsWork(contract, db, op);
      if Enabled(contract, db, op) { ActivationMoves(contract, db, op, id); }
    }
  }

  /** One event happened before the n-th moment and the other has not happened since. */
  ghost predicate Since(happens: nat -> bool, ends: nat -> bool, n: nat) {
    exists m: nat :: m < n && happens(m) && forall k: nat :: m < k < n ==> !ends(k)
  }

  lemma {:induction false} SinceNext(happens: nat -> bool, ends: nat -> bool, n: nat)
    ensures Since(happens, ends, n + 1) <==> happens(n) || (Since(happens, ends, n) && !ends(n))
  {
    if Since(happens, ends, n + 1) && !happens(n) {
      var m: nat :| m < n + 1 && happens(m) && forall k: nat :: m < k < n + 1 ==> !ends(k);
      assert m < n;
    }
    if Since(happens, ends, n) && !ends(n) {
      var m: nat :| m < n && happens(m) && forall k: nat :: m < k < n ==> !ends(k);
      assert forall k: nat :: m < k < n + 1 ==> !ends(k);
    }
  }

  /** The places of a run whose operation does something to a row. */
  ghost function When(contract: Contract, ops: seq<Op>, does: (Db, Op) -> bool): nat -> bool {
    (k: nat) => k < |ops| && does(At(contract, ops, k), ops[k])
  }

  ghost function PuttingInService(contract: Contract, id: string)
    : (Db, Op) -> bool { (db, op) => PutsInService(contract, db, op, id) }
  ghost function TakingOut(contract: Contract, id: string)
    : (Db, Op) -> bool { (db, op) => TakesOut(contract, db, op, id) }
  ghost function Retiring(contract: Contract, id: string)
    : (Db, Op) -> bool { (db, op) => Retires(contract, db, op, id) }
  ghost function Deleting(contract: Contract, id: string)
    : (Db, Op) -> bool { (db, op) => Deletes(contract, db, op, id) }

  /** Over every run from empty tables, whatever raced: a profile is active exactly when it was put in service and has not
      been taken out since. */
  lemma {:induction false} ActiveExactly(contract: Contract, ops: seq<Op>, n: nat, id: string)
    requires n <= |ops|
    ensures Is(At(contract, ops, n), id, {Active})
       <==> Since(When(contract, ops, PuttingInService(contract, id)), When(contract, ops, TakingOut(contract, id)), n)
  {
    if n == 0 {
      assert ops[..0] == [];
    } else {
      ActiveExactly(contract, ops, n - 1, id);
      AtNext(contract, ops, n - 1);
      Moves(contract, At(contract, ops, n - 1), ops[n - 1], id);
      SinceNext(When(contract, ops, PuttingInService(contract, id)), When(contract, ops, TakingOut(contract, id)),
                n - 1);
    }
  }

  /** And it is revoked exactly when it was revoked, or displaced while it served, and has not been deleted since. */
  lemma {:induction false} RevokedExactly(contract: Contract, ops: seq<Op>, n: nat, id: string)
    requires n <= |ops|
    ensures Is(At(contract, ops, n), id, {Revoked})
       <==> Since(When(contract, ops, Retiring(contract, id)), When(contract, ops, Deleting(contract, id)), n)
  {
    if n == 0 {
      assert ops[..0] == [];
    } else {
      RevokedExactly(contract, ops, n - 1, id);
      AtNext(contract, ops, n - 1);
      Moves(contract, At(contract, ops, n - 1), ops[n - 1], id);
      SinceNext(When(contract, ops, Retiring(contract, id)), When(contract, ops, Deleting(contract, id)), n - 1);
    }
  }

  /** What the tables and the documents say of a row, field by field. */
  ghost predicate InOrder(contract: Contract, db: Db, id: string)
    requires id in db.rows
  {
    var r := db.rows[id];
    && Storable(contract, id, r) && Belongs(contract, id, r) && r.hostId in db.hosts
    && (r.lifecycle in {Verified, Active, Degraded} ==>
          r.verifiedAt.Some? && contract.passes(contract.decode(r.profileJson).value))
    && (r.lifecycle == Active ==> r.activatedAt.Some?) && (r.lifecycle == Degraded ==> r.lastFailureCode != "")
    && forall j :: j in db.rows && j != id && db.rows[j].hostId == r.hostId ==>
         db.rows[j].revision != r.revision && !(db.rows[j].lifecycle == Active && r.lifecycle == Active)
  }

  lemma {:induction false} InvariantMeans(contract: Contract, db: Db)
    ensures Invariant(contract, db) <==> forall id :: id in db.rows ==> InOrder(contract, db, id)
  {
    if Invariant(contract, db) {
      forall id | id in db.rows ensures InOrder(contract, db, id) { }
    }
    if forall id :: id in db.rows ==> InOrder(contract, db, id) {
      RowsInOrder(contract, db);
    }
  }

  lemma {:induction false} RowsInOrder(contract: Contract, db: Db)
    requires forall id :: id in db.rows ==> InOrder(contract, db, id)
    ensures Invariant(contract, db)
  {
    assert forall id :: id in db.rows ==>
          RowChecks(contract, id, db.rows[id]) && DocumentSound(contract, id, db.rows[id]);
  }

  /** Where the invariant holds a verified profile goes into service exactly when its host is approved. */
  lemma {:induction false} ActivationNeedsApproval(contract: Contract, db: Db, id: string, at: int)
    requires Invariant(contract, db)
    ensures Step(contract, db, OpActivate(id, at)).1 == Done
        <==> Is(db, id, {Verified}) && HostIs(db, db.rows[id].hostId, {Approved})
  {
    StepDoesItsWork(contract, db, OpActivate(id, at));
    InvariantMeans(contract, db);
    if id in db.rows { assert InOrder(contract, db, id); }
  }

  /** A second half is issued only after its first half succeeded, somewhere earlier in the run. */
  ghost predicate IssuedAt(contract: Contract, ops: seq<Op>, n: nat)
    requires n < |ops|
  {
    match ops[n]
    case OpWriteDraft(id, json, report, from) =>
      && from < n && ops[from] == OpReadDraft(id, json, report)
      && CheckUpdate(contract, At(contract, ops, from), id, json, report) == Done
    case OpCommit(id, _, from) =>
      from < n && ops[from] == OpCheck(id) && CheckVerifiable(contract, At(contract, ops, from), id) == Done
    case _ => true
  }

  ghost predicate Issued(contract: Contract, ops: seq<Op>) {
    forall n: nat | n < |ops| :: IssuedAt(contract, ops, n)
  }

  /** The document an operation puts into a row, if it puts one there. */
  ghost function Puts(contract: Contract, db: Db, op: Op, id: string): Option<string> {
    if Step(contract, db, op).1 != Done then None
    else
      match op
      case OpCreate(rec) => if rec.profileId == id && id in Step(contract, db, op).0.rows
                            then Some(Step(contract, db, op).0.rows[id].profileJson) else None
      case OpWriteDraft(i, json, _, _) => if i == id then Some(json) else None
      case _ => None
  }

  /** The last document put into a row since a place of the run. */
  ghost function LastPut(contract: Contract, ops: seq<Op>, from: nat, n: nat, id: string): Option<string>
    requires n <= |ops|
  {
    if n <= from then None
    else
      var put := Puts(contract, At(contract, ops, n - 1), ops[n - 1], id);
      if put.Some? then put else LastPut(contract, ops, from, n - 1, id)
  }

  lemma {:induction false} StepDocument(contract: Contract, db: Db, op: Op, id: string)
    requires id in Step(contract, db, op).0.rows
    ensures var put, r := Puts(contract, db, op, id), Step(contract, db, op).0.rows[id];
            if put.Some? then r.profileJson == put.value else id in db.rows && r.profileJson == db.rows[id].profileJson
  {
    if id in db.rows { StepOnRow(contract, db, op, id); } else { StepAddsRow(contract, db, op, id); }
  }

  /** A row holds the last document put there, or still the one it had. */
  lemma {:induction false} LastPutIsStored(contract: Contract, ops: seq<Op>, from: nat, n: nat, id: string)
    requires from <= n <= |ops| && id in At(contract, ops, n).rows
    ensures var last, r := LastPut(contract, ops, from, n, id), At(contract, ops, n).rows[id];
            if last.Some? then r.profileJson == last.value
            else id in At(contract, ops, from).rows && r.profileJson == At(contract, ops, from).rows[id].profileJson
    decreases n
  {
    if from < n {
      AtNext(contract, ops, n - 1);
      StepDocument(contract, At(contract, ops, n - 1), ops[n - 1], id);
      if id in At(contract, ops, n - 1).rows { LastPutIsStored(contract, ops, from, n - 1, id); }
    }
  }

  /** The last row created under an ID since a place of the run. */
  ghost function LastCreated(contract: Contract, ops: seq<Op>, from: nat, n: nat, id: string): Option<Row>
    requires n <= |ops|
  {
    if n <= from then None
    else
      var op, db := ops[n - 1], At(contract, ops, n - 1);
      if op.OpCreate? && op.rec.profileId == id && Step(contract, db, op).1 == Done && id in Step(contract, db, op).0.rows
      then Some(Step(contract, db, op).0.rows[id])
      else LastCreated(contract, ops, from, n - 1, id)
  }

  lemma {:induction false} StepIdentity(contract: Contract, db: Db, op: Op, id: string)
    requires id in Step(contract, db, op).0.rows
    ensures id in db.rows ==> SameIdentity(Step(contract, db, op).0.rows[id], db.rows[id])
    ensures id !in db.rows ==> op.OpCreate? && op.rec.profileId == id && Step(contract, db, op).1 == Done
    ensures id in db.rows && op.OpCreate? && op.rec.profileId == id ==> Step(contract, db, op).1 != Done
  {
    if id in db.rows { StepOnRow(contract, db, op, id); } else { StepAddsRow(contract, db, op, id); }
    if op.OpCreate? { CreateAdds(contract, db, op.rec); }
  }

  lemma {:induction false} LastCreatedIsStored(contract: Contract, ops: seq<Op>, from: nat, n: nat, id: string)
    requires from <= n <= |ops| && id in At(contract, ops, n).rows
    ensures var last, r := LastCreated(contract, ops, from, n, id), At(contract, ops, n).rows[id];
            if last.Some? then SameIdentity(r, last.value)
            else id in At(contract, ops, from).rows && SameIdentity(r, At(contract, ops, from).rows[id])
    decreases n
  {
    if from < n {
      AtNext(contract, ops, n - 1);
      StepIdentity(contract, At(contract, ops, n - 1), ops[n - 1], id);
      if id in At(contract, ops, n - 1).rows { LastCreatedIsStored(contract, ops, from, n - 1, id); }
    }
  }

  /** A commit is safe when it comes too late to do anything, when no document was put into the row since the check, or
      when the last one put there passes. */
  ghost predicate CommitSafe(contract: Contract, ops: seq<Op>, n: nat, id: string, at: int, from: nat)
    requires n <= |ops|
  {
    var last := LastPut(contract, ops, from, n, id);
    || CommitVerified(At(contract, ops, n), id, at).1 != Done || last.None?
    || (contract.decode(last.value).Some? && contract.passes(contract.decode(last.value).value))
  }

  /** A draft is safely written when it comes too late, when the row was not created anew since it was read, or when the
      new row has the identity that the document names. */
  ghost predicate WriteSafe(contract: Contract, ops: seq<Op>, n: nat, id: string, json: string, report: string,
                            from: nat)
    requires n <= |ops|
  {
    var last, d := LastCreated(contract, ops, from, n, id), contract.decode(json);
    || WriteDraft(contract, At(contract, ops, n), id, json, report).1 != Done || last.None?
    || (d.Some? && last.value.hostId == d.value.hostId && last.value.revision == d.value.profileRevision
        && last.value.schemaVersion == d.value.schemaVersion && last.value.displayName == d.value.displayName)
  }

  ghost predicate SafeAt(contract: Contract, ops: seq<Op>, n: nat)
    requires n < |ops|
  {
    match ops[n]
    case OpWriteDraft(id, json, report, from) => WriteSafe(contract, ops, n, id, json, report, from)
    case OpCommit(id, at, from) => CommitSafe(contract, ops, n, id, at, from)
    case _ => true
  }

  lemma {:induction false} CommitSafeExact(contract: Contract, ops: seq<Op>, n: nat)
    requires n < |ops| && ops[n].OpCommit? && IssuedAt(contract, ops, n)
    ensures SafeAt(contract, ops, n) <==> Fits(contract, At(contract, ops, n), ops[n])
  {
    var id, from := ops[n].id, ops[n].from;
    if id in At(contract, ops, n).rows { LastPutIsStored(contract, ops, from, n, id); }
  }

  lemma {:induction false} WriteSafeExact(contract: Contract, ops: seq<Op>, n: nat)
    requires n < |ops| && ops[n].OpWriteDraft? && IssuedAt(contract, ops, n)
    ensures SafeAt(contract, ops, n) <==> Fits(contract, At(contract, ops, n), ops[n])
  {
    var id, from := ops[n].id, ops[n].from;
    if id in At(contract, ops, n).rows { LastCreatedIsStored(contract, ops, from, n, id); }
  }

  lemma {:induction false} StepInRun(contract: Contract, ops: seq<Op>, n: nat)
    requires n < |ops| && IssuedAt(contract, ops, n) && Invariant(contract, At(contract, ops, n))
    ensures Invariant(contract, At(contract, ops, n + 1)) <==> SafeAt(contract, ops, n)
  {
    AtNext(contract, ops, n);
    StepKeepsInvariant(contract, At(contract, ops, n), ops[n]);
    if ops[n].OpCommit? { CommitSafeExact(contract, ops, n); }
    if ops[n].OpWriteDraft? { WriteSafeExact(contract, ops, n); }
  }

  ghost predicate SafeUpTo(contract: Contract, ops: seq<Op>, n: nat)
    requires n <= |ops|
  {
    forall k: nat | k < n :: SafeAt(contract, ops, k)
  }

  ghost predicate SoundUpTo(contract: Contract, ops: seq<Op>, n: nat)
    requires n <= |ops|
  {
    forall k: nat | k <= n :: Invariant(contract, At(contract, ops, k))
  }

  /** Over every interleaving of reads and writes: the invariant holds throughout a run exactly when every commit and
      every draft write in it is safe. */
  lemma {:induction false} RunKeepsInvariantExactly(contract: Contract, ops: seq<Op>, n: nat)
    requires Issued(contract, ops) && n <= |ops|
    ensures SoundUpTo(contract, ops, n) <==> SafeUpTo(contract, ops, n)
  {
    if n == 0 {
      assert ops[..0] == [];
      assert At(contract, ops, 0) == EMPTY;
    } else {
      RunKeepsInvariantExactly(contract, ops, n - 1);
      assert IssuedAt(contract, ops, n - 1);
      assert SoundUpTo(contract, ops, n)
          <==> SoundUpTo(contract, ops, n - 1) && Invariant(contract, At(contract, ops, n));
      assert SafeUpTo(contract, ops, n) <==> SafeUpTo(contract, ops, n - 1) && SafeAt(contract, ops, n - 1);
      if SoundUpTo(contract, ops, n - 1) {
        assert Invariant(contract, At(contract, ops, n - 1));
        StepInRun(contract, ops, n - 1);
      }
    }
  }

  /** Nothing writes or deletes the row between two places of the run. */
  predicate Undisturbed(ops: seq<Op>, from: nat, n: nat, id: string)
    requires n <= |ops|
  {
    forall k :: from < k < n ==> !(ops[k].OpWriteDraft? && ops[k].id == id) && !(ops[k].OpDelete? && ops[k].id == id)
  }

  /** Every second half has the row to itself since its first half. */
  predicate AllUndisturbed(ops: seq<Op>) {
    forall n :: 0 <= n < |ops| ==>
      && (ops[n].OpCommit? ==> Undisturbed(ops, ops[n].from, n, ops[n].id))
      && (ops[n].OpWriteDraft? ==> Undisturbed(ops, ops[n].from, n, ops[n].id))
  }

  lemma {:induction false} NothingPut(contract: Contract, ops: seq<Op>, from: nat, n: nat, id: string)
    requires from < n <= |ops| && id in At(contract, ops, from + 1).rows && Undisturbed(ops, from, n, id)
    requires !ops[from].OpWriteDraft? && !ops[from].OpCreate?
    ensures id in At(contract, ops, n).rows
    ensures LastPut(contract, ops, from, n, id).None? && LastCreated(contract, ops, from, n, id).None?
    decreases n
  {
    if n > from + 1 {
      NothingPut(contract, ops, from, n - 1, id);
      AtNext(contract, ops, n - 1);
      var db, op := At(contract, ops, n - 1), ops[n - 1];
      if id !in Step(contract, db, op).0.rows { StepRemovesRow(contract, db, op, id); }
      StepIdentity(contract, db, op, id);
    }
  }

  /** When no other call writes or deletes a row between the two halves of one, the invariant holds throughout. */
  lemma {:induction false} EveryUndisturbedRunKeepsInvariant(contract: Contract, ops: seq<Op>)
    requires Issued(contract, ops) && AllUndisturbed(ops)
    ensures SoundUpTo(contract, ops, |ops|)
  {
    forall n: nat | n < |ops|
      ensures SafeAt(contract, ops, n)
    {
      assert IssuedAt(contract, ops, n);
      if ops[n].OpCommit? || ops[n].OpWriteDraft? {
        AtNext(contract, ops, ops[n].from);
        NothingPut(contract, ops, ops[n].from, n, ops[n].id);
      }
    }
    RunKeepsInvariantExactly(contract, ops, |ops|);
  }

  // ---------------------------------------------------------------- example runs

  /** Documents "good" and "bad" of revision 1 and "later" of revision 2; all but "bad" pass. */
  function ExampleDocument(json: string): Option<Document> {
    if json in {"good", "bad", "later"}
    then Some(Document(1, "p", if json == "later" then 2 else 1, "h", "openapi", "n", "d", "c", json))
    else None
  }

  function ExampleContract(): Contract {
    Contract(ExampleDocument, (d: Document) => d.body, (d: Document) => d.body != "bad",
             (c: string) => true, (j: string) => true, (g: string) => true)
  }

  function ExampleDraft(revision: int, json: string): DraftRecord {
    DraftRecord("p", "h", revision, 1, "n", Draft, json, "{}", "d")
  }

  /** The row of a draft as created in the example runs. */
  function ExampleRow(revision: int, json: string): Row {
    DraftRow(ExampleDraft(revision, json))
  }

  function ExampleDb(rows: map<string, Row>): Db {
    Db(rows, map["h" := Host(Preview, "")], {})
  }

  function ExampleRows(revision: int, json: string): Db {
    ExampleDb(map["p" := ExampleRow(revision, json)])
  }

  lemma {:induction false} ExampleCreate(revision: int, json: string)
    requires (revision == 1 && json in {"good", "bad"}) || (revision == 2 && json == "later")
    ensures CreateDraft(ExampleContract(), ExampleDb(map[]), ExampleDraft(revision, json))
        == (ExampleRows(revision, json), Done)
  {
    assert ValidDraft(ExampleContract(), ExampleDraft(revision, json));
    assert map[]["p" := ExampleRow(revision, json)] == map["p" := ExampleRow(revision, json)];
  }

  lemma {:induction false} ExampleCheck()
    ensures CheckVerifiable(ExampleContract(), ExampleRows(1, "good"), "p") == Done
  {
  }

  lemma {:induction false} ExampleRead(json: string)
    requires json in {"good", "bad"}
    ensures CheckUpdate(ExampleContract(), ExampleRows(1, "good"), "p", json, "{}") == Done
  {
  }

  lemma {:induction false} ExampleWrite(revision: int, before: string, json: string)
    requires revision >= 1 && json in {"good", "bad"}
    ensures WriteDraft(ExampleContract(), ExampleRows(revision, before), "p", json, "{}")
        == (ExampleRows(revision, json), Done)
  {
    assert Redrafted(ExampleContract(), ExampleRow(revision, before), json, "{}") == ExampleRow(revision, json);
    assert map["p" := ExampleRow(revision, before)]["p" := ExampleRow(revision, json)]
        == map["p" := ExampleRow(revision, json)];
  }

  lemma {:induction false} ExampleDelete(json: string)
    ensures Delete(ExampleRows(1, json), "p") == (ExampleDb(map[]), Done)
  {
    assert map["p" := ExampleRow(1, json)] - {"p"} == map[];
  }

  lemma {:induction false} AtCreate(contract: Contract, ops: seq<Op>, n: nat, rec: DraftRecord, db: Db, created: Db)
    requires n < |ops| && ops[n] == OpCreate(rec) && At(contract, ops, n) == db &&
             CreateDraft(contract, db, rec) == (created, Done)
    ensures At(contract, ops, n + 1) == created
  {
    AtNext(contract, ops, n);
  }

  lemma {:induction false} AtWrite(contract: Contract, ops: seq<Op>, n: nat, json: string, from: nat, db: Db,
                                   written: Db)
    requires n < |ops| && ops[n] == OpWriteDraft("p", json, "{}", from) && At(contract, ops, n) == db
    requires WriteDraft(contract, db, "p", json, "{}") == (written, Done)
    ensures At(contract, ops, n + 1) == written
  {
    AtNext(contract, ops, n);
  }

  lemma {:induction false} AtRead(contract: Contract, ops: seq<Op>, n: nat, db: Db)
    requires n < |ops| && (ops[n].OpCheck? || ops[n].OpReadDraft?) && At(contract, ops, n) == db
    ensures At(contract, ops, n + 1) == db
  {
    AtNext(contract, ops, n);
  }

  lemma {:induction false} AtDelete(contract: Contract, ops: seq<Op>, n: nat, db: Db, rest: Db)
    requires n < |ops| && ops[n] == OpDelete("p") && At(contract, ops, n) == db && Delete(db, "p") == (rest, Done)
    ensures At(contract, ops, n + 1) == rest
  {
    AtNext(contract, ops, n);
  }

  lemma {:induction false} AtCommit(contract: Contract, ops: seq<Op>, n: nat, from: nat, db: Db)
    requires n < |ops| && ops[n] == OpCommit("p", 0, from) && At(contract, ops, n) == db
    ensures At(contract, ops, n + 1) == CommitVerified(db, "p", 0).0
  {
    AtNext(contract, ops, n);
  }

  lemma {:induction false} ExampleStart(contract: Contract, ops: seq<Op>, rec: DraftRecord, created: Db)
    requires |ops| >= 2 && ops[0] == OpPreview("h") && ops[1] == OpCreate(rec)
    requires CreateDraft(contract, ExampleDb(map[]), rec) == (created, Done)
    ensures At(contract, ops, 2) == created
  {
    assert ops[..0] == [];
    assert At(contract, ops, 0) == EMPTY;
    AtNext(contract, ops, 0);
    assert At(contract, ops, 1) == ExampleDb(map[]);
    AtCreate(contract, ops, 1, rec, ExampleDb(map[]), created);
  }

  function EditRun(): (ops: seq<Op>) {
    [OpPreview("h"), OpCreate(ExampleDraft(1, "good")), OpCheck("p"), OpReadDraft("p", "bad", "{}"),
     OpWriteDraft("p", "bad", "{}", 3), OpCommit("p", 0, 2)]
  }

  /** Only second halves have to be issued. */
  lemma {:induction false} IssuedWhen(contract: Contract, ops: seq<Op>)
    requires forall n: nat | n < |ops| && (ops[n].OpWriteDraft? || ops[n].OpCommit?) :: IssuedAt(contract, ops, n)
    ensures Issued(contract, ops)
  {
  }

  lemma {:induction false} StatesOfEdit(contract: Contract, created: Db, edited: Db)
    requires At(contract, EditRun(), 2) == created && WriteDraft(contract, created, "p", "bad", "{}") == (edited, Done)
    ensures At(contract, EditRun(), 3) == created && At(contract, EditRun(), 6) == CommitVerified(edited, "p", 0).0
  {
    var ops := EditRun();
    AtRead(contract, ops, 2, created);
    AtRead(contract, ops, 3, created);
    AtWrite(contract, ops, 4, "bad", 3, created, edited);
    AtCommit(contract, ops, 5, 2, edited);
  }

  lemma {:induction false} EditIsIssued(contract: Contract, created: Db)
    requires At(contract, EditRun(), 2) == created && At(contract, EditRun(), 3) == created
    requires CheckVerifiable(contract, created, "p") == Done && CheckUpdate(contract, created, "p", "bad", "{}") == Done
    ensures Issued(contract, EditRun())
  {
    var ops := EditRun();
    assert IssuedAt(contract, ops, 4) && IssuedAt(contract, ops, 5);
    IssuedWhen(contract, ops);
  }

  function BadlyVerified(): Row {
    ExampleRow(1, "bad").(lifecycle := Verified, verifiedAt := Some(0), lastFailureCode := "")
  }

  lemma {:induction false} BadCommit()
    ensures CommitVerified(ExampleRows(1, "bad"), "p", 0).0 == ExampleDb(map["p" := BadlyVerified()])
    ensures !Invariant(ExampleContract(), ExampleDb(map["p" := BadlyVerified()]))
  {
    assert map["p" := ExampleRow(1, "bad")]["p" := BadlyVerified()] == map["p" := BadlyVerified()];
    assert !DocumentSound(ExampleContract(), "p", BadlyVerified());
    assert ExampleDb(map["p" := BadlyVerified()]).rows["p"] == BadlyVerified();
  }

  /** A draft that passes is edited to one that does not, after its check and before its commit: it is verified all the
      same. */
  lemma {:induction false} EditBetweenCheckAndCommit()
    ensures Issued(ExampleContract(), EditRun())
    ensures At(ExampleContract(), EditRun(), 6) == ExampleDb(map["p" := BadlyVerified()])
    ensures !Invariant(ExampleContract(), At(ExampleContract(), EditRun(), 6))
  {
    ExampleCreate(1, "good");
    ExampleCheck();
    ExampleRead("bad");
    ExampleWrite(1, "good", "bad");
    ExampleStart(ExampleContract(), EditRun(), ExampleDraft(1, "good"), ExampleRows(1, "good"));
    StatesOfEdit(ExampleContract(), ExampleRows(1, "good"), ExampleRows(1, "bad"));
    EditIsIssued(ExampleContract(), ExampleRows(1, "good"));
    BadCommit();
  }

  function RecreationRun(): (ops: seq<Op>) {
    [OpPreview("h"), OpCreate(ExampleDraft(1, "good")), OpReadDraft("p", "good", "{}"), OpDelete("p"),
     OpCreate(ExampleDraft(2, "later")), OpWriteDraft("p", "good", "{}", 2)]
  }

  lemma {:induction false} StatesOfRecreation(contract: Contract, created: Db, deleted: Db, recreated: Db, written: Db)
    requires At(contract, RecreationRun(), 2) == created && Delete(created, "p") == (deleted, Done)
    requires CreateDraft(contract, deleted, ExampleDraft(2, "later")) == (recreated, Done)
    requires WriteDraft(contract, recreated, "p", "good", "{}") == (written, Done)
    ensures At(contract, RecreationRun(), 6) == written
  {
    var ops := RecreationRun();
    AtRead(contract, ops, 2, created);
    AtDelete(contract, ops, 3, created, deleted);
    AtCreate(contract, ops, 4, ExampleDraft(2, "later"), deleted, recreated);
    AtWrite(contract, ops, 5, "good", 2, recreated, written);
  }

  lemma {:induction false} RecreationIsIssued(contract: Contract, created: Db)
    requires At(contract, RecreationRun(), 2) == created && CheckUpdate(contract, created, "p", "good", "{}") == Done
    ensures Issued(contract, RecreationRun())
  {
    assert IssuedAt(contract, RecreationRun(), 5);
    IssuedWhen(contract, RecreationRun());
  }

  lemma {:induction false} MixedRevision()
    ensures !Invariant(ExampleContract(), ExampleRows(2, "good"))
  {
    assert !DocumentSound(ExampleContract(), "p", ExampleRow(2, "good"));
    assert ExampleRows(2, "good").rows["p"] == ExampleRow(2, "good");
  }

  lemma {:induction false} RecreationStart()
    ensures At(ExampleContract(), RecreationRun(), 2) == ExampleRows(1, "good")
  {
    ExampleCreate(1, "good");
    ExampleStart(ExampleContract(), RecreationRun(), ExampleDraft(1, "good"), ExampleRows(1, "good"));
  }

  lemma {:induction false} RecreationEnd()
    requires At(ExampleContract(), RecreationRun(), 2) == ExampleRows(1, "good")
    ensures At(ExampleContract(), RecreationRun(), 6) == ExampleRows(2, "good")
  {
    ExampleDelete("good");
    ExampleCreate(2, "later");
    ExampleWrite(2, "later", "good");
    StatesOfRecreation(ExampleContract(), ExampleRows(1, "good"), ExampleDb(map[]), ExampleRows(2, "later"),
                       ExampleRows(2, "good"));
  }

  /** A draft is deleted and created anew as the next revision after an update read it and before that update writes: the
      new row gets the old revision's document. */
  lemma {:induction false} RecreatedBetweenReadAndWrite()
    ensures Issued(ExampleContract(), RecreationRun())
    ensures At(ExampleContract(), RecreationRun(), 6) == ExampleRows(2, "good")
    ensures !Invariant(ExampleContract(), At(ExampleContract(), RecreationRun(), 6))
  {
    RecreationStart();
    RecreationEnd();
    ExampleRead("good");
    RecreationIsIssued(ExampleContract(), ExampleRows(1, "good"));
    MixedRevision();
  }

  lemma {:induction false} ExampleCreateNext(json: string)
    requires json in {"good", "bad"}
    ensures CreateDraft(ExampleContract(), ExampleDb(map[]), ExampleDraft(0, json)) == (ExampleRows(1, json), Done)
  {
    ExampleCreate(1, json);
    assert MaximumRevision(ExampleDb(map[]), "h") == 0;
    assert ExampleDocument(json).value.(profileRevision := 1).body == json;
  }

  function ReuseRun(): (ops: seq<Op>) {
    [OpPreview("h"), OpCreate(ExampleDraft(0, "good")), OpDelete("p"), OpCreate(ExampleDraft(0, "bad"))]
  }

  /** The next revision is allocated twice, for two documents. */
  lemma {:induction false} ReusedRevision()
    ensures At(ExampleContract(), ReuseRun(), 2) == ExampleRows(1, "good")
    ensures At(ExampleContract(), ReuseRun(), 4) == ExampleRows(1, "bad")
  {
    var contract, ops := ExampleContract(), ReuseRun();
    ExampleCreateNext("good");
    ExampleDelete("good");
    ExampleCreateNext("bad");
    ExampleStart(contract, ops, ExampleDraft(0, "good"), ExampleRows(1, "good"));
    AtDelete(contract, ops, 2, ExampleRows(1, "good"), ExampleDb(map[]));
    AtCreate(contract, ops, 3, ExampleDraft(0, "bad"), ExampleDb(map[]), ExampleRows(1, "bad"));
  }

  function VerifiedRow(): Row {
    ExampleRow(1, "good").(lifecycle := Verified, verifiedAt := Some(0))
  }

  function ActiveRow(): Row {
    VerifiedRow().(lifecycle := Active, activatedAt := Some(0))
  }

  function ServiceDb(r: Row, lifecycle: HostLifecycle, credential: string): Db {
    Db(map["p" := r], map["h" := Host(lifecycle, credential)], {})
  }

  lemma {:induction false} ExampleCommit()
    ensures CommitVerified(ExampleRows(1, "good"), "p", 0) == (ServiceDb(VerifiedRow(), Preview, ""), Done)
  {
    assert map["p" := ExampleRow(1, "good")]["p" := VerifiedRow()] == map["p" := VerifiedRow()];
  }

  lemma {:induction false} ExampleApprove()
    ensures ApproveHost(ServiceDb(VerifiedRow(), Preview, ""), "h") == (ServiceDb(VerifiedRow(), Approved, ""), Done)
  {
    assert map["h" := Host(Preview, "")]["h" := Host(Approved, "")] == map["h" := Host(Approved, "")];
  }

  lemma {:induction false} ExampleActivate()
    ensures Activate(ExampleContract(), ServiceDb(VerifiedRow(), Approved, ""), "p", 0)
        == (ServiceDb(ActiveRow(), Approved, "c"), Done)
  {
    var rows := map["p" := VerifiedRow()];
    assert RevokeActive(rows, "h")["p" := ActiveRow()] == map["p" := ActiveRow()];
    assert map["h" := Host(Approved, "")]["h" := Host(Approved, "c")] == map["h" := Host(Approved, "c")];
  }

  lemma {:induction false} ExampleSetCredential()
    ensures SetCredential(ExampleContract(), ServiceDb(ActiveRow(), Approved, "c"), "h", "other")
         == (ServiceDb(ActiveRow(), Approved, "other"), Done)
  {
    assert map["h" := Host(Approved, "c")]["h" := Host(Approved, "other")] == map["h" := Host(Approved, "other")];
  }

  function CredentialRun(): (ops: seq<Op>) {
    [OpPreview("h"), OpCreate(ExampleDraft(1, "good")), OpCheck("p"), OpCommit("p", 0, 2), OpApprove("h"), OpActivate("p", 0),
     OpSetCredential("h", "other")]
  }

  lemma {:induction false} AtApprove(contract: Contract, ops: seq<Op>, n: nat, db: Db, next: Db)
    requires n < |ops| && ops[n] == OpApprove("h") && At(contract, ops, n) == db && ApproveHost(db, "h") == (next, Done)
    ensures At(contract, ops, n + 1) == next
  {
    AtNext(contract, ops, n);
  }

  lemma {:induction false} AtActivate(contract: Contract, ops: seq<Op>, n: nat, db: Db, next: Db)
    requires n < |ops| && ops[n] == OpActivate("p", 0) && At(contract, ops, n) == db &&
             Activate(contract, db, "p", 0) == (next, Done)
    ensures At(contract, ops, n + 1) == next
  {
    AtNext(contract, ops, n);
  }

  lemma {:induction false} AtSetCredential(contract: Contract, ops: seq<Op>, n: nat, db: Db, next: Db)
    requires n < |ops| && ops[n] == OpSetCredential("h", "other") && At(contract, ops, n) == db
    requires SetCredential(contract, db, "h", "other") == (next, Done)
    ensures At(contract, ops, n + 1) == next
  {
    AtNext(contract, ops, n);
  }

  lemma {:induction false} VerifiedThenApproved(contract: Contract, created: Db, verified: Db, approved: Db)
    requires At(contract, CredentialRun(), 2) == created
    requires CommitVerified(created, "p", 0) == (verified, Done) && ApproveHost(verified, "h") == (approved, Done)
    ensures At(contract, CredentialRun(), 5) == approved
  {
    AtRead(contract, CredentialRun(), 2, created);
    AtCommit(contract, CredentialRun(), 3, 2, created);
    AtApprove(contract, CredentialRun(), 4, verified, approved);
  }

  lemma {:induction false} ActiveThenReplaced(contract: Contract, approved: Db, active: Db, replaced: Db)
    requires At(contract, CredentialRun(), 5) == approved && Activate(contract, approved, "p", 0) == (active, Done)
    requires SetCredential(contract, active, "h", "other") == (replaced, Done)
    ensures At(contract, CredentialRun(), 6) == active && At(contract, CredentialRun(), 7) == replaced
  {
    AtActivate(contract, CredentialRun(), 5, approved, active);
    AtSetCredential(contract, CredentialRun(), 6, active, replaced);
  }

  lemma {:induction false} SyncOf(credential: string)
    ensures CredentialsInSync(ExampleContract(), ServiceDb(ActiveRow(), Approved, credential)) <==> credential == "c"
  {
    var db := ServiceDb(ActiveRow(), Approved, credential);
    assert db.rows["p"] == ActiveRow() && ExampleContract().decode("good").value.credentialReference == "c";
    assert db.hosts["h"].credentialReference == credential;
  }

  lemma {:induction false} CredentialStart()
    ensures At(ExampleContract(), CredentialRun(), 2) == ExampleRows(1, "good")
  {
    ExampleCreate(1, "good");
    ExampleStart(ExampleContract(), CredentialRun(), ExampleDraft(1, "good"), ExampleRows(1, "good"));
  }

  lemma {:induction false} CredentialStates()
    ensures At(ExampleContract(), CredentialRun(), 6) == ServiceDb(ActiveRow(), Approved, "c")
    ensures At(ExampleContract(), CredentialRun(), 7) == ServiceDb(ActiveRow(), Approved, "other")
  {
    CredentialStart();
    ExampleCommit();
    ExampleApprove();
    ExampleActivate();
    ExampleSetCredential();
    VerifiedThenApproved(ExampleContract(), ExampleRows(1, "good"), ServiceDb(VerifiedRow(), Preview, ""),
                         ServiceDb(VerifiedRow(), Approved, ""));
    ActiveThenReplaced(ExampleContract(), ServiceDb(VerifiedRow(), Approved, ""), ServiceDb(ActiveRow(), Approved, "c"),
                       ServiceDb(ActiveRow(), Approved, "other"));
  }

  /** A profile in service, and its host given another credential. */
  lemma {:induction false} DirectCredentialBreaksSync()
    ensures CredentialsInSync(ExampleContract(), At(ExampleContract(), CredentialRun(), 6))
    ensures !CredentialsInSync(ExampleContract(), At(ExampleContract(), CredentialRun(), 7))
  {
    CredentialStates();
    SyncOf("c");
    SyncOf("other");
    assert |"other"| != |"c"|;
  }

  // ---------------------------------------------------------------- the tables

  class Tables {
    const contract: Contract
    var rows: map<string, Row>
    var hosts: map<string, Host>
    var referenced: set<string>

    constructor (contract: Contract)
      ensures this.contract == contract && State() == EMPTY
    {
      this.contract := contract;
      rows, hosts, referenced := map[], map[], {};
    }

    function State(): Db
      reads this
    {
      Db(rows, hosts, referenced)
    }

    /** SELECT COALESCE(MAX(profile_revision), 0). */
    method GreatestRevision(hostId: string) returns (m: int)
      ensures m == MaximumRevision(State(), hostId)
    {
      m := 0;
      var rest := rows.Keys;
      while rest != {}
        invariant rest <= rows.Keys && m >= 0
        invariant forall id :: id in rows && id !in rest && rows[id].hostId == hostId ==> rows[id].revision <= m
        invariant m > 0 ==> exists id :: id in rows && rows[id].hostId == hostId && rows[id].revision == m
        decreases rest
      {
        var id :| id in rest;
        if rows[id].hostId == hostId && rows[id].revision > m { m := rows[id].revision; }
        rest := rest - {id};
      }
      MaximumRevisionUnique(State(), hostId, m);
    }

    method Insert(rec: DraftRecord) returns (outcome: Outcome)
      modifies this`rows
      ensures (State(), outcome) == InsertDraft(contract, old(State()), rec)
    {
      if !ValidDraft(contract, rec) { return Refused; }
      if rec.profileId in rows || RevisionTaken(State(), rec.hostId, rec.revision) || rec.hostId !in hosts
         || !RowChecks(contract, rec.profileId, DraftRow(rec))
      {
        return Refused;
      }
      rows := rows[rec.profileId := DraftRow(rec)];
      return Done;
    }

    method Create(rec0: DraftRecord) returns (outcome: Outcome)
      modifies this`rows
      ensures (State(), outcome) == CreateDraft(contract, old(State()), rec0)
    {
      if !rec0.lifecycle.Draft? || rec0.revision < 0 { return Refused; }
      var rec := rec0;
      if rec.report == "" { rec := rec.(report := "{}"); }
      if rec.revision > 0 {
        outcome := Insert(rec);
        return;
      }
      outcome := Allocate(rec);
    }

    /** A draft without a revision gets the next one of its host. */
    method Allocate(rec: DraftRecord) returns (outcome: Outcome)
      modifies this`rows
      ensures (State(), outcome) == AllocateDraft(contract, old(State()), rec)
    {
      var maximum := GreatestRevision(rec.hostId);
      var decoded := contract.decode(rec.profileJson);
      if decoded.None? { return Refused; }
      var document := decoded.value.(profileRevision := maximum + 1);
      outcome := Insert(rec.(revision := maximum + 1, profileJson := contract.encode(document)));
    }

    /** The first statement of an update. */
    method ReadDraft(id: string, json: string, report: string) returns (outcome: Outcome)
      ensures outcome == CheckUpdate(contract, State(), id, json, report)
    {
      if id !in rows { return NotFound; }
      var existing := rows[id];
      if existing.lifecycle != Draft && existing.lifecycle != Invalid { return Conflict; }
      var decoded := contract.decode(json);
      if decoded.None? { return Refused; }
      var checkRecord := existing.(specDigest := decoded.value.specDigest);
      if !MatchesRow(contract, id, checkRecord, decoded.value) || !contract.validJson(report) { return Refused; }
      return Done;
    }

    /** The second statement of an update. */
    method WriteDraftRow(id: string, json: string, report: string) returns (outcome: Outcome)
      modifies this`rows
      ensures (State(), outcome) == WriteDraft(contract, old(State()), id, json, report)
    {
      if id !in rows || (rows[id].lifecycle != Draft && rows[id].lifecycle != Invalid) { return Conflict; }
      var updated := Redrafted(contract, rows[id], json, report);
      if !RowChecks(contract, id, updated) { return Refused; }
      rows := rows[id := updated];
      return Done;
    }

    /** The first statement of a verification. */
    method ReadForVerification(id: string) returns (outcome: Outcome)
      ensures outcome == CheckVerifiable(contract, State(), id)
    {
      if id !in rows { return NotFound; }
      var record := rows[id];
      if record.lifecycle != Draft && record.lifecycle != Invalid { return Conflict; }
      var decoded := contract.decode(record.profileJson);
      if decoded.None? || !MatchesRow(contract, id, record, decoded.value) || !contract.passes(decoded.value) {
        return Refused;
      }
      return Done;
    }

    /** The second statement of a verification. */
    method WriteVerified(id: string, at: int) returns (outcome: Outcome)
      modifies this`rows
      ensures (State(), outcome) == CommitVerified(old(State()), id, at)
    {
      if id !in rows || (rows[id].lifecycle != Draft && rows[id].lifecycle != Invalid) { return Conflict; }
      rows := rows[id := rows[id].(lifecycle := Verified, verifiedAt := Some(at), lastFailureCode := "")];
      return Done;
    }

    /** Demotes the previous revision, hands over the credential, promotes the new one. */
    method MakeActive(id: string, at: int) returns (outcome: Outcome)
      modifies this`rows, this`hosts
      ensures (State(), outcome) == Activate(contract, old(State()), id, at)
    {
      if id !in rows { return NotFound; }
      var record := rows[id];
      if record.lifecycle != Verified { return Conflict; }
      var decoded := contract.decode(record.profileJson);
      if decoded.None? || !contract.validCredential(decoded.value.credentialReference) { return Refused; }
      if record.hostId !in hosts { return Refused; }
      if hosts[record.hostId].lifecycle != Approved { return Conflict; }
      rows := RevokeActive(rows, record.hostId);
      hosts := hosts[record.hostId := hosts[record.hostId].(credentialReference := decoded.value.credentialReference)];
      rows := rows[id := rows[id].(lifecycle := Active, activatedAt := Some(at))];
      return Done;
    }

    method Degrade(id: string, code: string, at: int) returns (outcome: Outcome)
      modifies this`rows
      ensures (State(), outcome) == MarkDegraded(old(State()), id, code, at)
    {
      if code == "" { return Refused; }
      if id !in rows || rows[id].lifecycle != Active { return Conflict; }
      rows := rows[id := rows[id].(lifecycle := Degraded, lastFailureAt := Some(at), lastFailureCode := code)];
      return Done;
    }

    method Retire(id: string) returns (outcome: Outcome)
      modifies this`rows
      ensures (State(), outcome) == Revoke(old(State()), id)
    {
      if id !in rows || rows[id].lifecycle == Revoked { return Conflict; }
      rows := rows[id := rows[id].(lifecycle := Revoked)];
      return Done;
    }

    /** Records a successful use. */
    method Touch(id: string, at: int) returns (outcome: Outcome)
      modifies this`rows
      ensures (State(), outcome) == TouchSuccess(old(State()), id, at)
    {
      if id !in rows || (rows[id].lifecycle != Active && rows[id].lifecycle != Degraded) { return NotFound; }
      rows := rows[id := rows[id].(lastSuccessAt := Some(at))];
      return Done;
    }

    method Remove(id: string) returns (outcome: Outcome)
      modifies this`rows
      ensures (State(), outcome) == Delete(old(State()), id)
    {
      if id !in rows || InService(rows[id].lifecycle) { return NotFound; }
      if id in referenced { return Referenced; }
      rows := rows - {id};
      return Done;
    }
  }
}
