/** The two tables of the mail application, one function per SQL statement the code
    issues, and the connection the code issues them on. */
module Database {
  import opened Prelude
  import opened Text
  import opened Parse

  type Id = string

  /** A projects row; `deletedAt` is set by a soft delete. */
  datatype Project = Project(
    id: Id, userId: Id, title: text, description: text, status: string,
    emailAddress: text, updatedAt: int, deletedAt: Option<int>)

  /** An emails row; before its INSERT a row has no id and no receivedAt. */
  datatype Email = Email(
    id: Id, projectId: Id, envelopeFrom: text, envelopeTo: text,
    parsed: ParsedEmail, rawMessage: text, receivedAt: int)

  datatype Db = Db(projects: map<Id, Project>, emails: seq<Email>)

  datatype DbError = UniqueViolation | OtherError

  const EMPTY_DB: Db := Db(map[], [])

  // ---------- what the schema guarantees ----------

  /** The unique index covers soft-deleted rows too. */
  ghost predicate AddressesUnique(projects: map<Id, Project>) {
    forall a, b :: a in projects && b in projects && projects[a].emailAddress == projects[b].emailAddress ==> a == b
  }

  ghost predicate Keyed(projects: map<Id, Project>) {
    forall id :: id in projects ==> projects[id].id == id
  }

  /** A TIMESTAMPTZ literal: there is no year 0, so what comes before year 1 is refused as out
      of range. The upper end lies beyond the four-digit years of a Date header. */
  predicate StorableDate(date: Option<int>) {
    date.Some? ==> date.value >= 0
  }

  predicate StorableRow(e: Email) {
    && Storable(e.envelopeFrom) && Storable(e.envelopeTo)
    && StorableEmail(e.parsed) && StorableDate(e.parsed.sentAt)
  }

  predicate DistinctIds(rows: seq<Email>) {
    forall i, j :: 0 <= i < j < |rows| ==> rows[i].id != rows[j].id
  }

  ghost predicate SchemaHolds(db: Db) {
    && Keyed(db.projects)
    && AddressesUnique(db.projects)
    && DistinctIds(db.emails)
    && (forall id :: id in db.projects ==> Storable(db.projects[id].emailAddress))
    && (forall e :: e in db.emails ==> e.projectId in db.projects && StorableRow(e))
  }

  // ---------- the statements ----------

  predicate Active(db: Db, id: Id) {
    id in db.projects && db.projects[id].deletedAt.None?
  }

  predicate ActiveAt(db: Db, address: text, id: Id) {
    Active(db, id) && db.projects[id].emailAddress == address
  }

  /** SELECT id FROM projects WHERE email_address = ? AND deleted_at IS NULL LIMIT 1 */
  ghost function OwnerOf(db: Db, address: text): (r: Option<Id>)
    ensures r.Some? ==> ActiveAt(db, address, r.value)
    ensures r.None? ==> forall id :: !ActiveAt(db, address, id)
  {
    if exists id :: ActiveAt(db, address, id) then
      var id :| ActiveAt(db, address, id);
      Some(id)
    else None
  }

  /** SELECT * FROM projects WHERE id = ? AND user_id = ? AND deleted_at IS NULL */
  function SelectOwned(db: Db, id: Id, user: Id): Option<Project> {
    if Active(db, id) && db.projects[id].userId == user then Some(db.projects[id]) else None
  }

  predicate Taken(db: Db, address: text) {
    exists id :: id in db.projects && db.projects[id].emailAddress == address
  }

  /** INSERT INTO projects: text that is not valid is refused before any index is looked at. */
  function InsertProject(db: Db, p: Project): Result<Db, DbError> {
    if !Storable(p.title) || !Storable(p.description) || !Storable(p.emailAddress) then Err(OtherError)
    else if p.id in db.projects || Taken(db, p.emailAddress) then Err(UniqueViolation)
    else Ok(db.(projects := db.projects[p.id := p]))
  }

  /** UPDATE projects SET title, description, status, updated_at
      WHERE id = ? AND user_id = ? AND deleted_at IS NULL */
  function UpdateProject(db: Db, row: Project, user: Id): Result<Db, DbError> {
    if !Storable(row.title) || !Storable(row.description) then Err(OtherError)
    else if SelectOwned(db, row.id, user).None? then Ok(db)
    else
      var written := db.projects[row.id].(title := row.title, description := row.description,
                                          status := row.status, updatedAt := row.updatedAt);
      Ok(db.(projects := db.projects[row.id := written]))
  }

  /** UPDATE projects SET deleted_at = ? WHERE id = ? AND user_id = ? AND deleted_at IS NULL */
  function SoftDelete(db: Db, id: Id, user: Id, now: int): Db {
    if SelectOwned(db, id, user).None? then db
    else db.(projects := db.projects[id := db.projects[id].(deletedAt := Some(now))])
  }

  /** Row hooks and column defaults: a fresh id and the time of the statement. */
  function Numbered(rows: seq<Email>, ids: seq<Id>, now: int): (r: seq<Email>)
    requires |rows| <= |ids|
    ensures |r| == |rows|
    ensures forall i :: 0 <= i < |r| ==> r[i] == rows[i].(id := ids[i], receivedAt := now)
  {
    seq(|rows|, i requires 0 <= i < |rows| => rows[i].(id := ids[i], receivedAt := now))
  }

  /** Primary key, foreign key, text encoding and date range of the emails table. */
  predicate Insertable(db: Db, rows: seq<Email>) {
    && DistinctIds(db.emails + rows)
    && (forall e :: e in rows ==> e.projectId in db.projects && StorableRow(e))
  }

  /** INSERT INTO emails, all rows or none; `ids` shorter than the rows is a generator
      that failed. */
  function InsertEmails(db: Db, rows: seq<Email>, ids: seq<Id>, now: int): Result<Db, DbError> {
    if |ids| < |rows| then Err(OtherError)
    else if !Insertable(db, Numbered(rows, ids, now)) then Err(OtherError)
    else Ok(db.(emails := db.emails + Numbered(rows, ids, now)))
  }

  const PAGE_SIZE: nat := 100

  function Mailbox(emails: seq<Email>, project: Id): (r: seq<Email>)
    ensures forall e :: e in r <==> e in emails && e.projectId == project
  {
    if emails == [] then []
    else
      var rest := Mailbox(emails[..|emails| - 1], project);
      var last := emails[|emails| - 1];
      if last.projectId == project then rest + [last] else rest
  }

  /** A possible answer to SELECT * FROM emails WHERE project_id = ?
      ORDER BY received_at DESC LIMIT 100 (ties come in any order). */
  ghost predicate IsPage(db: Db, project: Id, page: seq<Email>) {
    var box := Mailbox(db.emails, project);
    && |page| == (if |box| < PAGE_SIZE then |box| else PAGE_SIZE)
    && DistinctIds(page)
    && (forall e :: e in page ==> e in box)
    && (forall i, j :: 0 <= i < j < |page| ==> page[i].receivedAt >= page[j].receivedAt)
    && (forall e, f :: e in box && e !in page && f in page ==> f.receivedAt >= e.receivedAt)
  }

  // ---------- every statement keeps the schema and only moves forward ----------

  /** Who and where a project is never changes, and a deleted row never changes at all. */
  predicate RowEvolves(p: Project, q: Project) {
    && q.id == p.id && q.userId == p.userId && q.emailAddress == p.emailAddress
    && (p.deletedAt.Some? ==> q == p)
  }

  /** What any number of statements can do to the database. */
  ghost predicate Evolves(a: Db, b: Db) {
    && (forall id :: id in a.projects ==> id in b.projects && RowEvolves(a.projects[id], b.projects[id]))
    && a.emails <= b.emails
  }

  lemma EvolvesReflexive(db: Db)
    ensures Evolves(db, db)
  {
  }

  lemma EvolvesTransitive(a: Db, b: Db, c: Db)
    requires Evolves(a, b) && Evolves(b, c)
    ensures Evolves(a, c)
  {
  }

  lemma InsertProjectSafe(db: Db, p: Project)
    requires SchemaHolds(db) && InsertProject(db, p).Ok?
    ensures SchemaHolds(InsertProject(db, p).value) && Evolves(db, InsertProject(db, p).value)
  {
  }

  /** Rewriting rows without touching id, owner, address or deleted rows is always safe. */
  lemma RowsRewritten(a: Db, b: Db)
    requires SchemaHolds(a) && b.emails == a.emails && b.projects.Keys == a.projects.Keys
    requires forall id :: id in a.projects ==> RowEvolves(a.projects[id], b.projects[id])
    ensures SchemaHolds(b) && Evolves(a, b)
  {
    hide Storable, StorableRow, DistinctIds;
  }

  lemma UpdateProjectSafe(db: Db, row: Project, user: Id)
    requires SchemaHolds(db) && UpdateProject(db, row, user).Ok?
    ensures SchemaHolds(UpdateProject(db, row, user).value) && Evolves(db, UpdateProject(db, row, user).value)
  {
    hide SchemaHolds, Storable;
    RowsRewritten(db, UpdateProject(db, row, user).value);
  }

  /** A statement that meets an active row of the user writes these four columns of that row
      and nothing else; one that meets none writes nothing. */
  lemma UpdateWrites(db: Db, row: Project, user: Id)
    requires UpdateProject(db, row, user).Ok?
    ensures var after := UpdateProject(db, row, user).value;
            && after.emails == db.emails && after.projects.Keys == db.projects.Keys
            && (forall id :: id in db.projects && id != row.id ==> after.projects[id] == db.projects[id])
            && (row.id in db.projects ==>
                  var before, written := db.projects[row.id], after.projects[row.id];
                  if before.userId == user && before.deletedAt.None? then
                    written == Project(before.id, before.userId, row.title, row.description, row.status,
                                       before.emailAddress, row.updatedAt, None)
                  else written == before)
  {
  }

  lemma SoftDeleteSafe(db: Db, id: Id, user: Id, now: int)
    requires SchemaHolds(db)
    ensures SchemaHolds(SoftDelete(db, id, user, now)) && Evolves(db, SoftDelete(db, id, user, now))
  {
    hide SchemaHolds;
    RowsRewritten(db, SoftDelete(db, id, user, now));
  }

  lemma InsertEmailsSafe(db: Db, rows: seq<Email>, ids: seq<Id>, now: int)
    requires SchemaHolds(db) && InsertEmails(db, rows, ids, now).Ok?
    ensures SchemaHolds(InsertEmails(db, rows, ids, now).value)
    ensures Evolves(db, InsertEmails(db, rows, ids, now).value)
  {
  }

  /** A unique address has one owner, so the lookup has one answer. */
  lemma OwnerIsUnique(db: Db, address: text, id: Id)
    requires SchemaHolds(db)
    ensures OwnerOf(db, address) == Some(id) <==> ActiveAt(db, address, id)
  {
  }

  // ---------- the connection ----------

  /** `fault` marks a statement that fails for an outside reason; it has no effect. */
  class Connection {
    var db: Db

    ghost predicate Valid()
      reads this
    {
      SchemaHolds(db)
    }

    constructor ()
      ensures Valid() && db == EMPTY_DB
    {
      db := EMPTY_DB;
    }

    /** Between two statements of one request any others may run. Callers know no more than
        this contract, which every statement of the application keeps. */
    method OthersRun()
      requires Valid()
      modifies this
      ensures Valid() && Evolves(old(db), db)
    {
    }

    method SelectIdByAddress(address: text, fault: bool) returns (r: Result<Option<Id>, DbError>)
      requires Valid()
      ensures r == if fault then Err(OtherError) else Ok(OwnerOf(db, address))
    {
      if fault {
        return Err(OtherError);
      }
      var found := set id | id in db.projects && ActiveAt(db, address, id);
      if found == {} {
        assert forall id :: ActiveAt(db, address, id) ==> id in found;
        r := Ok(None);
      } else {
        var id :| id in found;
        OwnerIsUnique(db, address, id);
        r := Ok(Some(id));
      }
    }

    method SelectProject(id: Id, user: Id, fault: bool) returns (r: Result<Option<Project>, DbError>)
      ensures r == if fault then Err(OtherError) else Ok(SelectOwned(db, id, user))
    {
      r := if fault then Err(OtherError) else Ok(SelectOwned(db, id, user));
    }

    method Insert(p: Project, fault: bool) returns (r: Option<DbError>)
      requires Valid()
      modifies this
      ensures Valid() && Evolves(old(db), db)
      ensures var done := if fault then Err(OtherError) else InsertProject(old(db), p);
              && db == (if done.Ok? then done.value else old(db))
              && r == (if done.Ok? then None else Some(done.error))
    {
      if fault {
        return Some(OtherError);
      }
      var done := InsertProject(db, p);
      if done.Err? {
        return Some(done.error);
      }
      InsertProjectSafe(db, p);
      db := done.value;
      r := None;
    }

    method Update(row: Project, user: Id, fault: bool) returns (r: Option<DbError>)
      requires Valid()
      modifies this
      ensures Valid() && Evolves(old(db), db)
      ensures var done := if fault then Err(OtherError) else UpdateProject(old(db), row, user);
              && db == (if done.Ok? then done.value else old(db))
              && r == (if done.Ok? then None else Some(done.error))
    {
      if fault {
        return Some(OtherError);
      }
      var done := UpdateProject(db, row, user);
      if done.Err? {
        return Some(done.error);
      }
      UpdateProjectSafe(db, row, user);
      db := done.value;
      r := None;
    }

    method Delete(id: Id, user: Id, now: int, fault: bool) returns (r: Option<DbError>)
      requires Valid()
      modifies this
      ensures Valid() && Evolves(old(db), db)
      ensures db == if fault then old(db) else SoftDelete(old(db), id, user, now)
      ensures r == if fault then Some(OtherError) else None
    {
      if fault {
        return Some(OtherError);
      }
      SoftDeleteSafe(db, id, user, now);
      db := SoftDelete(db, id, user, now);
      r := None;
    }

    method InsertRows(rows: seq<Email>, ids: seq<Id>, now: int, fault: bool) returns (r: Option<DbError>)
      requires Valid()
      modifies this
      ensures Valid() && Evolves(old(db), db)
      ensures var done := if fault then Err(OtherError) else InsertEmails(old(db), rows, ids, now);
              && db == (if done.Ok? then done.value else old(db))
              && r == (if done.Ok? then None else Some(done.error))
    {
      if fault {
        return Some(OtherError);
      }
      var done := InsertEmails(db, rows, ids, now);
      if done.Err? {
        return Some(done.error);
      }
      InsertEmailsSafe(db, rows, ids, now);
      db := done.value;
      r := None;
    }

    /** The database's own sorting: take the newest remaining row until the page is full. */
    method SelectPage(project: Id, fault: bool) returns (r: Result<seq<Email>, DbError>)
      requires Valid()
      ensures if fault then r == Err(OtherError) else r.Ok? && IsPage(db, project, r.value)
    {
      if fault {
        return Err(OtherError);
      }
      var box := Mailbox(db.emails, project);
      MailboxDistinct(db.emails, project);
      var page: seq<Email> := [];
      var rest := box;
      assert page + rest == box;
      while rest != [] && |page| < PAGE_SIZE
        invariant PageSoFar(box, page, rest)
        decreases |rest|
      {
        var k := Newest(rest);
        MoveOne(box, page, rest, k);
        page, rest := page + [rest[k]], rest[..k] + rest[k + 1..];
      }
      assert DistinctIds(page) by {
        assert forall i :: 0 <= i < |page| ==> page[i] == (page + rest)[i];
      }
      r := Ok(page);
    }
  }

  /** The page is sorted, nothing left is newer, and together they are the mailbox. */
  ghost predicate PageSoFar(box: seq<Email>, page: seq<Email>, rest: seq<Email>) {
    && |page| + |rest| == |box| && |page| <= PAGE_SIZE
    && (forall e :: e in box <==> e in page || e in rest)
    && DistinctIds(page + rest)
    && (forall i, j :: 0 <= i < j < |page| ==> page[i].receivedAt >= page[j].receivedAt)
    && (forall e, f :: e in rest && f in page ==> f.receivedAt >= e.receivedAt)
  }

  method Newest(rows: seq<Email>) returns (k: nat)
    requires rows != []
    ensures k < |rows| && forall e :: e in rows ==> rows[k].receivedAt >= e.receivedAt
  {
    k := 0;
    for i := 1 to |rows|
      invariant k < |rows| && forall j :: 0 <= j < i ==> rows[k].receivedAt >= rows[j].receivedAt
    {
      if rows[i].receivedAt > rows[k].receivedAt {
        k := i;
      }
    }
  }

  lemma MoveOne(box: seq<Email>, page: seq<Email>, rest: seq<Email>, k: nat)
    requires PageSoFar(box, page, rest) && |page| < PAGE_SIZE
    requires k < |rest| && forall e :: e in rest ==> rest[k].receivedAt >= e.receivedAt
    ensures PageSoFar(box, page + [rest[k]], rest[..k] + rest[k + 1..])
  {
    var fewer := rest[..k] + rest[k + 1..];
    StillDistinct(page, rest, k);
    forall e ensures e in rest <==> e == rest[k] || e in fewer {
      WithoutOne(rest, k, e);
    }
    assert page + [rest[k]] + fewer == page + ([rest[k]] + fewer);
  }

  lemma WithoutOne(rest: seq<Email>, k: nat, e: Email)
    requires k < |rest|
    ensures e in rest <==> e == rest[k] || e in rest[..k] + rest[k + 1..]
  {
    assert rest == rest[..k] + [rest[k]] + rest[k + 1..];
  }

  lemma StillDistinct(page: seq<Email>, rest: seq<Email>, k: nat)
    requires k < |rest| && DistinctIds(page + rest)
    ensures DistinctIds(page + [rest[k]] + (rest[..k] + rest[k + 1..]))
  {
    var n := |page|;
    var before, after := page + rest, page + [rest[k]] + (rest[..k] + rest[k + 1..]);
    forall i, j | 0 <= i < j < |after| ensures after[i].id != after[j].id {
      var i' := if i < n then i else if i == n then n + k else if i - n - 1 < k then i - 1 else i;
      var j' := if j < n then j else if j == n then n + k else if j - n - 1 < k then j - 1 else j;
      assert after[i] == before[i'] && after[j] == before[j'] && i' != j';
    }
  }

  lemma {:induction false} MailboxDistinct(emails: seq<Email>, project: Id)
    requires DistinctIds(emails)
    ensures DistinctIds(Mailbox(emails, project))
  {
    if emails != [] {
      var init := emails[..|emails| - 1];
      MailboxDistinct(init, project);
      var last := emails[|emails| - 1];
      forall e | e in Mailbox(init, project) ensures e.id != last.id {
        var i :| 0 <= i < |init| && init[i] == e;
        assert emails[i] == e;
      }
    }
  }
}
