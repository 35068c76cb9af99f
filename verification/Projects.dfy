/** The project and email handlers (server/handlers/project_handlers.go/). Between two SQL
    statements of one request any other statements may run. */
module Projects {
  import opened Prelude
  import opened Text
  import opened Database
  import Address

  /** A create or update request. */
  datatype Form = Form(name: text, description: text, status: string)

  const STATUSES: set<string> := {"pending", "in_progress", "completed", "archived"}
  const ATTEMPTS: nat := 5

  datatype HttpReply =
    | Failed(code: nat)
    | Created(created: Project)
    | Updated(updated: Project)
    | Found(found: Project)
    | Emails(rows: seq<Email>)
    | NoContent

  // ---------- specification of one attempt, one edit, one answer ----------

  /** One pass of the create loop. */
  datatype Attempt = TakenTryAgain | Finished(reply: HttpReply)

  function NewProject(id: Id, user: Id, form: Form, domain: text, random: text, now: int): Project {
    Project(id, user, form.name, form.description, form.status, Address.AddressFor(random, domain), now, None)
  }

  /** What the random source, the clock, the id generator and the network do to an attempt. */
  datatype Chance = Chance(random: Option<text>, id: Id, now: int, fault: bool)

  predicate WellSized(c: Chance) {
    c.random.Some? ==> |c.random.value| == Address.LOCAL_PART_LENGTH
  }

  function Inserted(db: Db, user: Id, form: Form, domain: text, c: Chance): Result<Db, DbError>
    requires c.random.Some?
  {
    if c.fault then Err(OtherError)
    else InsertProject(db, NewProject(c.id, user, form, domain, c.random.value, c.now))
  }

  function TryCreate(db: Db, user: Id, form: Form, domain: text, c: Chance): Attempt {
    if c.random.None? then Finished(Failed(500))
    else
      match Inserted(db, user, form, domain, c)
      case Ok(_) => Finished(Created(NewProject(c.id, user, form, domain, c.random.value, c.now)))
      case Err(UniqueViolation) => TakenTryAgain
      case Err(OtherError) => Finished(Failed(500))
  }

  function AfterTry(db: Db, user: Id, form: Form, domain: text, c: Chance): Db {
    if c.random.Some? && Inserted(db, user, form, domain, c).Ok?
    then Inserted(db, user, form, domain, c).value
    else db
  }

  predicate ValidUpdate(form: Form) {
    form.status in STATUSES && Address.TrimSpace(form.name) != [] && Address.TrimSpace(form.description) != []
  }

  /** The row an update request writes: the row it read, with the form's three fields. */
  function Edited(row: Project, form: Form, now: int): Project {
    row.(title := form.name, description := form.description, status := form.status, updatedAt := now)
  }

  /** The emails resource leaves out the raw message. */
  function Listed(page: seq<Email>): (r: seq<Email>)
    ensures |r| == |page| && forall i :: 0 <= i < |r| ==> r[i] == page[i].(rawMessage := [])
  {
    seq(|page|, i requires 0 <= i < |page| => page[i].(rawMessage := []))
  }

  // ---------- the code ----------

  class ProjectHandler {
    const conn: Connection
    const inboundDomain: text

    constructor (conn: Connection, inboundDomain: text)
      ensures this.conn == conn && this.inboundDomain == inboundDomain
    {
      this.conn := conn;
      this.inboundDomain := inboundDomain;
    }

    /** The body of the create loop: generate an address, insert, look at the error. */
    method TryOnce(user: Id, form: Form, c: Chance) returns (attempt: Attempt)
      requires conn.Valid() && WellSized(c)
      modifies conn
      ensures conn.Valid() && Evolves(old(conn.db), conn.db)
      ensures attempt == TryCreate(old(conn.db), user, form, inboundDomain, c)
      ensures conn.db == AfterTry(old(conn.db), user, form, inboundDomain, c)
    {
      var address := Address.GenerateAddress(inboundDomain, c.random);
      if address.None? {
        return Finished(Failed(500));
      }
      var project := Project(c.id, user, form.name, form.description, form.status, address.value, c.now, None);
      var failed := conn.Insert(project, c.fault);
      if failed == Some(UniqueViolation) {
        return TakenTryAgain;
      }
      if failed.Some? {
        return Finished(Failed(500));
      }
      attempt := Finished(Created(project));
    }

    /** `seen` records the database each attempt ran on. */
    method Create(user: Id, form: Form, chances: seq<Chance>) returns (reply: HttpReply, ghost seen: seq<Db>)
      requires conn.Valid()
      requires |chances| == ATTEMPTS && forall k :: 0 <= k < ATTEMPTS ==> WellSized(chances[k])
      modifies conn
      ensures conn.Valid()
      ensures form.status !in STATUSES ==> reply == Failed(400) && seen == [] && conn.db == old(conn.db)
      ensures form.status in STATUSES ==>
                CreateRun(old(conn.db), seen, conn.db, user, form, inboundDomain, chances, reply)
    {
      hide TryCreate, AfterTry, Evolves, SchemaHolds, Retried, CreateRun;
      seen := [];
      if form.status !in STATUSES {
        return Failed(400), seen;
      }
      reply := Failed(500);
      ghost var start := conn.db;
      NotYetTried(start, user, form, inboundDomain, chances);
      for attempt := 0 to ATTEMPTS
        invariant conn.Valid()
        invariant |seen| == attempt
        invariant conn.db == if attempt == 0 then start else seen[attempt - 1]
        invariant Retried(start, seen, user, form, inboundDomain, chances)
        invariant reply == Failed(500)
        invariant attempt == ATTEMPTS ==>
                    CreateRun(start, seen, conn.db, user, form, inboundDomain, chances, reply)
      {
        if attempt > 0 {
          conn.OthersRun();
        }
        ghost var met, before := conn.db, seen;
        var result := TryOnce(user, form, chances[attempt]);
        seen := before + [met];
        AttemptMade(start, before, met, user, form, inboundDomain, chances,
                    if result.Finished? then result.reply else reply);
        if result.Finished? {
          return result.reply, seen;
        }
      }
    }

    /** `mid` is the database the write met. */
    method Update(id: Id, user: Id, form: Form, now: int, selectFault: bool, writeFault: bool)
      returns (reply: HttpReply, ghost mid: Db)
      requires conn.Valid()
      modifies conn
      ensures conn.Valid() && Evolves(old(conn.db), mid) && Evolves(mid, conn.db)
      ensures !ValidUpdate(form) ==> reply == Failed(400) && conn.db == old(conn.db)
      ensures ValidUpdate(form) && selectFault ==> reply == Failed(500) && conn.db == old(conn.db)
      ensures ValidUpdate(form) && !selectFault ==>
                match SelectOwned(old(conn.db), id, user)
                case None => reply == Failed(404) && conn.db == old(conn.db)
                case Some(row) =>
                  var done := if writeFault then Err(OtherError) else UpdateProject(mid, Edited(row, form, now), user);
                  && conn.db == (if done.Ok? then done.value else mid)
                  && reply == (if done.Ok? then Updated(Edited(row, form, now)) else Failed(500))
    {
      mid := conn.db;
      if form.status !in STATUSES {
        return Failed(400), mid;
      }
      if Address.TrimSpace(form.name) == [] || Address.TrimSpace(form.description) == [] {
        return Failed(400), mid;
      }
      var read := conn.SelectProject(id, user, selectFault);
      if read.Err? {
        return Failed(500), mid;
      }
      if read.value.None? {
        return Failed(404), mid;
      }
      conn.OthersRun();
      mid := conn.db;
      var project := read.value.value;
      project := project.(title := form.name);
      project := project.(description := form.description);
      project := project.(status := form.status);
      project := project.(updatedAt := now);
      var failed := conn.Update(project, user, writeFault);
      if failed.Some? {
        return Failed(500), mid;
      }
      reply := Updated(project);
    }

    method Delete(id: Id, user: Id, now: int, selectFault: bool, writeFault: bool)
      returns (reply: HttpReply, ghost mid: Db)
      requires conn.Valid()
      modifies conn
      ensures conn.Valid() && Evolves(old(conn.db), mid) && Evolves(mid, conn.db)
      ensures selectFault ==> reply == Failed(500) && conn.db == old(conn.db)
      ensures !selectFault && SelectOwned(old(conn.db), id, user).None? ==>
                reply == Failed(404) && conn.db == old(conn.db)
      ensures !selectFault && SelectOwned(old(conn.db), id, user).Some? ==>
                && conn.db == (if writeFault then mid else SoftDelete(mid, id, user, now))
                && reply == (if writeFault then Failed(500) else NoContent)
    {
      mid := conn.db;
      var read := conn.SelectProject(id, user, selectFault);
      if read.Err? {
        return Failed(500), mid;
      }
      if read.value.None? {
        return Failed(404), mid;
      }
      conn.OthersRun();
      mid := conn.db;
      var failed := conn.Delete(read.value.value.id, user, now, writeFault);
      reply := if failed.Some? then Failed(500) else NoContent;
    }

    method Get(id: Id, user: Id, fault: bool) returns (reply: HttpReply)
      ensures reply == if fault then Failed(500)
                       else match SelectOwned(conn.db, id, user)
                            case None => Failed(404)
                            case Some(row) => Found(row)
    {
      var read := conn.SelectProject(id, user, fault);
      if read.Err? {
        return Failed(500);
      }
      if read.value.None? {
        return Failed(404);
      }
      reply := Found(read.value.value);
    }

    /** The emails resource of one project. */
    method ListEmails(id: Id, user: Id, selectFault: bool, listFault: bool)
      returns (reply: HttpReply, ghost mid: Db)
      requires conn.Valid()
      modifies conn
      ensures conn.Valid() && Evolves(old(conn.db), mid)
      ensures selectFault ==> reply == Failed(500)
      ensures !selectFault ==>
                match SelectOwned(old(conn.db), id, user)
                case None => reply == Failed(404)
                case Some(row) =>
                  if listFault then reply == Failed(500)
                  else exists page :: IsPage(mid, id, page) && reply == Emails(Listed(page))
    {
      mid := conn.db;
      var read := conn.SelectProject(id, user, selectFault);
      if read.Err? {
        return Failed(500), mid;
      }
      if read.value.None? {
        return Failed(404), mid;
      }
      conn.OthersRun();
      mid := conn.db;
      var page := conn.SelectPage(read.value.value.id, listFault);
      if page.Err? {
        return Failed(500), mid;
      }
      reply := Emails(Listed(page.value));
    }
  }

  // ---------- the create loop under interference ----------

  /** Anything may have run since the attempt before, nothing before the first. */
  ghost predicate Meets(start: Db, seen: seq<Db>, k: nat)
    requires k < |seen|
  {
    if k == 0 then seen[0] == start else Evolves(seen[k - 1], seen[k])
  }

  /** Attempts that were all told the address is taken. */
  ghost predicate Retried(start: Db, seen: seq<Db>, user: Id, form: Form, domain: text, chances: seq<Chance>)
    requires |seen| <= |chances|
  {
    seen == [] ||
    var last := |seen| - 1;
    && Retried(start, seen[..last], user, form, domain, chances)
    && Meets(start, seen, last)
    && TryCreate(seen[last], user, form, domain, chances[last]).TakenTryAgain?
  }

  /** A whole run of the loop: attempts on the databases `seen`, stopping at the first that
      is not told the address is taken, at most ATTEMPTS of them. */
  ghost predicate CreateRun(start: Db, seen: seq<Db>, end: Db, user: Id, form: Form, domain: text,
                            chances: seq<Chance>, reply: HttpReply)
  {
    && |chances| == ATTEMPTS
    && 0 < |seen| <= ATTEMPTS
    && var last := |seen| - 1;
    && Retried(start, seen[..last], user, form, domain, chances)
    && Meets(start, seen, last)
    && end == AfterTry(seen[last], user, form, domain, chances[last])
    && match TryCreate(seen[last], user, form, domain, chances[last])
       case TakenTryAgain => |seen| == ATTEMPTS && reply == Failed(500)
       case Finished(r) => reply == r
  }

  lemma NotYetTried(start: Db, user: Id, form: Form, domain: text, chances: seq<Chance>)
    ensures Retried(start, [], user, form, domain, chances)
  {
  }

  /** One more attempt either ends the run or is one more retry; a retry changed nothing. */
  lemma AttemptMade(start: Db, seen: seq<Db>, met: Db, user: Id, form: Form, domain: text,
                    chances: seq<Chance>, reply: HttpReply)
    requires |chances| == ATTEMPTS && |seen| < ATTEMPTS
    requires Retried(start, seen, user, form, domain, chances)
    requires if seen == [] then met == start else Evolves(seen[|seen| - 1], met)
    ensures var c, now := chances[|seen|], seen + [met];
            var attempt, end := TryCreate(met, user, form, domain, c), AfterTry(met, user, form, domain, c);
            && (attempt.TakenTryAgain? ==> end == met && Retried(start, now, user, form, domain, chances))
            && ((attempt.TakenTryAgain? && |now| == ATTEMPTS && reply == Failed(500))
                || attempt == Finished(reply)
                ==> CreateRun(start, now, end, user, form, domain, chances, reply))
  {
    hide InsertProject, Evolves;
    assert (seen + [met])[..|seen|] == seen;
  }

  lemma {:induction false} RetriedEach(start: Db, seen: seq<Db>, user: Id, form: Form, domain: text,
                                       chances: seq<Chance>, k: nat)
    requires |seen| <= |chances| && Retried(start, seen, user, form, domain, chances) && k < |seen|
    ensures TryCreate(seen[k], user, form, domain, chances[k]).TakenTryAgain?
    decreases |seen|
  {
    if k < |seen| - 1 {
      RetriedEach(start, seen[..|seen| - 1], user, form, domain, chances, k);
    }
  }

  /** Nothing but a taken address stands in the way of an attempt. */
  predicate Unhindered(db: Db, form: Form, domain: text, c: Chance) {
    && c.random.Some? && !c.fault && c.id !in db.projects
    && Storable(form.name) && Storable(form.description)
    && Storable(Address.AddressFor(c.random.value, domain))
  }

  predicate Free(db: Db, domain: text, c: Chance) {
    c.random.Some? && !Taken(db, Address.AddressFor(c.random.value, domain))
  }

  /** Absent other errors, a create run succeeds exactly when one of its attempts met a
      free address, uses the first such, and otherwise leaves the table as it found it;
      five taken addresses are the only way to fail. */
  lemma CreateSucceedsIffFree(start: Db, seen: seq<Db>, end: Db, user: Id, form: Form, domain: text,
                              chances: seq<Chance>, reply: HttpReply)
    requires CreateRun(start, seen, end, user, form, domain, chances, reply)
    requires forall k :: 0 <= k < |seen| ==> Unhindered(seen[k], form, domain, chances[k])
    ensures reply.Created? <==> exists k :: 0 <= k < |seen| && Free(seen[k], domain, chances[k])
    ensures reply.Created? ==>
              var last := |seen| - 1;
              && Free(seen[last], domain, chances[last])
              && (forall k :: 0 <= k < last ==> !Free(seen[k], domain, chances[k]))
              && reply.created.emailAddress == Address.AddressFor(chances[last].random.value, domain)
              && reply.created.userId == user
              && end == seen[last].(projects := seen[last].projects[reply.created.id := reply.created])
    ensures !reply.Created? ==> reply == Failed(500) && |seen| == ATTEMPTS && end == seen[|seen| - 1]
  {
    hide Storable, Taken, InsertProject, Address.AddressFor;
    var last := |seen| - 1;
    forall k | 0 <= k < last ensures !Free(seen[k], domain, chances[k]) {
      RetriedEach(start, seen[..last], user, form, domain, chances, k);
      AttemptIffFree(seen[k], user, form, domain, chances[k]);
    }
    AttemptIffFree(seen[last], user, form, domain, chances[last]);
  }

  lemma AttemptIffFree(db: Db, user: Id, form: Form, domain: text, c: Chance)
    requires Unhindered(db, form, domain, c)
    ensures TryCreate(db, user, form, domain, c)
            == if Free(db, domain, c)
               then Finished(Created(NewProject(c.id, user, form, domain, c.random.value, c.now)))
               else TakenTryAgain
    ensures AfterTry(db, user, form, domain, c)
            == if Free(db, domain, c)
               then db.(projects := db.projects[c.id := NewProject(c.id, user, form, domain, c.random.value, c.now)])
               else db
  {
  }

  /** With or without errors a run adds one row when it answers Created and none otherwise. */
  lemma CreateAddsOneRowOrNone(start: Db, seen: seq<Db>, end: Db, user: Id, form: Form, domain: text,
                               chances: seq<Chance>, reply: HttpReply)
    requires CreateRun(start, seen, end, user, form, domain, chances, reply)
    ensures var met := seen[|seen| - 1].projects;
            if reply.Created? then
              reply.created.id !in met && end.projects == met[reply.created.id := reply.created]
            else end.projects == met
  {
  }
}
