/** The whole mail application as one machine: any number of SMTP sessions and HTTP
    requests, interleaved at every SQL statement and every SMTP callback. */
module MailSystem {
  import opened Prelude
  import opened Text
  import opened Database
  import opened InboundStore
  import opened MailServer
  import opened Projects
  import Address

  /** A request between two of its SQL statements, with the row it has already read. */
  datatype Handler =
    | Creating(user: Id, form: Form, attempt: nat)
    | Updating(user: Id, row: Project, form: Form)
    | Deleting(user: Id, row: Project)
    | Listing(user: Id, row: Project)

  datatype System = System(db: Db, sessions: map<Id, Envelope>, handlers: map<Id, Handler>)

  /** Everything that can happen next. Sessions and requests are named by the environment;
      `fault` is a statement that fails from outside. */
  datatype Action =
    | Connect(sid: Id)
    | Mail(sid: Id, from: text)
    | Rcpt(sid: Id, to: text, fault: bool)
    | Data(sid: Id, incoming: Option<Incoming>, ids: seq<Id>, now: int, fault: bool)
    | Reset(sid: Id)
    | StartCreate(rid: Id, user: Id, form: Form)
    | TryInsert(rid: Id, chance: Chance)
    | StartUpdate(rid: Id, user: Id, project: Id, form: Form, fault: bool)
    | WriteUpdate(rid: Id, now: int, fault: bool)
    | StartDelete(rid: Id, user: Id, project: Id, fault: bool)
    | WriteDelete(rid: Id, now: int, fault: bool)
    | StartList(rid: Id, user: Id, project: Id, fault: bool)
    | FinishList(rid: Id, page: seq<Email>, fault: bool)
    | GetProject(user: Id, project: Id, fault: bool)

  /** What the outside sees of a step; Silent is a request still running, or an action
      that is not possible now and changes nothing. */
  datatype Reply = Silent | Smtp(smtp: SmtpReply) | Http(http: HttpReply)

  datatype Outcome = Outcome(next: System, reply: Reply)

  const START: System := System(EMPTY_DB, map[], map[])

  // ---------- SMTP ----------

  ghost function SmtpStep(domain: text, s: System, a: Action): Outcome
    requires a.Connect? || a.Mail? || a.Rcpt? || a.Data? || a.Reset?
  {
    if a.Connect? then Outcome(s.(sessions := s.sessions[a.sid := FRESH]), Silent)
    else if a.sid !in s.sessions then Outcome(s, Silent)
    else
      var env := s.sessions[a.sid];
      match a
      case Mail(sid, from) =>
        Outcome(s.(sessions := s.sessions[sid := env.(from := from)]), Smtp(Ok250))
      case Rcpt(sid, to, fault) =>
        var local := Address.NormalizeAddress(domain);
        Outcome(s.(sessions := s.sessions[sid := AfterRcpt(s.db, local, env, to, fault)]),
                Smtp(RcptReply(s.db, local, to, fault)))
      case Data(sid, incoming, ids, now, fault) =>
        Outcome(s.(db := AfterData(s.db, env, incoming, ids, now, fault)),
                Smtp(DataReply(s.db, env, incoming, ids, now, fault)))
      case Reset(sid) =>
        Outcome(s.(sessions := s.sessions[sid := FRESH]), Silent)
  }

  // ---------- HTTP ----------

  function Done(s: System, rid: Id, reply: HttpReply): Outcome {
    Outcome(s.(handlers := s.handlers - {rid}), Http(reply))
  }

  function Waiting(s: System, rid: Id, h: Handler): Outcome {
    Outcome(s.(handlers := s.handlers[rid := h]), Silent)
  }

  /** The first statement of Update, Delete and List, and all of Get. */
  function SelectStep(s: System, user: Id, project: Id, fault: bool, rid: Id, hold: Project -> Handler): Outcome {
    if fault then Outcome(s, Http(Failed(500)))
    else
      match SelectOwned(s.db, project, user)
      case None => Outcome(s, Http(Failed(404)))
      case Some(row) => Waiting(s, rid, hold(row))
  }

  /** A request begins. */
  function StartStep(s: System, a: Action): Outcome
    requires a.StartCreate? || a.StartUpdate? || a.StartDelete? || a.StartList?
  {
    if a.rid in s.handlers then Outcome(s, Silent)
    else
      match a
      case StartCreate(rid, user, form) =>
        if form.status !in STATUSES then Outcome(s, Http(Failed(400)))
        else Waiting(s, rid, Creating(user, form, 0))
      case StartUpdate(rid, user, project, form, fault) =>
        if !ValidUpdate(form) then Outcome(s, Http(Failed(400)))
        else SelectStep(s, user, project, fault, rid, row => Updating(user, row, form))
      case StartDelete(rid, user, project, fault) =>
        SelectStep(s, user, project, fault, rid, row => Deleting(user, row))
      case StartList(rid, user, project, fault) =>
        SelectStep(s, user, project, fault, rid, row => Listing(user, row))
  }

  function CreateStep(domain: text, s: System, rid: Id, c: Chance): Outcome {
    if rid !in s.handlers || !s.handlers[rid].Creating? || !WellSized(c) then Outcome(s, Silent)
    else
      var h := s.handlers[rid];
      match TryCreate(s.db, h.user, h.form, domain, c)
      case Finished(reply) => Done(s.(db := AfterTry(s.db, h.user, h.form, domain, c)), rid, reply)
      case TakenTryAgain =>
        if h.attempt + 1 < ATTEMPTS then Waiting(s, rid, h.(attempt := h.attempt + 1))
        else Done(s, rid, Failed(500))
  }

  function UpdateStep(s: System, rid: Id, now: int, fault: bool): Outcome {
    if rid !in s.handlers || !s.handlers[rid].Updating? then Outcome(s, Silent)
    else
      var h := s.handlers[rid];
      var row := Edited(h.row, h.form, now);
      var done := if fault then Err(OtherError) else UpdateProject(s.db, row, h.user);
      if done.Ok? then Done(s.(db := done.value), rid, Updated(row)) else Done(s, rid, Failed(500))
  }

  function DeleteStep(s: System, rid: Id, now: int, fault: bool): Outcome {
    if rid !in s.handlers || !s.handlers[rid].Deleting? then Outcome(s, Silent)
    else
      var h := s.handlers[rid];
      if fault then Done(s, rid, Failed(500))
      else Done(s.(db := SoftDelete(s.db, h.row.id, h.user, now)), rid, NoContent)
  }

  ghost function ListStep(s: System, rid: Id, page: seq<Email>, fault: bool): Outcome {
    if rid !in s.handlers || !s.handlers[rid].Listing? then Outcome(s, Silent)
    else if fault then Done(s, rid, Failed(500))
    else if !IsPage(s.db, s.handlers[rid].row.id, page) then Outcome(s, Silent)
    else Done(s, rid, Emails(Listed(page)))
  }

  function GetStep(s: System, user: Id, project: Id, fault: bool): Outcome {
    if fault then Outcome(s, Http(Failed(500)))
    else
      match SelectOwned(s.db, project, user)
      case None => Outcome(s, Http(Failed(404)))
      case Some(row) => Outcome(s, Http(Found(row)))
  }

  // ---------- runs ----------

  ghost function Step(domain: text, s: System, a: Action): Outcome {
    match a
    case TryInsert(rid, c) => CreateStep(domain, s, rid, c)
    case WriteUpdate(rid, now, fault) => UpdateStep(s, rid, now, fault)
    case WriteDelete(rid, now, fault) => DeleteStep(s, rid, now, fault)
    case FinishList(rid, page, fault) => ListStep(s, rid, page, fault)
    case GetProject(user, project, fault) => GetStep(s, user, project, fault)
    case StartCreate(_, _, _) => StartStep(s, a)
    case StartUpdate(_, _, _, _, _) => StartStep(s, a)
    case StartDelete(_, _, _, _) => StartStep(s, a)
    case StartList(_, _, _, _) => StartStep(s, a)
    case _ => SmtpStep(domain, s, a)
  }

  /** The state after a run of actions from an empty system; `domain` is configured once. */
  ghost function Exec(domain: text, run: seq<Action>): System {
    if run == [] then START
    else Step(domain, Exec(domain, run[..|run| - 1]), run[|run| - 1]).next
  }

  /** The state in which action `i` of a run happens, and what the outside sees of it. */
  ghost function Before(domain: text, run: seq<Action>, i: nat): System
    requires i <= |run|
  {
    Exec(domain, run[..i])
  }

  ghost function ReplyAt(domain: text, run: seq<Action>, i: nat): Reply
    requires i < |run|
  {
    Step(domain, Before(domain, run, i), run[i]).reply
  }

  // ---------- the invariant ----------

  /** A recipient's project exists and owns the address the recipient was accepted under,
      whether or not it has been deleted since. */
  predicate Routed(db: Db, r: Recipient) {
    r.projectId in db.projects && db.projects[r.projectId].emailAddress == Address.NormalizeAddress(r.address)
  }

  ghost predicate EmailsRouted(db: Db) {
    forall e :: e in db.emails ==>
      e.projectId in db.projects && db.projects[e.projectId].emailAddress == e.envelopeTo
  }

  ghost predicate SessionsRouted(s: System) {
    forall sid, r :: sid in s.sessions && r in s.sessions[sid].recipients ==> Routed(s.db, r)
  }

  /** A row held by a request is an earlier state of the row of the same id. */
  predicate HeldRow(db: Db, user: Id, row: Project) {
    row.id in db.projects && RowEvolves(row, db.projects[row.id]) && row.userId == user && row.deletedAt.None?
  }

  predicate HandlerOk(db: Db, h: Handler) {
    match h
    case Creating(_, form, attempt) => attempt < ATTEMPTS && form.status in STATUSES
    case Updating(user, row, form) => HeldRow(db, user, row) && ValidUpdate(form)
    case Deleting(user, row) => HeldRow(db, user, row)
    case Listing(user, row) => HeldRow(db, user, row)
  }

  ghost predicate HandlersOk(s: System) {
    forall rid :: rid in s.handlers ==> HandlerOk(s.db, s.handlers[rid])
  }

  ghost predicate Inv(s: System) {
    && SchemaHolds(s.db)
    && EmailsRouted(s.db)
    && SessionsRouted(s)
    && HandlersOk(s)
  }

  // ---------- one step keeps it ----------

  lemma EvolvingKeepsHandlers(a: System, b: System)
    requires HandlersOk(a) && Evolves(a.db, b.db)
    requires forall rid :: rid in b.handlers ==> rid in a.handlers && b.handlers[rid] == a.handlers[rid]
    ensures HandlersOk(b)
  {
    forall rid | rid in b.handlers ensures HandlerOk(b.db, b.handlers[rid]) {
      assert HandlerOk(a.db, a.handlers[rid]);
    }
  }

  lemma EvolvingKeepsSessions(a: System, b: System)
    requires SessionsRouted(a) && Evolves(a.db, b.db) && b.sessions == a.sessions
    ensures SessionsRouted(b)
  {
    forall sid, r | sid in b.sessions && r in b.sessions[sid].recipients ensures Routed(b.db, r) {
      assert Routed(a.db, r);
    }
  }

  lemma EvolvingKeepsEmails(a: Db, b: Db)
    requires EmailsRouted(a) && Evolves(a, b) && b.emails == a.emails
    ensures EmailsRouted(b)
  {
  }

  /** A step whose only effects are on project rows and on finished requests. */
  lemma ProjectWriteKeepsInv(a: System, b: System)
    requires Inv(a) && SchemaHolds(b.db) && Evolves(a.db, b.db)
    requires b.db.emails == a.db.emails && b.sessions == a.sessions
    requires forall rid :: rid in b.handlers ==> rid in a.handlers && b.handlers[rid] == a.handlers[rid]
    ensures Inv(b)
  {
    EvolvingKeepsHandlers(a, b);
    EvolvingKeepsSessions(a, b);
    EvolvingKeepsEmails(a.db, b.db);
  }

  lemma CreateStepKeepsInv(domain: text, s: System, rid: Id, c: Chance)
    requires Inv(s)
    ensures Inv(CreateStep(domain, s, rid, c).next) && Evolves(s.db, CreateStep(domain, s, rid, c).next.db)
  {
    var t := CreateStep(domain, s, rid, c).next;
    if rid in s.handlers && s.handlers[rid].Creating? && WellSized(c) {
      var h := s.handlers[rid];
      assert HandlerOk(s.db, h);
      if TryCreate(s.db, h.user, h.form, domain, c).Finished? {
        if c.random.Some? && Inserted(s.db, h.user, h.form, domain, c).Ok? {
          InsertProjectSafe(s.db, NewProject(c.id, h.user, h.form, domain, c.random.value, c.now));
        }
        ProjectWriteKeepsInv(s, t);
      } else if h.attempt + 1 < ATTEMPTS {
        HandlerAdded(s, rid, h.(attempt := h.attempt + 1));
      } else {
        ProjectWriteKeepsInv(s, t);
      }
    }
  }

  lemma HandlerAdded(s: System, rid: Id, h: Handler)
    requires Inv(s) && HandlerOk(s.db, h)
    ensures Inv(Waiting(s, rid, h).next)
  {
    var t := Waiting(s, rid, h).next;
    forall r | r in t.handlers ensures HandlerOk(t.db, t.handlers[r]) {
      assert r != rid ==> HandlerOk(s.db, s.handlers[r]);
    }
    assert SessionsRouted(t) by { EvolvingKeepsSessions(s, t); }
  }

  lemma UpdateStepKeepsInv(s: System, rid: Id, now: int, fault: bool)
    requires Inv(s)
    ensures Inv(UpdateStep(s, rid, now, fault).next) && Evolves(s.db, UpdateStep(s, rid, now, fault).next.db)
  {
    if rid in s.handlers && s.handlers[rid].Updating? {
      var h := s.handlers[rid];
      var row := Edited(h.row, h.form, now);
      if !fault && UpdateProject(s.db, row, h.user).Ok? {
        UpdateProjectSafe(s.db, row, h.user);
      }
      ProjectWriteKeepsInv(s, UpdateStep(s, rid, now, fault).next);
    }
  }

  lemma DeleteStepKeepsInv(s: System, rid: Id, now: int, fault: bool)
    requires Inv(s)
    ensures Inv(DeleteStep(s, rid, now, fault).next) && Evolves(s.db, DeleteStep(s, rid, now, fault).next.db)
  {
    if rid in s.handlers && s.handlers[rid].Deleting? {
      var h := s.handlers[rid];
      SoftDeleteSafe(s.db, h.row.id, h.user, now);
      ProjectWriteKeepsInv(s, DeleteStep(s, rid, now, fault).next);
    }
  }

  lemma ListStepKeepsInv(s: System, rid: Id, page: seq<Email>, fault: bool)
    requires Inv(s)
    ensures Inv(ListStep(s, rid, page, fault).next) && ListStep(s, rid, page, fault).next.db == s.db
  {
    ProjectWriteKeepsInv(s, ListStep(s, rid, page, fault).next);
  }

  lemma StartStepKeepsInv(s: System, a: Action)
    requires Inv(s)
    requires a.StartCreate? || a.StartUpdate? || a.StartDelete? || a.StartList?
    ensures Inv(StartStep(s, a).next) && StartStep(s, a).next.db == s.db
  {
    var t := StartStep(s, a).next;
    if t != s {
      var h := t.handlers[a.rid];
      assert t == Waiting(s, a.rid, h).next;
      HandlerAdded(s, a.rid, h);
    }
  }

  /** Looking up is where routing begins: the address given leads to the project that owns
      its normal form. */
  lemma AcceptedIsRouted(db: Db, domain: text, to: text, fault: bool)
    requires Lookup(db, domain, to, fault).Ok? && Lookup(db, domain, to, fault).value.Some?
    ensures Routed(db, Recipient(to, Lookup(db, domain, to, fault).value.value))
  {
  }

  lemma SessionSet(s: System, sid: Id, env: Envelope)
    requires Inv(s) && forall r :: r in env.recipients ==> Routed(s.db, r)
    ensures Inv(s.(sessions := s.sessions[sid := env]))
  {
    var t := s.(sessions := s.sessions[sid := env]);
    forall x, r | x in t.sessions && r in t.sessions[x].recipients ensures Routed(t.db, r) {
      assert x != sid ==> r in s.sessions[x].recipients;
    }
    EvolvingKeepsHandlers(s, t);
  }

  lemma {:induction false} DistinctIsPart<T, K>(list: seq<T>, key: T -> K, x: T)
    requires x in Distinct(list, key)
    ensures x in list
  {
    var init := list[..|list| - 1];
    if x in Distinct(init, key) {
      DistinctIsPart(init, key, x);
    }
  }

  /** Delivery writes rows that are routed, because the recipients were. */
  lemma DeliveredIsRouted(db: Db, env: Envelope, m: Incoming, ids: seq<Id>, now: int)
    requires SchemaHolds(db) && EmailsRouted(db) && forall r :: r in env.recipients ==> Routed(db, r)
    requires Delivered(db, env.from, env.recipients, m, ids, now, false).Ok?
    ensures var done := Delivered(db, env.from, env.recipients, m, ids, now, false).value;
            SchemaHolds(done) && Evolves(db, done) && EmailsRouted(done)
  {
    if env.recipients != [] {
      var chosen := Distinct(env.recipients, ProjectOf);
      var rows := RowsFor(chosen, env.from, m);
      InsertEmailsSafe(db, rows, ids, now);
      var done := InsertEmails(db, rows, ids, now).value;
      forall e | e in done.emails
        ensures e.projectId in done.projects && done.projects[e.projectId].emailAddress == e.envelopeTo
      {
        if e !in db.emails {
          var i :| 0 <= i < |rows| && e == Numbered(rows, ids, now)[i];
          DistinctIsPart(env.recipients, ProjectOf, chosen[i]);
          assert Routed(db, chosen[i]);
        }
      }
    }
  }

  lemma DataKeepsInv(domain: text, s: System, a: Action)
    requires Inv(s) && a.Data? && a.sid in s.sessions
    ensures Inv(SmtpStep(domain, s, a).next) && Evolves(s.db, SmtpStep(domain, s, a).next.db)
  {
    var t := SmtpStep(domain, s, a).next;
    var env := s.sessions[a.sid];
    if a.incoming.Some? && Delivered(s.db, env.from, env.recipients, a.incoming.value, a.ids, a.now, a.fault).Ok? {
      DeliveredIsRouted(s.db, env, a.incoming.value, a.ids, a.now);
      EvolvingKeepsHandlers(s, t);
      EvolvingKeepsSessions(s, t);
    }
  }

  lemma SmtpStepKeepsInv(domain: text, s: System, a: Action)
    requires Inv(s)
    requires a.Connect? || a.Mail? || a.Rcpt? || a.Data? || a.Reset?
    ensures Inv(SmtpStep(domain, s, a).next) && Evolves(s.db, SmtpStep(domain, s, a).next.db)
  {
    if a.Connect? {
      SessionSet(s, a.sid, FRESH);
    } else if a.sid in s.sessions {
      var env := s.sessions[a.sid];
      match a {
        case Mail(sid, from) =>
          SessionSet(s, sid, env.(from := from));
        case Rcpt(sid, to, fault) =>
          var local := Address.NormalizeAddress(domain);
          if RcptReply(s.db, local, to, fault).Ok250? {
            AcceptedIsRouted(s.db, local, to, fault);
          }
          SessionSet(s, sid, AfterRcpt(s.db, local, env, to, fault));
        case Data(_, _, _, _, _) =>
          DataKeepsInv(domain, s, a);
        case Reset(sid) =>
          SessionSet(s, sid, FRESH);
      }
    }
  }

  lemma GetChangesNothing(s: System, user: Id, project: Id, fault: bool)
    ensures GetStep(s, user, project, fault).next == s
  {
  }

  lemma StepKeepsInv(domain: text, s: System, a: Action)
    requires Inv(s)
    ensures Inv(Step(domain, s, a).next) && Evolves(s.db, Step(domain, s, a).next.db)
  {
    hide Inv, Evolves, CreateStep, UpdateStep, DeleteStep, ListStep, GetStep, StartStep, SmtpStep;
    assert Evolves(s.db, s.db) by { EvolvesReflexive(s.db); }
    match a {
      case TryInsert(rid, c) => CreateStepKeepsInv(domain, s, rid, c);
      case WriteUpdate(rid, now, fault) => UpdateStepKeepsInv(s, rid, now, fault);
      case WriteDelete(rid, now, fault) => DeleteStepKeepsInv(s, rid, now, fault);
      case FinishList(rid, page, fault) => ListStepKeepsInv(s, rid, page, fault);
      case GetProject(user, project, fault) => GetChangesNothing(s, user, project, fault);
      case StartCreate(_, _, _) => StartStepKeepsInv(s, a);
      case StartUpdate(_, _, _, _, _) => StartStepKeepsInv(s, a);
      case StartDelete(_, _, _, _) => StartStepKeepsInv(s, a);
      case StartList(_, _, _, _) => StartStepKeepsInv(s, a);
      case _ => SmtpStepKeepsInv(domain, s, a);
    }
  }

  /** In every reachable state, however the steps interleave: each stored email belongs to
      the project that owns the address it was sent to, each accepted recipient still leads
      to its project, addresses are unique over all rows ever created, and each request
      holds a row of its own user. */
  lemma {:induction false} AlwaysRouted(domain: text, run: seq<Action>)
    ensures Inv(Exec(domain, run))
    decreases |run|
  {
    if run != [] {
      AlwaysRouted(domain, run[..|run| - 1]);
      StepKeepsInv(domain, Exec(domain, run[..|run| - 1]), run[|run| - 1]);
    }
  }

  /** Later states only extend earlier ones. */
  lemma {:induction false} RunEvolves(domain: text, run: seq<Action>, i: nat)
    requires i <= |run|
    ensures Evolves(Before(domain, run, i).db, Exec(domain, run).db)
    decreases |run|
  {
    if i == |run| {
      assert run[..i] == run;
    } else {
      var init := run[..|run| - 1];
      assert init[..i] == run[..i];
      RunEvolves(domain, init, i);
      AlwaysRouted(domain, init);
      StepKeepsInv(domain, Exec(domain, init), run[|run| - 1]);
      EvolvesTransitive(Before(domain, run, i).db, Exec(domain, init).db, Exec(domain, run).db);
    }
  }
}
