/** What every callback and every request of the mail application is answered, over whole
    runs, told from the tables and from what was asked and answered before. */
module Answers {
  import opened Prelude
  import opened Text
  import opened Parse
  import opened Database
  import opened InboundStore
  import opened MailServer
  import opened Projects
  import opened MailSystem
  import opened Delivery
  import opened Guarantees
  import opened Address

  // ---------- SMTP ----------

  /** A session exists from its connection on. */
  lemma {:induction false} SessionExistsIff(domain: text, run: seq<Action>, sid: Id)
    ensures sid in Exec(domain, run).sessions <==> Connect(sid) in run
    decreases |run|
  {
    hide Step;
    if run != [] {
      var init, a := run[..|run| - 1], run[|run| - 1];
      SessionExistsIff(domain, init, sid);
      SessionStep(domain, Exec(domain, init), a, sid);
      assert run == init + [a];
    }
  }

  lemma SessionStep(domain: text, s: System, a: Action, sid: Id)
    ensures sid in Step(domain, s, a).next.sessions <==> sid in s.sessions || a == Connect(sid)
  {
    hide AfterRcpt, AfterData, CreateStep, UpdateStep, DeleteStep, ListStep, GetStep, StartStep;
    if !a.Connect? && !a.Mail? && !a.Rcpt? && !a.Data? && !a.Reset? {
      HttpKeepsSessions(domain, s, a);
      hide Step;
    }
  }

  lemma HttpKeepsSessions(domain: text, s: System, a: Action)
    requires !a.Connect? && !a.Mail? && !a.Rcpt? && !a.Data? && !a.Reset?
    ensures Step(domain, s, a).next.sessions == s.sessions
  {
    hide TryCreate, AfterTry, UpdateProject, SoftDelete, SelectOwned, IsPage, ValidUpdate, Edited;
  }

  /** Connecting and resetting are not answered, nor is anything outside a session; MAIL
      always succeeds. */
  lemma MailAnswer(domain: text, s: System, a: Action)
    requires a.Connect? || a.Mail? || a.Reset? || ((a.Rcpt? || a.Data?) && a.sid !in s.sessions)
    ensures Step(domain, s, a).reply == if a.Mail? && a.sid in s.sessions then Smtp(Ok250) else Silent
  {
  }

  /** An address is the store's when its normal form has the store's domain. */
  predicate Local(domain: text, to: text) {
    AddressDomain(NormalizeAddress(to)) == NormalizeAddress(domain)
  }

  ghost predicate Owned(db: Db, address: text) {
    exists id :: ActiveAt(db, address, id)
  }

  /** RCPT: 451 exactly when the lookup of a local address fails, 550 exactly for foreign
      addresses, asked for without a query, and for local ones that no undeleted project owns,
      250 otherwise. */
  lemma RcptAnswer(domain: text, s: System, a: Action)
    requires a.Rcpt? && a.sid in s.sessions
    ensures var reply := Step(domain, s, a).reply;
            && (reply == Smtp(Temporary451) <==> Local(domain, a.to) && a.fault)
            && (reply == Smtp(NoMailbox550) <==>
                  !Local(domain, a.to) || (!a.fault && !Owned(s.db, NormalizeAddress(a.to))))
            && (reply == Smtp(Ok250) <==>
                  Local(domain, a.to) && !a.fault && Owned(s.db, NormalizeAddress(a.to)))
  {
    hide NormalizeAddress, AddressDomain;
  }

  /** DATA: an error of the protocol when the message breaks off, 451 exactly for one of the
      three reasons, 250 otherwise, also when nobody is to receive it. */
  lemma DataAnswer(domain: text, run: seq<Action>, a: Action)
    requires a.Data? && a.sid in Exec(domain, run).sessions
    ensures var s := Exec(domain, run);
            var list := s.sessions[a.sid].recipients;
            Step(domain, s, a).reply
            == Smtp(if a.incoming.None? then ReadError
                    else if list != [] && (a.fault || !FreshIds(s.db, a.ids, |Distinct(list, ProjectOf)|)
                                           || DatedBeforeYearOne(a.incoming.value.message))
                    then Temporary451 else Ok250)
  {
    if a.incoming.Some? {
      DeferredIff(domain, run, a);
    }
    hide Delivered, Exec, FreshIds, Distinct, DatedBeforeYearOne;
  }

  // ---------- which requests are pending, and for what ----------

  predicate Concerns(a: Action, rid: Id) {
    && (a.StartCreate? || a.TryInsert? || a.StartUpdate? || a.WriteUpdate? || a.StartDelete? || a.WriteDelete?
        || a.StartList? || a.FinishList?)
    && a.rid == rid
  }

  predicate SameRequest(h: Handler, g: Handler) {
    if h.Creating? then g.Creating? && h.user == g.user && h.form == g.form else h == g
  }

  /** The user's row, not deleted, as it is in the table. */
  predicate ReadRow(db: Db, user: Id, row: Project) {
    row.id in db.projects && db.projects[row.id] == row && row.userId == user && row.deletedAt.None?
  }

  /** The action asks for what the pending request is about. */
  predicate Starts(db: Db, a: Action, rid: Id, h: Handler) {
    match h
    case Creating(user, form, _) => a == StartCreate(rid, user, form)
    case Updating(user, row, form) => a == StartUpdate(rid, user, row.id, form, false) && ReadRow(db, user, row)
    case Deleting(user, row) => a == StartDelete(rid, user, row.id, false) && ReadRow(db, user, row)
    case Listing(user, row) => a == StartList(rid, user, row.id, false) && ReadRow(db, user, row)
  }

  /** A pending request stays what it is until it is answered, and is gone then. */
  lemma PendingStep(domain: text, s: System, a: Action, rid: Id)
    requires rid in s.handlers
    ensures var Outcome(t, reply) := Step(domain, s, a);
            if Concerns(a, rid) && reply.Http? then rid !in t.handlers
            else rid in t.handlers && SameRequest(s.handlers[rid], t.handlers[rid])
  {
    hide Lookup, Delivered, TryCreate, AfterTry, UpdateProject, SoftDelete, IsPage, ValidUpdate, SelectOwned, Edited;
  }

  lemma StartingStep(domain: text, s: System, a: Action, rid: Id)
    requires Inv(s) && rid !in s.handlers && rid in Step(domain, s, a).next.handlers
    ensures Step(domain, s, a).reply == Silent
    ensures Starts(s.db, a, rid, Step(domain, s, a).next.handlers[rid])
  {
    hide Lookup, Delivered, TryCreate, AfterTry, UpdateProject, SoftDelete, IsPage, ValidUpdate, Edited;
    hide EmailsRouted, SessionsRouted, AddressesUnique, HandlersOk;
  }

  /** No answer was given for the request from action `lo` on. */
  ghost predicate Unanswered(domain: text, run: seq<Action>, rid: Id, lo: nat) {
    forall j :: lo <= j < |run| ==> !(Concerns(run[j], rid) && ReplyAt(domain, run, j).Http?)
  }

  ghost predicate StartedAt(domain: text, run: seq<Action>, k: nat, rid: Id, h: Handler) {
    && k < |run| && rid !in Before(domain, run, k).handlers
    && Starts(Before(domain, run, k).db, run[k], rid, h)
    && Unanswered(domain, run, rid, k)
  }

  /** Every pending request was started by an action with just its user, its project and its
      form, and has not been answered since. */
  lemma {:induction false} RequestOrigin(domain: text, run: seq<Action>, rid: Id)
    requires rid in Exec(domain, run).handlers
    ensures exists k: nat :: StartedAt(domain, run, k, rid, Exec(domain, run).handlers[rid])
    decreases |run|
  {
    hide Step, Inv, Starts, Concerns;
    var n := |run| - 1;
    var init, a := run[..n], run[n];
    var s, h := Exec(domain, init), Exec(domain, run).handlers[rid];
    AlwaysRouted(domain, init);
    if rid in s.handlers {
      RequestOrigin(domain, init, rid);
      PendingStep(domain, s, a, rid);
      var k: nat :| StartedAt(domain, init, k, rid, s.handlers[rid]);
      assert init[..k] == run[..k];
      SameStart(Before(domain, run, k).db, run[k], rid, s.handlers[rid], h);
      forall j | k <= j < |run| ensures !(Concerns(run[j], rid) && ReplyAt(domain, run, j).Http?) {
        assert j < n ==> init[..j] == run[..j] && ReplyAt(domain, init, j) == ReplyAt(domain, run, j);
      }
      assert StartedAt(domain, run, k, rid, h);
    } else {
      StartingStep(domain, s, a, rid);
      assert ReplyAt(domain, run, n) == Silent;
      assert StartedAt(domain, run, n, rid, h);
    }
  }

  lemma SameStart(db: Db, a: Action, rid: Id, h: Handler, g: Handler)
    requires Starts(db, a, rid, h) && SameRequest(h, g)
    ensures Starts(db, a, rid, g)
  {
  }

  /** Conversely it is still pending, for the same, as long as it has not been answered. */
  lemma {:induction false} PendingUntilAnswered(domain: text, run: seq<Action>, k: nat, rid: Id)
    requires k <= |run| && rid in Before(domain, run, k).handlers && Unanswered(domain, run, rid, k)
    ensures rid in Exec(domain, run).handlers
    ensures SameRequest(Before(domain, run, k).handlers[rid], Exec(domain, run).handlers[rid])
    decreases |run|
  {
    hide Step, Concerns;
    if k == |run| {
      assert run[..k] == run;
    } else {
      var n := |run| - 1;
      var init := run[..n];
      assert init[..k] == run[..k];
      forall j | k <= j < n ensures !(Concerns(init[j], rid) && ReplyAt(domain, init, j).Http?) {
        assert init[..j] == run[..j] && ReplyAt(domain, init, j) == ReplyAt(domain, run, j);
      }
      PendingUntilAnswered(domain, init, k, rid);
      assert !(Concerns(run[n], rid) && ReplyAt(domain, run, n).Http?);
      PendingStep(domain, Exec(domain, init), run[n], rid);
    }
  }

  // ---------- how a request begins ----------

  /** The update form is refused: an unknown status, or a name or a description that is white
      space throughout. */
  predicate BadUpdate(form: Form) {
    form.status !in {"pending", "in_progress", "completed", "archived"} || AllSpace(form.name) || AllSpace(form.description)
  }

  predicate HasRow(db: Db, user: Id, project: Id) {
    project in db.projects && db.projects[project].userId == user && db.projects[project].deletedAt.None?
  }

  function Begun(s: System, rid: Id, h: Handler): Outcome {
    Outcome(s.(handlers := s.handlers[rid := h]), Silent)
  }

  function Refusal(s: System, code: nat): Outcome {
    Outcome(s, Http(Failed(code)))
  }

  /** A create is refused for its status only. An update is refused for its form before any
      query; then, like a delete and a list, for a failing select or a project that is not the
      user's or is deleted. */
  lemma StartAnswer(domain: text, s: System, a: Action)
    requires (a.StartCreate? || a.StartUpdate? || a.StartDelete? || a.StartList?) && a.rid !in s.handlers
    ensures Step(domain, s, a)
            == match a
               case StartCreate(rid, user, form) =>
                 if form.status !in {"pending", "in_progress", "completed", "archived"} then Refusal(s, 400)
                 else Begun(s, rid, Creating(user, form, 0))
               case StartUpdate(rid, user, project, form, fault) =>
                 if BadUpdate(form) then Refusal(s, 400)
                 else if fault then Refusal(s, 500)
                 else if !HasRow(s.db, user, project) then Refusal(s, 404)
                 else Begun(s, rid, Updating(user, s.db.projects[project], form))
               case StartDelete(rid, user, project, fault) =>
                 if fault then Refusal(s, 500)
                 else if !HasRow(s.db, user, project) then Refusal(s, 404)
                 else Begun(s, rid, Deleting(user, s.db.projects[project]))
               case StartList(rid, user, project, fault) =>
                 if fault then Refusal(s, 500)
                 else if !HasRow(s.db, user, project) then Refusal(s, 404)
                 else Begun(s, rid, Listing(user, s.db.projects[project]))
  {
    if a.StartUpdate? {
      BlankIff(a.form.name);
      BlankIff(a.form.description);
    }
    hide TrimSpace, AllSpace;
  }

  // ---------- creating ----------

  /** How often the request has tried an address so far. */
  ghost function Tries(domain: text, run: seq<Action>, rid: Id): nat {
    if run == [] then 0
    else
      var init, a := run[..|run| - 1], run[|run| - 1];
      if rid !in Exec(domain, init).handlers then 0
      else Tries(domain, init, rid) + if a.TryInsert? && a.rid == rid && WellSized(a.chance) then 1 else 0
  }

  lemma CountedStep(domain: text, s: System, a: Action, rid: Id)
    requires var t := Step(domain, s, a).next; rid in t.handlers && t.handlers[rid].Creating?
    ensures var attempt := Step(domain, s, a).next.handlers[rid].attempt;
            if rid in s.handlers then
              s.handlers[rid].Creating?
              && attempt == s.handlers[rid].attempt + if a.TryInsert? && a.rid == rid && WellSized(a.chance) then 1 else 0
            else attempt == 0
  {
    hide Lookup, Delivered, TryCreate, AfterTry, UpdateProject, SoftDelete, IsPage, ValidUpdate, Edited;
  }

  lemma {:induction false} AttemptIsTries(domain: text, run: seq<Action>, rid: Id)
    requires rid in Exec(domain, run).handlers && Exec(domain, run).handlers[rid].Creating?
    ensures Exec(domain, run).handlers[rid].attempt == Tries(domain, run, rid)
    decreases |run|
  {
    hide Step;
    var init, a := run[..|run| - 1], run[|run| - 1];
    CountedStep(domain, Exec(domain, init), a, rid);
    if rid in Exec(domain, init).handlers {
      AttemptIsTries(domain, init, rid);
    }
  }

  /** What ends a create with an error at once: no randomness, a failing statement, or text
      the table does not take. */
  predicate Stops(form: Form, domain: text, c: Chance) {
    || c.random.None? || c.fault || !Storable(form.name) || !Storable(form.description)
    || !Storable(AddressFor(c.random.value, domain))
  }

  /** The id or the address belongs to some row, deleted or not. */
  predicate Clashes(db: Db, id: Id, address: text) {
    id in db.projects || exists other :: other in db.projects && db.projects[other].emailAddress == address
  }

  /** One try of a pending create: 500 on an error or on the fifth clash, another try on an
      earlier clash, otherwise a row with the user, name, description and status of the
      request, the generated address and nothing else. */
  lemma TryAnswer(domain: text, run: seq<Action>, rid: Id, c: Chance)
    requires rid in Exec(domain, run).handlers && Exec(domain, run).handlers[rid].Creating? && WellSized(c)
    ensures var s := Exec(domain, run);
            var h, o := s.handlers[rid], Step(domain, s, TryInsert(rid, c));
            if Stops(h.form, domain, c) then o.reply == Http(Failed(500)) && o.next.db == s.db
            else
              var address := AddressFor(c.random.value, domain);
              if Clashes(s.db, c.id, address) then
                o.next.db == s.db && o.reply == if Tries(domain, run, rid) < 4 then Silent else Http(Failed(500))
              else
                var p := Project(c.id, h.user, h.form.name, h.form.description, h.form.status, address, c.now, None);
                && o.reply == Http(Created(p))
                && o.next.db == Db(s.db.projects[c.id := p], s.db.emails)
  {
    hide Storable, AddressFor, Tries, Exec;
    AttemptIsTries(domain, run, rid);
  }

  // ---------- updating, deleting ----------

  /** The second statement of an update: 500 exactly when it fails or the text cannot be
      stored, otherwise the row read with the name, description and status of the request. */
  lemma WriteAnswer(domain: text, s: System, rid: Id, now: int, fault: bool)
    requires rid in s.handlers && s.handlers[rid].Updating?
    ensures var h, o := s.handlers[rid], Step(domain, s, WriteUpdate(rid, now, fault));
            if fault || !Storable(h.form.name) || !Storable(h.form.description) then
              o.reply == Http(Failed(500)) && o.next.db == s.db
            else
              o.reply == Http(Updated(Project(h.row.id, h.row.userId, h.form.name, h.form.description, h.form.status,
                                              h.row.emailAddress, now, h.row.deletedAt)))
  {
    hide Storable;
  }

  /** The second statement of a delete: 500 exactly when it fails. */
  lemma DeleteAnswer(domain: text, s: System, rid: Id, now: int, fault: bool)
    requires rid in s.handlers && s.handlers[rid].Deleting?
    ensures var o := Step(domain, s, WriteDelete(rid, now, fault));
            && o.reply == Http(if fault then Failed(500) else NoContent)
            && (fault ==> o.next.db == s.db)
  {
  }

  /** A project announced as created was asked for with its user, its name, its description and
      its status. */
  lemma CreatedAsAsked(domain: text, run: seq<Action>, a: Action)
    requires Step(domain, Exec(domain, run), a).reply.Http? && Step(domain, Exec(domain, run), a).reply.http.Created?
    ensures var p := Step(domain, Exec(domain, run), a).reply.http.created;
            a.TryInsert? && a.chance.random.Some?
            && p.id == a.chance.id && p.emailAddress == AddressFor(a.chance.random.value, domain)
            && p.updatedAt == a.chance.now && p.deletedAt == None
            && exists k: nat, form: Form ::
                 && k < |run| && run[k] == StartCreate(a.rid, p.userId, form) && Unanswered(domain, run, a.rid, k)
                 && p.title == form.name && p.description == form.description && p.status == form.status
  {
    var s := Exec(domain, run);
    WhoAnnounces(domain, s, a);
    var h := s.handlers[a.rid];
    TryAnswer(domain, run, a.rid, a.chance);
    RequestOrigin(domain, run, a.rid);
    hide Step, Exec, Unanswered, AddressFor;
    var k: nat :| StartedAt(domain, run, k, a.rid, h);
    assert run[k] == StartCreate(a.rid, h.user, h.form);
  }

  lemma WhoAnnounces(domain: text, s: System, a: Action)
    requires Step(domain, s, a).reply.Http?
    ensures Step(domain, s, a).reply.http.Created? ==>
              a.TryInsert? && WellSized(a.chance) && a.rid in s.handlers && s.handlers[a.rid].Creating?
    ensures Step(domain, s, a).reply.http.Updated? ==>
              a.WriteUpdate? && a.rid in s.handlers && s.handlers[a.rid].Updating?
  {
    hide Storable, AddressFor, AfterTry, UpdateProject, SoftDelete, IsPage, ValidUpdate, Edited, Lookup, Delivered;
    hide SelectOwned, Inserted;
  }

  /** A row announced as updated has the name, description and status the request asked for,
      and is the requesting user's. */
  lemma UpdatedAsAsked(domain: text, run: seq<Action>, a: Action)
    requires Step(domain, Exec(domain, run), a).reply.Http? && Step(domain, Exec(domain, run), a).reply.http.Updated?
    ensures var p := Step(domain, Exec(domain, run), a).reply.http.updated;
            a.WriteUpdate? && p.updatedAt == a.now
            && exists k: nat, form: Form ::
                 && k < |run| && run[k] == StartUpdate(a.rid, p.userId, p.id, form, false)
                 && Unanswered(domain, run, a.rid, k)
                 && p.title == form.name && p.description == form.description && p.status == form.status
  {
    var s := Exec(domain, run);
    WhoAnnounces(domain, s, a);
    var h := s.handlers[a.rid];
    WriteAnswer(domain, s, a.rid, a.now, a.fault);
    RequestOrigin(domain, run, a.rid);
    AlwaysRouted(domain, run);
    assert HandlerOk(s.db, h);
    hide Step, Exec, Unanswered, Inv;
    var k: nat :| StartedAt(domain, run, k, a.rid, h);
    assert run[k] == StartUpdate(a.rid, h.user, h.row.id, h.form, false);
  }

  // ---------- reading ----------

  /** Action `i` acknowledged the deletion of the project. */
  ghost predicate DeletedAt(domain: text, run: seq<Action>, i: nat, id: Id) {
    && i < |run| && run[i].WriteDelete? && ReplyAt(domain, run, i) == Http(NoContent)
    && var s := Before(domain, run, i);
       run[i].rid in s.handlers && s.handlers[run[i].rid].Deleting? && s.handlers[run[i].rid].row.id == id
  }

  lemma Deactivates(domain: text, s: System, a: Action, id: Id)
    requires Inv(s) && id in s.db.projects
    requires Active(s.db, id) && !Active(Step(domain, s, a).next.db, id)
    ensures a.WriteDelete? && Step(domain, s, a).reply == Http(NoContent)
    ensures a.rid in s.handlers && s.handlers[a.rid].Deleting? && s.handlers[a.rid].row.id == id
  {
    OnlyOwnRowsChange(domain, s, a, id);
    hide EmailsRouted, SessionsRouted, AddressesUnique, Storable;
    assert a.WriteUpdate? || a.WriteDelete?;
    if a.WriteUpdate? {
      UpdateStaysActive(s, a.rid, a.now, a.fault, id);
    }
  }

  lemma UpdateStaysActive(s: System, rid: Id, now: int, fault: bool, id: Id)
    requires Active(s.db, id)
    ensures Active(UpdateStep(s, rid, now, fault).next.db, id)
  {
    hide Storable;
  }

  /** A project is undeleted exactly if its creation was acknowledged and no deletion was. */
  lemma {:induction false} ActiveIff(domain: text, run: seq<Action>, id: Id)
    ensures Active(Exec(domain, run).db, id) <==>
            LastWrite(domain, run, id).Some? && forall i: nat :: !DeletedAt(domain, run, i, id)
  {
    TableIsLastWrites(domain, run, id);
    hide LastWrite, Exec, Step, DeletedAt;
    if !Active(Exec(domain, run).db, id) && id in Exec(domain, run).db.projects {
      var i := DeletionFound(domain, run, id);
    }
    if i: nat :| DeletedAt(domain, run, i, id) {
      DeletionHolds(domain, run, i, id);
    }
  }

  lemma DeletionHolds(domain: text, run: seq<Action>, i: nat, id: Id)
    requires DeletedAt(domain, run, i, id)
    ensures !Active(Exec(domain, run).db, id)
  {
    hide Step, Exec;
    DeleteTookEffect(domain, run[..i], run[i]);
    assert run[..i + 1][..i] == run[..i] && run[..i + 1][i] == run[i];
    ExecMore(domain, run[..i], run[i]);
    assert run[..i] + [run[i]] == run[..i + 1];
    RunEvolves(domain, run, i + 1);
  }

  lemma ExecMore(domain: text, run: seq<Action>, a: Action)
    ensures Exec(domain, run + [a]) == Step(domain, Exec(domain, run), a).next
  {
    assert (run + [a])[..|run|] == run;
  }

  lemma {:induction false} DeletionFound(domain: text, run: seq<Action>, id: Id) returns (i: nat)
    requires id in Exec(domain, run).db.projects && !Active(Exec(domain, run).db, id)
    ensures DeletedAt(domain, run, i, id)
    decreases |run|
  {
    hide Step, Inv;
    var n := |run| - 1;
    var init, a := run[..n], run[n];
    var s := Exec(domain, init);
    AlwaysRouted(domain, init);
    if id !in s.db.projects {
      ProjectAppears(domain, s, a, id);
      CreatedAsAsked(domain, init, a);
      assert false;
    } else if Active(s.db, id) {
      Deactivates(domain, s, a, id);
      i := n;
    } else {
      i := DeletionFound(domain, init, id);
      assert init[..i] == run[..i];
    }
  }

  /** GET shows its owner the last acknowledged write of a project until a deletion is
      acknowledged, and nobody else anything. */
  lemma GetAnswer(domain: text, run: seq<Action>, user: Id, id: Id, fault: bool)
    ensures var last, o := LastWrite(domain, run, id), Step(domain, Exec(domain, run), GetProject(user, id, fault));
            && o.next == Exec(domain, run)
            && if fault then o.reply == Http(Failed(500))
               else if last.Some? && last.value.userId == user && forall i: nat :: !DeletedAt(domain, run, i, id)
               then o.reply.Http? && o.reply.http.Found? && SameContent(o.reply.http.found, last.value)
               else o.reply == Http(Failed(404))
  {
    ActiveIff(domain, run, id);
    TableIsLastWrites(domain, run, id);
    hide LastWrite, Exec, DeletedAt;
  }

  /** The row is a message of the mailbox without its raw bytes. */
  ghost predicate ComesFrom(box: seq<Email>, row: Email) {
    exists e :: e in box && row == e.(rawMessage := [])
  }

  /** A list is answered, unless its statement fails, with the newest hundred of the messages
      acknowledged for the project, newest first, each once and without its raw bytes. */
  lemma ListingAnswer(domain: text, run: seq<Action>, a: Action)
    requires a.FinishList? && Step(domain, Exec(domain, run), a).reply.Http?
    ensures a.rid in Exec(domain, run).handlers && Exec(domain, run).handlers[a.rid].Listing?
    ensures var s := Exec(domain, run);
            var reply, h := Step(domain, s, a).reply.http, s.handlers[a.rid];
            var box := Mailbox(s.db.emails, h.row.id);
            && h.row.id in s.db.projects
            && Receipts(box) == Ledger(domain, run, s.db.projects[h.row.id].emailAddress)
            && if a.fault then reply == Failed(500)
               else
                 && reply.Emails?
                 && |reply.rows| == (if |box| < 100 then |box| else 100)
                 && (forall row :: row in reply.rows ==> ComesFrom(box, row))
                 && (forall i, j :: 0 <= i < j < |reply.rows| ==>
                       reply.rows[i].id != reply.rows[j].id && reply.rows[i].receivedAt >= reply.rows[j].receivedAt)
                 && (forall e, i :: e in box && e.(rawMessage := []) !in reply.rows && 0 <= i < |reply.rows| ==>
                       reply.rows[i].receivedAt >= e.receivedAt)
  {
    var s := Exec(domain, run);
    AlwaysRouted(domain, run);
    assert Step(domain, s, a) == ListStep(s, a.rid, a.page, a.fault);
    var h := s.handlers[a.rid];
    assert HandlerOk(s.db, h);
    MailboxIsLedger(domain, run, h.row.id);
    hide Exec, Inv, Ledger, Mailbox, Receipts, Step;
    if !a.fault {
      PageShown(s.db, h.row.id, a.page);
    }
  }

  lemma ListedToo(page: seq<Email>, e: Email)
    ensures e in page ==> e.(rawMessage := []) in Listed(page)
  {
    if e in page {
      var i :| 0 <= i < |page| && page[i] == e;
      assert Listed(page)[i] in Listed(page);
    }
  }

  lemma PageShown(db: Db, id: Id, page: seq<Email>)
    requires IsPage(db, id, page)
    ensures var box, rows := Mailbox(db.emails, id), Listed(page);
            && |rows| == (if |box| < 100 then |box| else 100)
            && (forall row :: row in rows ==> ComesFrom(box, row))
            && (forall i, j :: 0 <= i < j < |rows| ==>
                  rows[i].id != rows[j].id && rows[i].receivedAt >= rows[j].receivedAt)
            && (forall e, i :: e in box && e.(rawMessage := []) !in rows && 0 <= i < |rows| ==>
                  rows[i].receivedAt >= e.receivedAt)
  {
    hide Mailbox;
    var box, rows := Mailbox(db.emails, id), Listed(page);
    forall row | row in rows ensures ComesFrom(box, row) {
      var i :| 0 <= i < |rows| && rows[i] == row;
      assert page[i] in page;
      assert page[i] in box && row == page[i].(rawMessage := []);
    }
    forall e, i | e in box && e.(rawMessage := []) !in rows && 0 <= i < |rows|
      ensures rows[i].receivedAt >= e.receivedAt
    {
      assert page[i] in page;
      ListedToo(page, e);
    }
  }
}
