/** Further guarantees of the mail application over whole runs: who can read what, what an
    acknowledged write means, which addresses work, and why a delivery can fail. */
module Guarantees {
  import opened Prelude
  import opened Text
  import opened Parse
  import opened Database
  import opened InboundStore
  import opened MailServer
  import opened Projects
  import opened MailSystem
  import opened Delivery
  import opened Address

  // ---------- an address is assigned once and for ever ----------

  lemma AddressNeverReassigned(domain: text, run: seq<Action>, i: nat, p: Id, q: Id)
    requires i <= |run|
    requires p in Before(domain, run, i).db.projects && q in Exec(domain, run).db.projects
    requires Before(domain, run, i).db.projects[p].emailAddress == Exec(domain, run).db.projects[q].emailAddress
    ensures p == q
    ensures Exec(domain, run).db.projects[q].userId == Before(domain, run, i).db.projects[p].userId
  {
    RunEvolves(domain, run, i);
    AlwaysRouted(domain, run);
  }

  // ---------- dedupe by project is dedupe by address ----------

  /** For recipients a session has accepted, keeping one per project and keeping one per
      normalised address are the same. */
  lemma DedupeByAddress(domain: text, run: seq<Action>, sid: Id)
    requires sid in Exec(domain, run).sessions
    ensures var list := Exec(domain, run).sessions[sid].recipients;
            Distinct(list, ProjectOf) == Distinct(list, NormalAddressOf)
  {
    hide NormalizeAddress;
    var s := Exec(domain, run);
    var list := s.sessions[sid].recipients;
    AlwaysRouted(domain, run);
    forall i, j | 0 <= i < |list| && 0 <= j < |list|
      ensures ProjectOf(list[i]) == ProjectOf(list[j]) <==> NormalAddressOf(list[i]) == NormalAddressOf(list[j])
    {
      assert list[i] in list && list[j] in list;
      assert Routed(s.db, list[i]) && Routed(s.db, list[j]);
    }
    SameDistinct(list, ProjectOf, NormalAddressOf);
  }

  // ---------- why a delivery can fail ----------

  /** Enough generated ids, all different and unused. */
  predicate FreshIds(db: Db, ids: seq<Id>, n: nat) {
    && n <= |ids|
    && (forall i, j :: 0 <= i < j < n ==> ids[i] != ids[j])
    && (forall i, k :: 0 <= i < n && 0 <= k < |db.emails| ==> ids[i] != db.emails[k].id)
  }

  /** Rows built for routed recipients pass the checks of the emails table exactly when
      their ids are fresh and the date of the message, if it is stored at all, is in range:
      no text in the message matters. */
  lemma RowsInsertable(db: Db, recipients: seq<Recipient>, from: text, m: Incoming, ids: seq<Id>, now: int)
    requires SchemaHolds(db) && forall r :: r in recipients ==> Routed(db, r)
    requires |recipients| <= |ids|
    ensures Insertable(db, Numbered(RowsFor(recipients, from, m), ids, now))
            <==> FreshIds(db, ids, |recipients|) && (recipients == [] || !DatedBeforeYearOne(m.message))
  {
    hide CleanText, NormalizeAddress, Storable, StorableEmail, AddressesUnique;
    var rows := Numbered(RowsFor(recipients, from, m), ids, now);
    CleanTextIsStorable(from);
    ParsedIsStorable(m.message);
    StoredDate(m.message);
    hide Parsed, StorableDate, DatedBeforeYearOne;
    forall e | e in rows ensures e.projectId in db.projects && (StorableRow(e) <==> !DatedBeforeYearOne(m.message)) {
      var i :| 0 <= i < |rows| && rows[i] == e;
      assert recipients[i] in recipients && Routed(db, recipients[i]);
    }
    assert recipients != [] ==> rows[0] in rows;
    IdsOfRows(db, rows, ids);
  }

  /** A message without a date, or with Go's zero time for one, stores none. */
  lemma StoredDate(m: Message)
    ensures StorableDate(Parsed(m).sentAt) <==> !DatedBeforeYearOne(m)
  {
    hide CleanText;
  }

  lemma IdsOfRows(db: Db, rows: seq<Email>, ids: seq<Id>)
    requires DistinctIds(db.emails) && |rows| <= |ids|
    requires forall i :: 0 <= i < |rows| ==> rows[i].id == ids[i]
    ensures DistinctIds(db.emails + rows) <==> FreshIds(db, ids, |rows|)
  {
    var all, n := db.emails + rows, |db.emails|;
    if DistinctIds(all) {
      forall i, j | 0 <= i < j < |rows| ensures ids[i] != ids[j] {
        assert all[n + i] == rows[i] && all[n + j] == rows[j];
      }
      forall i, k | 0 <= i < |rows| && 0 <= k < n ensures ids[i] != db.emails[k].id {
        assert all[k] == db.emails[k] && all[n + i] == rows[i];
      }
    }
    if FreshIds(db, ids, |rows|) {
      forall i, j | 0 <= i < j < |all| ensures all[i].id != all[j].id {
        assert j >= n ==> all[j].id == ids[j - n];
        assert i >= n ==> all[i].id == ids[i - n];
      }
    }
  }

  /** In every reachable state a message whose bytes arrived is deferred exactly when the
      statement fails from outside, no fresh ids could be generated, or its Date header lies
      before year 1: never because of any text in it, never because a project was deleted
      meanwhile. */
  lemma DeferredIff(domain: text, run: seq<Action>, a: Action)
    requires a.Data? && a.incoming.Some? && a.sid in Exec(domain, run).sessions
    ensures var s := Exec(domain, run);
            var list := s.sessions[a.sid].recipients;
            Step(domain, s, a).reply == Smtp(Temporary451) <==>
              list != [] && (a.fault || !FreshIds(s.db, a.ids, |Distinct(list, ProjectOf)|)
                             || DatedBeforeYearOne(a.incoming.value.message))
  {
    hide Insertable, Numbered, RowsFor, FreshIds, NormalizeAddress, SchemaHolds, EmailsRouted, HandlersOk;
    hide DatedBeforeYearOne;
    var s := Exec(domain, run);
    var env := s.sessions[a.sid];
    var chosen := Distinct(env.recipients, ProjectOf);
    AlwaysRouted(domain, run);
    forall r | r in chosen ensures Routed(s.db, r) {
      DistinctIsPart(env.recipients, ProjectOf, r);
    }
    if |chosen| <= |a.ids| {
      RowsInsertable(s.db, chosen, env.from, a.incoming.value, a.ids, a.now);
    } else {
      TooFewIds(s.db, a.ids, |chosen|);
    }
  }

  lemma TooFewIds(db: Db, ids: seq<Id>, n: nat)
    requires |ids| < n
    ensures !FreshIds(db, ids, n)
  {
  }

  // ---------- a message no retry gets through ----------

  /** A message dated before year 1 is never acknowledged to a session that has a recipient,
      at any point of any run: however often it is sent again, to whichever projects, the
      answer is 451 and nothing is stored. */
  lemma EarlyDateDeferredForEver(domain: text, run: seq<Action>, i: nat)
    requires i < |run| && run[i].Data? && run[i].incoming.Some?
    requires DatedBeforeYearOne(run[i].incoming.value.message)
    requires run[i].sid in Before(domain, run, i).sessions
    requires Before(domain, run, i).sessions[run[i].sid].recipients != []
    ensures ReplyAt(domain, run, i) == Smtp(Temporary451)
    ensures Before(domain, run, i + 1) == Before(domain, run, i)
  {
    hide Delivered, DatedBeforeYearOne;
    var s, a := Before(domain, run, i), run[i];
    DeferredIff(domain, run[..i], a);
    assert run[..i + 1][..i] == run[..i];
    assert s.(db := s.db) == s;
  }

  /** 1 January of year 0, the earliest date a header can give in UTC. */
  const YEAR_ZERO: int := -366 * 24 * 3600 * 1_000_000_000

  /** An ordinary message but for its date. */
  ghost function EarlyMessage(): Incoming {
    Incoming([100], Readable(Headers([], [], [], None, [], None, [], Some(YEAR_ZERO)), []))
  }

  /** A project is created, its own address is accepted, the message comes. */
  ghost function EarlyDelivery(domain: text, random: text): (run: seq<Action>)
    ensures |run| == 5
  {
    [StartCreate("c", "u", FORM_A),
     TryInsert("c", Chance(Some(random), "p", 0, false)),
     Connect("s"),
     Rcpt("s", AddressFor(random, domain), false),
     Data("s", Some(EarlyMessage()), ["e"], 0, false)]
  }

  ghost function EarlyStateAt(p: Project, n: nat): System {
    var here := Db(map["p" := p], []);
    match n
    case 0 => START
    case 1 => System(EMPTY_DB, map[], map["c" := Creating("u", FORM_A, 0)])
    case 2 => System(here, map[], map[])
    case 3 => System(here, map["s" := FRESH], map[])
    case _ => System(here, map["s" := Envelope([], [Recipient(p.emailAddress, "p")])], map[])
  }

  lemma EarlyTransition(domain: text, random: text, n: nat)
    requires |random| == LOCAL_PART_LENGTH && Ascii(domain) && NulFree(domain) && GoodDomain(domain) && n < 4
    ensures var p := NewProject("p", "u", FORM_A, domain, random, 0);
            Step(domain, EarlyStateAt(p, n), EarlyDelivery(domain, random)[n]).next == EarlyStateAt(p, n + 1)
  {
    hide AddressFor, NormalizeAddress, AddressDomain, GoodDomain, Storable;
    var p := NewProject("p", "u", FORM_A, domain, random, 0);
    if n < 2 {
      GeneratedIsStorable(random, domain);
      hide Step, EarlyDelivery, LostUpdate, NewProject;
      LostUpdateCreates(domain, random);
      EarlyStarts(domain, random);
    } else if n == 3 {
      AddressAccepted(domain, random, p);
      RcptStep(domain, random, p);
    }
  }

  lemma RcptStep(domain: text, random: text, p: Project)
    requires p.emailAddress == AddressFor(random, domain)
    requires Lookup(Db(map["p" := p], []), NormalizeAddress(domain), p.emailAddress, false) == Ok(Some("p"))
    ensures Step(domain, EarlyStateAt(p, 3), EarlyDelivery(domain, random)[3])
            == Outcome(EarlyStateAt(p, 4), Smtp(Ok250))
  {
    hide Lookup, NormalizeAddress, AddressFor;
    var sessions := map["s" := FRESH];
    var r := Recipient(p.emailAddress, "p");
    assert FRESH.recipients + [r] == [r];
    assert sessions["s" := Envelope([], [Recipient(p.emailAddress, "p")])]
        == map["s" := Envelope([], [Recipient(p.emailAddress, "p")])];
  }

  lemma EarlyStarts(domain: text, random: text)
    ensures EarlyDelivery(domain, random)[..2] == LostUpdate(random)[..2]
    ensures EarlyDelivery(domain, random)[0] == LostUpdate(random)[0]
    ensures EarlyDelivery(domain, random)[1] == LostUpdate(random)[1]
  {
  }

  /** The only project's own address leads to it. */
  lemma AddressAccepted(domain: text, random: text, p: Project)
    requires |random| == LOCAL_PART_LENGTH && Ascii(domain) && GoodDomain(domain)
    requires p.id == "p" && p.deletedAt == None && p.emailAddress == AddressFor(random, domain)
    ensures Lookup(Db(map["p" := p], []), NormalizeAddress(domain), p.emailAddress, false) == Ok(Some("p"))
  {
    hide AddressFor, NormalizeAddress, AddressDomain, GoodDomain;
    var db := Db(map["p" := p], []);
    OwnAddressRecognised(random, domain);
    assert ActiveAt(db, p.emailAddress, "p");
  }

  lemma {:induction false} EarlyPrefix(domain: text, random: text, n: nat)
    requires |random| == LOCAL_PART_LENGTH && Ascii(domain) && NulFree(domain) && GoodDomain(domain) && n <= 4
    ensures Exec(domain, EarlyDelivery(domain, random)[..n])
            == EarlyStateAt(NewProject("p", "u", FORM_A, domain, random, 0), n)
    decreases n
  {
    hide Step, EarlyDelivery, EarlyStateAt, NewProject, GoodDomain;
    var run := EarlyDelivery(domain, random);
    if n == 0 {
      EarlyStart(NewProject("p", "u", FORM_A, domain, random, 0));
    } else {
      EarlyPrefix(domain, random, n - 1);
      EarlyTransition(domain, random, n - 1);
      assert run[..n][..n - 1] == run[..n - 1] && run[..n][n - 1] == run[n - 1];
    }
  }

  lemma EarlyStart(p: Project)
    ensures EarlyStateAt(p, 0) == START
  {
  }

  /** Such a message really arrives: under every good domain, after a create and an accepted
      RCPT, with no statement failing and a fresh id at hand, its DATA is answered 451. */
  lemma UndisturbedDeliveryCanBeDeferred(domain: text, random: text)
    requires |random| == LOCAL_PART_LENGTH && Ascii(domain) && NulFree(domain) && GoodDomain(domain)
    ensures var run := EarlyDelivery(domain, random);
            && run[4].Data? && !run[4].fault && run[4].incoming == Some(EarlyMessage())
            && FreshIds(Before(domain, run, 4).db, run[4].ids, 1)
            && ReplyAt(domain, run, 3) == Smtp(Ok250)
            && ReplyAt(domain, run, 4) == Smtp(Temporary451)
  {
    hide Step, Exec, NewProject, GoodDomain, AddressFor;
    var run := EarlyDelivery(domain, random);
    var p := NewProject("p", "u", FORM_A, domain, random, 0);
    EarlyPrefix(domain, random, 3);
    EarlyPrefix(domain, random, 4);
    EarlyReplies(domain, random);
  }

  lemma EarlyReplies(domain: text, random: text)
    requires |random| == LOCAL_PART_LENGTH && Ascii(domain) && NulFree(domain) && GoodDomain(domain)
    requires var run := EarlyDelivery(domain, random);
             var p := NewProject("p", "u", FORM_A, domain, random, 0);
             Exec(domain, run[..3]) == EarlyStateAt(p, 3) && Exec(domain, run[..4]) == EarlyStateAt(p, 4)
    ensures var run := EarlyDelivery(domain, random);
            ReplyAt(domain, run, 3) == Smtp(Ok250) && ReplyAt(domain, run, 4) == Smtp(Temporary451)
  {
    hide Exec, GoodDomain, AddressFor, NormalizeAddress, Delivered;
    var run := EarlyDelivery(domain, random);
    var p := NewProject("p", "u", FORM_A, domain, random, 0);
    assert p.id == "p" && p.deletedAt == None && p.emailAddress == AddressFor(random, domain);
    AddressAccepted(domain, random, p);
    RcptStep(domain, random, p);
    EarlyDateDeferredForEver(domain, run, 4);
  }

  // ---------- retries ----------

  /** However often a message is deferred, and whatever else goes on, one acknowledgement
      leaves one copy more. */
  lemma {:induction false} RetriesLeaveOneCopy(domain: text, run: seq<Action>, attempts: seq<Action>, project: Id)
    requires project in Exec(domain, run).db.projects && attempts != []
    requires var address := Exec(domain, run).db.projects[project].emailAddress;
             && (forall n :: 0 < n < |attempts| ==> !Acknowledges(domain, run + attempts[..n], address))
             && Acknowledges(domain, run + attempts, address)
    ensures project in Exec(domain, run + attempts).db.projects
    ensures var before, after := Exec(domain, run).db.emails, Exec(domain, run + attempts).db.emails;
            |Mailbox(after, project)| == |Mailbox(before, project)| + 1
  {
    hide Acknowledges, Exec;
    var all := run + attempts;
    var address := Exec(domain, run).db.projects[project].emailAddress;
    assert all[..|run|] == run;
    RunEvolves(domain, all, |run|);
    MailboxIsLedger(domain, run, project);
    MailboxIsLedger(domain, all, project);
    var n := |attempts| - 1;
    forall k | 0 < k <= n ensures !Acknowledges(domain, run + attempts[..n][..k], address) {
      assert attempts[..n][..k] == attempts[..k];
    }
    LedgerUnchanged(domain, run, attempts[..n], address);
    assert all[..|all| - 1] == run + attempts[..n];
    LedgerGrows(domain, all, address);
  }

  lemma LedgerGrows(domain: text, run: seq<Action>, address: text)
    requires run != [] && Acknowledges(domain, run, address)
    ensures |Ledger(domain, run, address)| == |Ledger(domain, run[..|run| - 1], address)| + 1
  {
    hide Delivered, Recipients;
    var a := run[|run| - 1];
    assert a.Data? && a.incoming.Some?;
  }

  lemma {:induction false} LedgerUnchanged(domain: text, run: seq<Action>, more: seq<Action>, address: text)
    requires forall n :: 0 < n <= |more| ==> !Acknowledges(domain, run + more[..n], address)
    ensures Ledger(domain, run + more, address) == Ledger(domain, run, address)
    decreases |more|
  {
    hide Acknowledges;
    if more == [] {
      assert run + more == run;
    } else {
      var init := more[..|more| - 1];
      forall n | 0 < n <= |init| ensures !Acknowledges(domain, run + init[..n], address) {
        assert init[..n] == more[..n];
      }
      LedgerUnchanged(domain, run, init, address);
      assert more[..|more|] == more;
      assert (run + more)[..|run + more| - 1] == run + init;
    }
  }

  // ---------- which rows exist and what they hold ----------

  /** The row announced by the last acknowledged create or update of a project that met it
      undeleted; an update acknowledged after the deletion does not count. */
  ghost function LastWrite(domain: text, run: seq<Action>, id: Id): Option<Project> {
    if run == [] then None
    else
      var init := run[..|run| - 1];
      match LastReply(domain, run)
      case Http(Created(p)) => if p.id == id then Some(p) else LastWrite(domain, init, id)
      case Http(Updated(p)) =>
        if p.id == id && Active(Exec(domain, init).db, id) then Some(p) else LastWrite(domain, init, id)
      case _ => LastWrite(domain, init, id)
  }

  predicate SameContent(p: Project, q: Project) {
    && p.id == q.id && p.userId == q.userId && p.emailAddress == q.emailAddress
    && p.title == q.title && p.description == q.description && p.status == q.status
  }

  lemma MailTouchesNoProject(domain: text, s: System, a: Action)
    requires a.Connect? || a.Mail? || a.Rcpt? || a.Data? || a.Reset?
    ensures SmtpStep(domain, s, a).next.db.projects == s.db.projects && !SmtpStep(domain, s, a).reply.Http?
  {
    hide Lookup, Distinct, RowsFor, Insertable, Numbered;
  }

  lemma StartTouchesNoProject(s: System, a: Action)
    requires a.StartCreate? || a.StartUpdate? || a.StartDelete? || a.StartList?
    ensures StartStep(s, a).next.db == s.db
    ensures StartStep(s, a).reply.Http? ==> StartStep(s, a).reply.http.Failed?
  {
    hide SelectOwned, ValidUpdate;
  }

  /** Only three kinds of statement write to the projects table. */
  lemma ProjectsUntouched(domain: text, s: System, a: Action)
    requires !a.TryInsert? && !a.WriteUpdate? && !a.WriteDelete?
    ensures var Outcome(t, reply) := Step(domain, s, a);
            t.db.projects == s.db.projects && (reply.Http? ==> !reply.http.Created? && !reply.http.Updated?)
  {
    hide SmtpStep, StartStep, SelectOwned, IsPage;
    if a.Connect? || a.Mail? || a.Rcpt? || a.Data? || a.Reset? {
      MailTouchesNoProject(domain, s, a);
    } else if a.StartCreate? || a.StartUpdate? || a.StartDelete? || a.StartList? {
      StartTouchesNoProject(s, a);
    }
  }

  /** What one step may do to one row, given the answer to it: a create adds the row it
      announces, an update rewrites the contents of its row if that is active, and nothing else
      changes contents. */
  ghost predicate RowFollows(a: Db, b: Db, reply: Reply, id: Id) {
    match reply
    case Http(Created(p)) =>
      && (id in b.projects <==> id in a.projects || id == p.id)
      && (id in b.projects ==> b.projects[id] == if id == p.id then p else a.projects[id])
    case Http(Updated(p)) =>
      && (id in b.projects <==> id in a.projects)
      && (id in b.projects ==>
            if id == p.id && Active(a, id) then SameContent(b.projects[id], p) else b.projects[id] == a.projects[id])
    case _ =>
      && (id in b.projects <==> id in a.projects)
      && (id in b.projects ==> SameContent(b.projects[id], a.projects[id]))
  }

  lemma CreateFollows(domain: text, s: System, rid: Id, c: Chance, id: Id)
    ensures RowFollows(s.db, CreateStep(domain, s, rid, c).next.db, CreateStep(domain, s, rid, c).reply, id)
  {
    hide Storable, Taken, AddressFor;
  }

  lemma UpdateFollows(s: System, rid: Id, now: int, fault: bool, id: Id)
    requires HandlersOk(s) && Keyed(s.db.projects)
    ensures RowFollows(s.db, UpdateStep(s, rid, now, fault).next.db, UpdateStep(s, rid, now, fault).reply, id)
  {
    hide Storable, ValidUpdate;
    assert rid in s.handlers ==> HandlerOk(s.db, s.handlers[rid]);
  }

  lemma DeleteFollows(s: System, rid: Id, now: int, fault: bool, id: Id)
    ensures RowFollows(s.db, DeleteStep(s, rid, now, fault).next.db, DeleteStep(s, rid, now, fault).reply, id)
  {
  }

  lemma RowStep(domain: text, s: System, a: Action, id: Id)
    requires Inv(s)
    ensures RowFollows(s.db, Step(domain, s, a).next.db, Step(domain, s, a).reply, id)
  {
    hide CreateStep, UpdateStep, DeleteStep, ListStep, GetStep, StartStep, SmtpStep;
    if a.TryInsert? {
      CreateFollows(domain, s, a.rid, a.chance, id);
    } else if a.WriteUpdate? {
      UpdateFollows(s, a.rid, a.now, a.fault, id);
    } else if a.WriteDelete? {
      DeleteFollows(s, a.rid, a.now, a.fault, id);
    } else {
      hide Step;
      ProjectsUntouched(domain, s, a);
    }
  }

  /** The table holds exactly the projects whose creation was acknowledged, each with its
      title, description and status whole from the last acknowledged write that met it
      undeleted, and still with the owner and address it was created with. */
  lemma {:induction false} TableIsLastWrites(domain: text, run: seq<Action>, id: Id)
    ensures id in Exec(domain, run).db.projects <==> LastWrite(domain, run, id).Some?
    ensures id in Exec(domain, run).db.projects ==>
              SameContent(Exec(domain, run).db.projects[id], LastWrite(domain, run, id).value)
    decreases |run|
  {
    hide Step, Inv;
    if run != [] {
      var init, a := run[..|run| - 1], run[|run| - 1];
      TableIsLastWrites(domain, init, id);
      AlwaysRouted(domain, init);
      RowStep(domain, Exec(domain, init), a, id);
    }
  }

  /** A step changes an existing row only on behalf of the user who owns it, by the pending
      update or delete of that very project. */
  lemma OnlyOwnRowsChange(domain: text, s: System, a: Action, id: Id)
    requires Inv(s) && id in s.db.projects
    ensures var t := Step(domain, s, a).next;
            && id in t.db.projects
            && (t.db.projects[id] != s.db.projects[id] ==>
                  && (a.WriteUpdate? || a.WriteDelete?) && a.rid in s.handlers
                  && var h := s.handlers[a.rid];
                     && (h.Updating? || h.Deleting?)
                     && h.row.id == id && h.user == s.db.projects[id].userId
                     && s.db.projects[id].deletedAt.None?)
  {
    hide Storable, AddressFor, EmailsRouted, SessionsRouted, AddressesUnique, Taken;
    if a.TryInsert? {
      assert Step(domain, s, a) == CreateStep(domain, s, a.rid, a.chance);
    } else if a.WriteUpdate? {
      assert Step(domain, s, a) == UpdateStep(s, a.rid, a.now, a.fault);
      assert a.rid in s.handlers ==> HandlerOk(s.db, s.handlers[a.rid]);
    } else if a.WriteDelete? {
      assert Step(domain, s, a) == DeleteStep(s, a.rid, a.now, a.fault);
      assert a.rid in s.handlers ==> HandlerOk(s.db, s.handlers[a.rid]);
    } else {
      hide Step;
      ProjectsUntouched(domain, s, a);
    }
  }

  // ---------- what an acknowledged update means ----------

  /** The owner asking for the project is now shown what was announced. */
  predicate TookEffect(db: Db, p: Project) {
    var shown := SelectOwned(db, p.id, p.userId);
    shown.Some? && SameContent(shown.value, p)
  }

  /** An update answered with 200 took effect if and only if the project had not been
      deleted between the request's SELECT and its UPDATE; otherwise it changed nothing. */
  lemma UpdateTookEffectIff(domain: text, run: seq<Action>, a: Action)
    requires a.WriteUpdate?
    requires Step(domain, Exec(domain, run), a).reply.Http? && Step(domain, Exec(domain, run), a).reply.http.Updated?
    ensures var s := Exec(domain, run);
            var t, p := Step(domain, s, a).next, Step(domain, s, a).reply.http.updated;
            && p.id in s.db.projects
            && (TookEffect(t.db, p) <==> Active(s.db, p.id))
            && (TookEffect(t.db, p) || t.db == s.db)
  {
    hide Storable, EmailsRouted, SessionsRouted, AddressesUnique;
    var s := Exec(domain, run);
    AlwaysRouted(domain, run);
    assert Step(domain, s, a) == UpdateStep(s, a.rid, a.now, a.fault);
    assert HandlerOk(s.db, s.handlers[a.rid]);
  }

  /** The race is real: create, read for update, delete in between, and the update is
      acknowledged although the row keeps its old title. */
  lemma AcknowledgedUpdateCanBeLost(domain: text, random: text)
    requires |random| == LOCAL_PART_LENGTH && Ascii(domain) && NulFree(domain)
    ensures var run := LostUpdate(random);
            && LastReply(domain, run).Http? && LastReply(domain, run).http.Updated?
            && LastReply(domain, run).http.updated.title == [98]
            && "p" in Exec(domain, run).db.projects
            && Exec(domain, run).db.projects["p"].title == [97]
  {
    hide Step, Exec, LostUpdate, NewProject;
    var run := LostUpdate(random);
    var p := NewProject("p", "u", FORM_A, domain, random, 0);
    assert run[..6] == run && run[..|run| - 1] == run[..5];
    LostPrefix(domain, random, 5);
    LostPrefix(domain, random, 6);
    NewFields("p", "u", FORM_A, domain, random, 0);
    LostUpdateWrites(domain, random, p);
  }

  const FORM_A: Form := Form([97], [97], "pending")
  const FORM_B: Form := Form([98], [98], "pending")

  lemma NewFields(id: Id, user: Id, form: Form, domain: text, random: text, now: int)
    ensures var p := NewProject(id, user, form, domain, random, now);
            p.id == id && p.userId == user && p.title == form.name && p.deletedAt == None
  {
  }

  /** The states of that run, one after another. */
  ghost function LostStateAt(p: Project, n: nat): System {
    var here, gone := Db(map["p" := p], []), Db(map["p" := p.(deletedAt := Some(1))], []);
    var updating := map["w" := Updating("u", p, FORM_B)];
    match n
    case 0 => START
    case 1 => System(EMPTY_DB, map[], map["c" := Creating("u", FORM_A, 0)])
    case 2 => System(here, map[], map[])
    case 3 => System(here, map[], updating)
    case 4 => System(here, map[], updating["d" := Deleting("u", p)])
    case 5 => System(gone, map[], updating)
    case _ => System(gone, map[], map[])
  }

  lemma LostTransition(domain: text, random: text, n: nat)
    requires |random| == LOCAL_PART_LENGTH && Ascii(domain) && NulFree(domain) && n < 6
    ensures var p := NewProject("p", "u", FORM_A, domain, random, 0);
            Step(domain, LostStateAt(p, n), LostUpdate(random)[n]).next == LostStateAt(p, n + 1)
  {
    hide Step, LostUpdate, NewProject;
    var p := NewProject("p", "u", FORM_A, domain, random, 0);
    GeneratedIsStorable(random, domain);
    LostUpdateCreates(domain, random);
    NewFields("p", "u", FORM_A, domain, random, 0);
    LostUpdateReads(domain, random, p);
    LostUpdateWrites(domain, random, p);
  }

  lemma {:induction false} LostPrefix(domain: text, random: text, n: nat)
    requires |random| == LOCAL_PART_LENGTH && Ascii(domain) && NulFree(domain) && n <= 6
    ensures Exec(domain, LostUpdate(random)[..n])
            == LostStateAt(NewProject("p", "u", FORM_A, domain, random, 0), n)
    decreases n
  {
    hide Step, LostUpdate, LostStateAt, NewProject;
    var run := LostUpdate(random);
    if n == 0 {
      LostStart(NewProject("p", "u", FORM_A, domain, random, 0));
    } else {
      LostPrefix(domain, random, n - 1);
      LostTransition(domain, random, n - 1);
      assert run[..n][..n - 1] == run[..n - 1] && run[..n][n - 1] == run[n - 1];
    }
  }

  lemma LostStart(p: Project)
    ensures LostStateAt(p, 0) == START
  {
  }

  lemma LostUpdateCreates(domain: text, random: text)
    requires |random| == LOCAL_PART_LENGTH && Storable(AddressFor(random, domain))
    ensures var p := NewProject("p", "u", FORM_A, domain, random, 0);
            var run := LostUpdate(random);
            var creating := System(EMPTY_DB, map[], map["c" := Creating("u", FORM_A, 0)]);
            && Step(domain, START, run[0]).next == creating
            && Step(domain, creating, run[1]).next == System(Db(map["p" := p], []), map[], map[])
  {
    hide AddressFor;
    AsciiIsStorable([97]);
    var p := NewProject("p", "u", FORM_A, domain, random, 0);
    assert InsertProject(EMPTY_DB, p) == Ok(Db(map["p" := p], []));
    var creating := System(EMPTY_DB, map[], map["c" := Creating("u", FORM_A, 0)]);
    assert creating.handlers - {"c"} == map[];
    assert Step(domain, creating, LostUpdate(random)[1])
        == CreateStep(domain, creating, "c", Chance(Some(random), "p", 0, false));
  }

  lemma LostUpdateReads(domain: text, random: text, p: Project)
    requires p.id == "p" && p.userId == "u" && p.deletedAt == None
    ensures var run := LostUpdate(random);
            var here := Db(map["p" := p], []);
            var updating := map["w" := Updating("u", p, FORM_B)];
            && Step(domain, System(here, map[], map[]), run[2]).next == System(here, map[], updating)
            && Step(domain, System(here, map[], updating), run[3]).next
               == System(here, map[], updating["d" := Deleting("u", p)])
  {
    assert TrimSpace([98]) == [98];
  }

  lemma LostUpdateWrites(domain: text, random: text, p: Project)
    requires p.id == "p" && p.userId == "u" && p.deletedAt == None
    ensures var run := LostUpdate(random);
            var here, gone := Db(map["p" := p], []), Db(map["p" := p.(deletedAt := Some(1))], []);
            var updating := map["w" := Updating("u", p, FORM_B)];
            && Step(domain, System(here, map[], updating["d" := Deleting("u", p)]), run[4]).next
               == System(gone, map[], updating)
            && Step(domain, System(gone, map[], updating), run[5])
               == Outcome(System(gone, map[], map[]), Http(Updated(Edited(p, FORM_B, 2))))
  {
    AsciiIsStorable([98]);
    hide Storable;
    var updating := map["w" := Updating("u", p, FORM_B)];
    assert updating["d" := Deleting("u", p)] - {"d"} == updating;
    assert updating - {"w"} == map[];
  }

  ghost function LostUpdate(random: text): (run: seq<Action>)
    ensures |run| == 6
  {
    [StartCreate("c", "u", FORM_A),
     TryInsert("c", Chance(Some(random), "p", 0, false)),
     StartUpdate("w", "u", "p", FORM_B, false),
     StartDelete("d", "u", "p", false),
     WriteDelete("d", 1, false),
     WriteUpdate("w", 2, false)]
  }

  // ---------- what an acknowledged delete means ----------

  /** A delete answered with 204 has taken effect, whoever deleted first. */
  lemma DeleteTookEffect(domain: text, run: seq<Action>, a: Action)
    requires a.WriteDelete? && Step(domain, Exec(domain, run), a).reply == Http(NoContent)
    ensures var s := Exec(domain, run);
            && a.rid in s.handlers && s.handlers[a.rid].Deleting?
            && var t, id := Step(domain, s, a).next, s.handlers[a.rid].row.id;
               && id in t.db.projects && !Active(t.db, id)
               && (Active(s.db, id) ==> t.db.projects[id] == s.db.projects[id].(deletedAt := Some(a.now)))
  {
    hide SchemaHolds, EmailsRouted, SessionsRouted;
    var s := Exec(domain, run);
    AlwaysRouted(domain, run);
    assert Step(domain, s, a) == DeleteStep(s, a.rid, a.now, a.fault);
    assert HandlerOk(s.db, s.handlers[a.rid]);
  }

  /** From then on, for ever: the row stays as it is, no user's request finds it, and mail
      to any spelling of its address is refused for good. */
  lemma DeletedForEver(domain: text, run: seq<Action>, i: nat, id: Id, user: Id, to: text)
    requires i <= |run| && id in Before(domain, run, i).db.projects && !Active(Before(domain, run, i).db, id)
    ensures var db := Exec(domain, run).db;
            && id in db.projects && db.projects[id] == Before(domain, run, i).db.projects[id]
            && SelectOwned(db, id, user) == None
            && (NormalizeAddress(to) == db.projects[id].emailAddress ==>
                  RcptReply(db, NormalizeAddress(domain), to, false) == NoMailbox550)
  {
    hide NormalizeAddress, AddressDomain, Exec, HandlersOk, SessionsRouted, EmailsRouted;
    RunEvolves(domain, run, i);
    AlwaysRouted(domain, run);
    var db := Exec(domain, run).db;
    var before, after := Before(domain, run, i).db.projects[id], db.projects[id];
    assert RowEvolves(before, after);
  }

  // ---------- which addresses work ----------

  ghost predicate Generated(domain: text, address: text) {
    exists random: text :: |random| == LOCAL_PART_LENGTH && address == AddressFor(random, domain)
  }

  /** Every address in the table was generated under the configured domain. */
  lemma {:induction false} AddressesGenerated(domain: text, run: seq<Action>, id: Id)
    requires id in Exec(domain, run).db.projects
    ensures Generated(domain, Exec(domain, run).db.projects[id].emailAddress)
    decreases |run|
  {
    hide Step, Inv, AddressFor;
    var init, a := run[..|run| - 1], run[|run| - 1];
    var s := Exec(domain, init);
    AlwaysRouted(domain, init);
    StepKeepsInv(domain, s, a);
    if id in s.db.projects {
      AddressesGenerated(domain, init, id);
      assert RowEvolves(s.db.projects[id], Exec(domain, run).db.projects[id]);
    } else {
      ProjectAppears(domain, s, a, id);
      CreatedIsGenerated(domain, s, a);
    }
  }

  lemma CreatedIsGenerated(domain: text, s: System, a: Action)
    requires a.TryInsert? && Step(domain, s, a).reply.Http? && Step(domain, s, a).reply.http.Created?
    ensures Generated(domain, Step(domain, s, a).reply.http.created.emailAddress)
  {
    hide AddressFor, InsertProject;
    assert Step(domain, s, a) == CreateStep(domain, s, a.rid, a.chance);
  }

  /** Under a good domain, RCPT to a project's address, in any letter case, with whitespace
      around it and either angle bracket present or not, is accepted exactly while the
      project is not deleted. */
  lemma DecoratedAddressAccepted(domain: text, run: seq<Action>, id: Id,
                                 before: text, open: text, typed: text, close: text, after: text)
    requires Ascii(domain) && GoodDomain(domain) && id in Exec(domain, run).db.projects
    requires AllSpace(before) && AllSpace(after)
    requires Bracket(open, OPEN_ANGLE) && Bracket(close, CLOSE_ANGLE)
    requires ToLower(typed) == Exec(domain, run).db.projects[id].emailAddress
    ensures var db := Exec(domain, run).db;
            var to := before + (open + typed + close) + after;
            var found := Lookup(db, NormalizeAddress(domain), to, false);
            && found.Ok?
            && (found.value == Some(id) <==> Active(db, id))
            && (found.value == None <==> !Active(db, id))
  {
    hide NormalizeAddress, AddressFor, GoodDomain, AllSpace, ToLower;
    var db := Exec(domain, run).db;
    AlwaysRouted(domain, run);
    AddressesGenerated(domain, run, id);
    var address := db.projects[id].emailAddress;
    var random: text :| |random| == LOCAL_PART_LENGTH && address == AddressFor(random, domain);
    GeneratedRoundTrip(random, domain, before, open, typed, close, after);
    OwnerIsUnique(db, address, id);
  }

  /** An active project receives mail sent to its own address if and only if the configured
      domain is a good one. */
  lemma OwnAddressWorksIff(domain: text, run: seq<Action>, id: Id)
    requires Ascii(domain) && Active(Exec(domain, run).db, id)
    ensures var db := Exec(domain, run).db;
            Lookup(db, NormalizeAddress(domain), db.projects[id].emailAddress, false) == Ok(Some(id))
            <==> GoodDomain(domain)
  {
    hide NormalizeAddress, AddressFor, GoodDomain, AddressDomain;
    var db := Exec(domain, run).db;
    AlwaysRouted(domain, run);
    AddressesGenerated(domain, run, id);
    var address := db.projects[id].emailAddress;
    var random: text :| |random| == LOCAL_PART_LENGTH && address == AddressFor(random, domain);
    OwnAddressRecognised(random, domain);
    OwnerIsUnique(db, NormalizeAddress(address), id);
  }

  // ---------- who can read a message ----------

  lemma {:induction false} RowsAsSet(rows: seq<Email>)
    requires DistinctIds(rows)
    ensures |set e | e in rows| == |rows|
    decreases |rows|
  {
    if rows == [] {
      assert (set e | e in rows) == {};
    } else {
      var init, last := rows[..|rows| - 1], rows[|rows| - 1];
      RowsAsSet(init);
      assert rows == init + [last];
      assert (set e | e in rows) == (set e | e in init) + {last};
      assert last !in init;
    }
  }

  /** Up to a hundred messages are all listed; beyond that every message left out is no
      newer than any that is shown. */
  lemma PageIsComplete(domain: text, run: seq<Action>, id: Id, page: seq<Email>)
    requires IsPage(Exec(domain, run).db, id, page)
    ensures var box := Mailbox(Exec(domain, run).db.emails, id);
            if |box| <= PAGE_SIZE then forall e :: e in box ==> e in page
            else |page| == PAGE_SIZE && forall e, f :: e in box && e !in page && f in page ==> f.receivedAt >= e.receivedAt
  {
    hide Exec, EmailsRouted, SessionsRouted, HandlersOk;
    var db := Exec(domain, run).db;
    var box := Mailbox(db.emails, id);
    AlwaysRouted(domain, run);
    MailboxDistinct(db.emails, id);
    if |box| <= PAGE_SIZE {
      RowsAsSet(page);
      RowsAsSet(box);
      var shown, all := set e | e in page, set e | e in box;
      assert shown <= all;
      SameSizeSubset(shown, all);
      forall e | e in box ensures e in page {
        assert e in all;
      }
    }
  }

  lemma SameSizeSubset<T>(a: set<T>, b: set<T>)
    requires a <= b && |a| == |b|
    ensures a == b
  {
    assert b == a + (b - a);
    assert |b - a| == 0;
  }

  /** Action `j` is an acknowledged message whose transaction named the address, and left
      the row `e`. */
  ghost predicate SentAt(domain: text, run: seq<Action>, j: nat, address: text, e: Email)
    requires j < |run|
  {
    var a := run[j];
    && a.Data? && a.incoming.Some? && ReplyAt(domain, run, j) == Smtp(Ok250)
    && AddressedTo(domain, run[..j], a.sid, address)
    && ReceiptOf(e) == ReceiptFor(domain, run[..j], a)
  }

  /** Action `i` answered a create request with this owner, id and address. */
  ghost predicate MintedAt(domain: text, run: seq<Action>, i: nat, user: Id, id: Id, address: text)
    requires i < |run|
  {
    var reply := ReplyAt(domain, run, i);
    && reply.Http? && reply.http.Created?
    && reply.http.created.id == id && reply.http.created.userId == user && reply.http.created.emailAddress == address
  }

  lemma {:induction false} LedgerEntryWasSent(domain: text, run: seq<Action>, address: text, e: Email)
    requires ReceiptOf(e) in Ledger(domain, run, address)
    ensures exists j :: 0 <= j < |run| && SentAt(domain, run, j, address, e)
    decreases |run|
  {
    hide AddressedTo, ReceiptFor;
    var n := |run| - 1;
    var init := run[..n];
    if ReceiptOf(e) in Ledger(domain, init, address) {
      LedgerEntryWasSent(domain, init, address, e);
      var j :| 0 <= j < |init| && SentAt(domain, init, j, address, e);
      assert init[..j] == run[..j];
      assert SentAt(domain, run, j, address, e);
    } else {
      assert SentAt(domain, run, n, address, e);
    }
  }

  lemma {:induction false} ProjectWasMinted(domain: text, run: seq<Action>, id: Id)
    requires id in Exec(domain, run).db.projects
    ensures var p := Exec(domain, run).db.projects[id];
            exists i :: 0 <= i < |run| && MintedAt(domain, run, i, p.userId, id, p.emailAddress)
    decreases |run|
  {
    hide Step, Inv;
    var n := |run| - 1;
    var init, a := run[..n], run[n];
    var s := Exec(domain, init);
    var p := Exec(domain, run).db.projects[id];
    AlwaysRouted(domain, init);
    StepKeepsInv(domain, s, a);
    if id in s.db.projects {
      ProjectWasMinted(domain, init, id);
      assert RowEvolves(s.db.projects[id], p);
      var i :| 0 <= i < |init| && MintedAt(domain, init, i, p.userId, id, p.emailAddress);
      assert init[..i] == run[..i];
      assert MintedAt(domain, run, i, p.userId, id, p.emailAddress);
    } else {
      ProjectAppears(domain, s, a, id);
      assert MintedAt(domain, run, n, p.userId, id, p.emailAddress);
    }
  }

  /** A pending list request looked its project up at some earlier step, for its own user
      and while the project was not deleted. */
  ghost predicate LookedUpAt(domain: text, run: seq<Action>, k: nat, rid: Id, user: Id, id: Id)
    requires k < |run|
  {
    && run[k] == StartList(rid, user, id, false)
    && SelectOwned(Before(domain, run, k).db, id, user).Some?
  }

  lemma ListingStep(domain: text, s: System, a: Action, rid: Id)
    requires var t := Step(domain, s, a).next; rid in t.handlers && t.handlers[rid].Listing?
    ensures var h := Step(domain, s, a).next.handlers[rid];
            if rid in s.handlers && s.handlers[rid] == h then true
            else Inv(s) ==> a == StartList(rid, h.user, h.row.id, false) && SelectOwned(s.db, h.row.id, h.user).Some?
  {
    hide Lookup, Delivered, TryCreate, AfterTry, UpdateProject, SoftDelete, IsPage, ValidUpdate;
    hide EmailsRouted, SessionsRouted, AddressesUnique, HandlersOk;
  }

  lemma {:induction false} ListingWasLookedUp(domain: text, run: seq<Action>, rid: Id)
    requires rid in Exec(domain, run).handlers && Exec(domain, run).handlers[rid].Listing?
    ensures var h := Exec(domain, run).handlers[rid];
            exists k :: 0 <= k < |run| && LookedUpAt(domain, run, k, rid, h.user, h.row.id)
    decreases |run|
  {
    hide Step, Inv, SelectOwned;
    var n := |run| - 1;
    var init, a := run[..n], run[n];
    var s := Exec(domain, init);
    var h := Exec(domain, run).handlers[rid];
    AlwaysRouted(domain, init);
    ListingStep(domain, s, a, rid);
    if rid in s.handlers && s.handlers[rid] == h {
      ListingWasLookedUp(domain, init, rid);
      var k :| 0 <= k < |init| && LookedUpAt(domain, init, k, rid, h.user, h.row.id);
      assert init[..k] == run[..k];
      assert LookedUpAt(domain, run, k, rid, h.user, h.row.id);
    } else {
      assert LookedUpAt(domain, run, n, rid, h.user, h.row.id);
    }
  }

  /** Where a listed row comes from: it is a stored message `e` without its raw bytes; the
      list request looked its project up, undeleted, for this user; the user created that
      project; and the message was acknowledged for the address the project was given. */
  ghost predicate Provenance(domain: text, run: seq<Action>, rid: Id, row: Email, e: Email, user: Id) {
    && e in Exec(domain, run).db.emails && row == e.(rawMessage := [])
    && (exists k :: 0 <= k < |run| && LookedUpAt(domain, run, k, rid, user, e.projectId))
    && (exists i :: 0 <= i < |run| && MintedAt(domain, run, i, user, e.projectId, e.envelopeTo))
    && (exists j :: 0 <= j < |run| && SentAt(domain, run, j, e.envelopeTo, e))
  }

  lemma ListAnswer(domain: text, s: System, a: Action)
    requires a.FinishList? && Step(domain, s, a).reply.Http? && Step(domain, s, a).reply.http.Emails?
    ensures a.rid in s.handlers && s.handlers[a.rid].Listing?
    ensures IsPage(s.db, s.handlers[a.rid].row.id, a.page)
    ensures Step(domain, s, a).reply.http.rows == Listed(a.page)
  {
    hide IsPage;
  }

  /** Every email a list request shows has that provenance, for the user of the request. */
  lemma ListedEmailsProvenance(domain: text, run: seq<Action>, a: Action, row: Email)
    requires a.FinishList? && Step(domain, Exec(domain, run), a).reply.Http?
    requires Step(domain, Exec(domain, run), a).reply.http.Emails?
    requires row in Step(domain, Exec(domain, run), a).reply.http.rows
    ensures a.rid in Exec(domain, run).handlers && Exec(domain, run).handlers[a.rid].Listing?
    ensures exists e :: Provenance(domain, run, a.rid, row, e, Exec(domain, run).handlers[a.rid].user)
  {
    hide SentAt, MintedAt, LookedUpAt, Ledger, Exec, Step, SchemaHolds, SessionsRouted, IsPage, Mailbox, Receipts;
    var s := Exec(domain, run);
    ListAnswer(domain, s, a);
    var h := s.handlers[a.rid];
    AlwaysRouted(domain, run);
    var e := ListedRow(s, h.row.id, a.page, row);
    assert HandlerOk(s.db, h);
    ListingWasLookedUp(domain, run, a.rid);
    ProjectWasMinted(domain, run, e.projectId);
    MailboxIsLedger(domain, run, e.projectId);
    InReceipts(Mailbox(s.db.emails, e.projectId), e);
    LedgerEntryWasSent(domain, run, e.envelopeTo, e);
    assert Provenance(domain, run, a.rid, row, e, h.user);
  }

  lemma ListedRow(s: System, id: Id, page: seq<Email>, row: Email) returns (e: Email)
    requires IsPage(s.db, id, page) && row in Listed(page)
    ensures e in s.db.emails && e in Mailbox(s.db.emails, id) && e.projectId == id && row == e.(rawMessage := [])
  {
    var i :| 0 <= i < |page| && Listed(page)[i] == row;
    e := page[i];
    assert e in page;
  }

  lemma InReceipts(rows: seq<Email>, e: Email)
    requires e in rows
    ensures ReceiptOf(e) in Receipts(rows)
  {
    var i :| 0 <= i < |rows| && rows[i] == e;
    assert Receipts(rows)[i] == ReceiptOf(e);
  }
}
