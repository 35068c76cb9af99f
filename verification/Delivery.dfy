/** What senders and project owners can rely on over whole runs of the mail application,
    told in terms of the callbacks made and the answers given. */
module Delivery {
  import opened Prelude
  import opened Text
  import opened Parse
  import opened Database
  import opened InboundStore
  import opened MailServer
  import opened Projects
  import opened MailSystem
  import opened Address

  /** The answer to the last action of a non-empty run. */
  ghost function LastReply(domain: text, run: seq<Action>): Reply
    requires run != []
  {
    Step(domain, Exec(domain, run[..|run| - 1]), run[|run| - 1]).reply
  }

  // ---------- sessions do not leak into each other ----------

  predicate Restarts(a: Action, sid: Id) {
    (a.Connect? || a.Reset?) && a.sid == sid
  }

  /** Number of actions up to and including the last one that restarted the session. */
  function LastStart(run: seq<Action>, sid: Id): (n: nat)
    ensures n <= |run|
  {
    if run == [] then 0
    else if Restarts(run[|run| - 1], sid) then |run|
    else LastStart(run[..|run| - 1], sid)
  }

  /** The addresses this session was told 250 for, among the actions from `lo` on. */
  ghost function AcceptedTo(domain: text, run: seq<Action>, sid: Id, lo: nat): seq<text> {
    if |run| <= lo then []
    else
      var init, a := run[..|run| - 1], run[|run| - 1];
      AcceptedTo(domain, init, sid, lo)
      + (if a.Rcpt? && a.sid == sid && LastReply(domain, run) == Smtp(Ok250) then [a.to] else [])
  }

  /** The reverse-path of the latest accepted MAIL of this session from `lo` on. */
  ghost function LatestMail(domain: text, run: seq<Action>, sid: Id, lo: nat): text {
    if |run| <= lo then []
    else
      var init, a := run[..|run| - 1], run[|run| - 1];
      if a.Mail? && a.sid == sid && LastReply(domain, run) == Smtp(Ok250) then a.from
      else LatestMail(domain, init, sid, lo)
  }

  ghost function Recipients(domain: text, run: seq<Action>, sid: Id): seq<text> {
    AcceptedTo(domain, run, sid, LastStart(run, sid))
  }

  ghost function Sender(domain: text, run: seq<Action>, sid: Id): text {
    LatestMail(domain, run, sid, LastStart(run, sid))
  }

  function Addresses(recipients: seq<Recipient>): (r: seq<text>)
    ensures |r| == |recipients|
    ensures forall i :: 0 <= i < |r| ==> r[i] == recipients[i].address
  {
    seq(|recipients|, i requires 0 <= i < |recipients| => recipients[i].address)
  }

  /** What one session remembers is its own history since its last restart, whatever all
      the others do: the accepted recipients in order, and the latest sender. */
  ghost predicate Remembers(domain: text, run: seq<Action>, sid: Id) {
    var s := Exec(domain, run);
    if sid in s.sessions then
      Addresses(s.sessions[sid].recipients) == Recipients(domain, run, sid)
      && s.sessions[sid].from == Sender(domain, run, sid)
    else Recipients(domain, run, sid) == [] && Sender(domain, run, sid) == []
  }

  lemma OtherActions(domain: text, s: System, a: Action, sid: Id)
    requires !((a.Mail? || a.Rcpt? || a.Connect? || a.Reset?) && a.sid == sid)
    ensures var t := Step(domain, s, a).next;
            (sid in t.sessions <==> sid in s.sessions)
            && (sid in s.sessions ==> t.sessions[sid] == s.sessions[sid])
  {
  }

  lemma {:induction false} SessionIsolation(domain: text, run: seq<Action>, sid: Id)
    ensures Remembers(domain, run, sid)
    decreases |run|
  {
    if run != [] {
      var init, a := run[..|run| - 1], run[|run| - 1];
      var s := Exec(domain, init);
      SessionIsolation(domain, init, sid);
      if Restarts(a, sid) {
        RestartForgets(domain, run, sid);
      } else if (a.Mail? || a.Rcpt?) && a.sid == sid {
        OwnCommand(domain, run, sid);
      } else {
        OtherActions(domain, s, a, sid);
        NothingAccepted(domain, run, sid);
      }
    }
  }

  lemma RestartForgets(domain: text, run: seq<Action>, sid: Id)
    requires run != [] && Restarts(run[|run| - 1], sid)
    ensures Remembers(domain, run, sid)
  {
    assert LastStart(run, sid) == |run|;
  }

  lemma NothingAccepted(domain: text, run: seq<Action>, sid: Id)
    requires run != [] && !Restarts(run[|run| - 1], sid)
    requires !((run[|run| - 1].Mail? || run[|run| - 1].Rcpt?) && run[|run| - 1].sid == sid)
    ensures Recipients(domain, run, sid) == Recipients(domain, run[..|run| - 1], sid)
    ensures Sender(domain, run, sid) == Sender(domain, run[..|run| - 1], sid)
  {
    assert Recipients(domain, run, sid) == Recipients(domain, run[..|run| - 1], sid) + [];
  }

  /** A session's own MAIL and RCPT, in one state. */
  lemma OwnStep(domain: text, s: System, a: Action)
    requires a.Mail? || a.Rcpt?
    ensures var Outcome(t, reply) := Step(domain, s, a);
            if a.sid !in s.sessions then t == s && reply == Silent
            else
              var before := s.sessions[a.sid];
              && a.sid in t.sessions
              && var after := t.sessions[a.sid];
              && (a.Mail? ==> reply == Smtp(Ok250) && after == before.(from := a.from))
              && (a.Rcpt? ==> if reply == Smtp(Ok250)
                              then exists id :: after == before.(recipients := before.recipients + [Recipient(a.to, id)])
                              else after == before)
  {
    hide Lookup;
    if a.Rcpt? && a.sid in s.sessions {
      var found := Lookup(s.db, NormalizeAddress(domain), a.to, a.fault);
      var before := s.sessions[a.sid];
      if found.Ok? && found.value.Some? {
        assert Step(domain, s, a).next.sessions[a.sid]
            == before.(recipients := before.recipients + [Recipient(a.to, found.value.value)]);
      }
    }
  }

  lemma OwnCommand(domain: text, run: seq<Action>, sid: Id)
    requires run != [] && Remembers(domain, run[..|run| - 1], sid)
    requires (run[|run| - 1].Mail? || run[|run| - 1].Rcpt?) && run[|run| - 1].sid == sid
    ensures Remembers(domain, run, sid)
  {
    hide Step;
    var init, a := run[..|run| - 1], run[|run| - 1];
    var s, t := Exec(domain, init), Exec(domain, run);
    OwnStep(domain, s, a);
    assert LastStart(run, sid) == LastStart(init, sid);
    var known := Recipients(domain, init, sid);
    assert known + [] == known;
    if a.Rcpt? && LastReply(domain, run) == Smtp(Ok250) {
      assert Addresses(t.sessions[sid].recipients) == Addresses(s.sessions[sid].recipients) + [a.to];
    }
  }

  // ---------- exactly one copy per acknowledged message ----------

  /** What a stored row says about the message it came from, and when it came. */
  datatype Receipt = Receipt(from: text, parsed: ParsedEmail, raw: text, receivedAt: int)

  function ReceiptOf(e: Email): Receipt {
    Receipt(e.envelopeFrom, e.parsed, e.rawMessage, e.receivedAt)
  }

  function Receipts(rows: seq<Email>): (r: seq<Receipt>)
    ensures |r| == |rows| && forall i :: 0 <= i < |r| ==> r[i] == ReceiptOf(rows[i])
  {
    seq(|rows|, i requires 0 <= i < |rows| => ReceiptOf(rows[i]))
  }

  /** The session's transaction names an address, in whatever spelling. */
  ghost predicate AddressedTo(domain: text, run: seq<Action>, sid: Id, address: text) {
    HasKey(Recipients(domain, run, sid), NormalizeAddress, address)
  }

  /** The last action of the run is an acknowledged message to an address. */
  ghost predicate Acknowledges(domain: text, run: seq<Action>, address: text)
    requires run != []
  {
    var init, a := run[..|run| - 1], run[|run| - 1];
    a.Data? && LastReply(domain, run) == Smtp(Ok250) && AddressedTo(domain, init, a.sid, address)
  }

  ghost function ReceiptFor(domain: text, init: seq<Action>, a: Action): Receipt
    requires a.Data? && a.incoming.Some?
  {
    Receipt(CleanText(Sender(domain, init, a.sid)), Parsed(a.incoming.value.message), a.incoming.value.raw, a.now)
  }

  /** Every message acknowledged with 250 whose transaction named the address, in order. */
  ghost function Ledger(domain: text, run: seq<Action>, address: text): seq<Receipt> {
    if run == [] then []
    else
      var init, a := run[..|run| - 1], run[|run| - 1];
      Ledger(domain, init, address)
      + (if Acknowledges(domain, run, address) && a.incoming.Some? then [ReceiptFor(domain, init, a)] else [])
  }

  lemma {:induction false} MailboxConcat(a: seq<Email>, b: seq<Email>, project: Id)
    ensures Mailbox(a + b, project) == Mailbox(a, project) + Mailbox(b, project)
    decreases |b|
  {
    if b == [] {
      assert a + b == a;
    } else {
      var init := b[..|b| - 1];
      assert (a + b)[..|a + b| - 1] == a + init;
      MailboxConcat(a, init, project);
    }
  }

  /** The rows of one delivery hold the message once for every project it names. */
  lemma {:induction false} OneRowPerProject(recipients: seq<Recipient>, from: text, m: Incoming,
                                            ids: seq<Id>, now: int, project: Id)
    requires |Distinct(recipients, ProjectOf)| <= |ids|
    ensures var rows := Numbered(RowsFor(Distinct(recipients, ProjectOf), from, m), ids, now);
            Receipts(Mailbox(rows, project))
            == if HasKey(recipients, ProjectOf, project)
               then [Receipt(CleanText(from), Parsed(m.message), m.raw, now)] else []
    decreases |recipients|
  {
    hide CleanText, Parsed, NormalizeAddress, Numbered, RowsFor;
    if recipients != [] {
      var init, last := recipients[..|recipients| - 1], recipients[|recipients| - 1];
      assert recipients == init + [last];
      OneRowPerProject(init, from, m, ids, now, project);
      KeyOfMore(init, last, ProjectOf, project);
      if !HasKey(init, ProjectOf, last.projectId) {
        OneMoreRow(Distinct(init, ProjectOf), last, from, m, ids, now, project);
      }
    } else {
      assert Numbered(RowsFor([], from, m), ids, now) == [];
    }
  }

  lemma OneMoreRow(d: seq<Recipient>, last: Recipient, from: text, m: Incoming,
                   ids: seq<Id>, now: int, project: Id)
    requires |d| < |ids|
    ensures Receipts(Mailbox(Numbered(RowsFor(d + [last], from, m), ids, now), project))
            == Receipts(Mailbox(Numbered(RowsFor(d, from, m), ids, now), project))
               + (if last.projectId == project then [Receipt(CleanText(from), Parsed(m.message), m.raw, now)] else [])
  {
    hide CleanText, Parsed, NormalizeAddress, Numbered, RowsFor, Mailbox;
    var rows := Numbered(RowsFor(d, from, m), ids, now);
    var row := RowFor(last, from, m).(id := ids[|d|], receivedAt := now);
    NumberedOneMore(d, last, from, m, ids, now);
    MailboxConcat(rows, [row], project);
    MailboxOfOne(row, project);
  }

  lemma NumberedOneMore(d: seq<Recipient>, last: Recipient, from: text, m: Incoming, ids: seq<Id>, now: int)
    requires |d| < |ids|
    ensures Numbered(RowsFor(d + [last], from, m), ids, now)
            == Numbered(RowsFor(d, from, m), ids, now) + [RowFor(last, from, m).(id := ids[|d|], receivedAt := now)]
  {
    hide RowFor, Numbered, RowsFor;
  }

  lemma MailboxOfOne(row: Email, project: Id)
    ensures Mailbox([row], project) == if row.projectId == project then [row] else []
  {
    assert Mailbox([], project) == [];
    assert [row][..0] == [];
  }

  /** An accepted recipient names a project exactly by naming its address. */
  lemma NamesProject(s: System, env: Envelope, project: Id)
    requires Inv(s) && project in s.db.projects
    requires forall r :: r in env.recipients ==> Routed(s.db, r)
    ensures HasKey(env.recipients, ProjectOf, project)
            <==> HasKey(Addresses(env.recipients), NormalizeAddress, s.db.projects[project].emailAddress)
  {
    var list := env.recipients;
    if HasKey(list, ProjectOf, project) {
      var i :| 0 <= i < |list| && ProjectOf(list[i]) == project;
      assert Routed(s.db, list[i]) && NormalizeAddress(Addresses(list)[i]) == s.db.projects[project].emailAddress;
    }
    if HasKey(Addresses(list), NormalizeAddress, s.db.projects[project].emailAddress) {
      var i :| 0 <= i < |list| && NormalizeAddress(Addresses(list)[i]) == s.db.projects[project].emailAddress;
      assert Routed(s.db, list[i]) && ProjectOf(list[i]) == project;
    }
  }

  /** One delivery adds to a mailbox what the ledger says, nothing more or less. */
  lemma DeliveryAddsOne(s: System, env: Envelope, m: Incoming, ids: seq<Id>, now: int, fault: bool, project: Id)
    requires Inv(s) && project in s.db.projects
    requires forall r :: r in env.recipients ==> Routed(s.db, r)
    requires Delivered(s.db, env.from, env.recipients, m, ids, now, fault).Ok?
    ensures Receipts(Mailbox(Delivered(s.db, env.from, env.recipients, m, ids, now, fault).value.emails, project))
            == Receipts(Mailbox(s.db.emails, project))
               + (if HasKey(Addresses(env.recipients), NormalizeAddress, s.db.projects[project].emailAddress)
                  then [Receipt(CleanText(env.from), Parsed(m.message), m.raw, now)] else [])
  {
    hide *;
    NamesProject(s, env, project);
    DeliveredMail(s.db, env, m, ids, now, fault);
    if env.recipients == [] {
      NobodyNamed(env.recipients, project);
    } else {
      var rows := Numbered(RowsFor(Distinct(env.recipients, ProjectOf), env.from, m), ids, now);
      MailboxConcat(s.db.emails, rows, project);
      OneRowPerProject(env.recipients, env.from, m, ids, now, project);
    }
  }

  lemma DeliveredMail(db: Db, env: Envelope, m: Incoming, ids: seq<Id>, now: int, fault: bool)
    requires Delivered(db, env.from, env.recipients, m, ids, now, fault).Ok?
    ensures var after := Delivered(db, env.from, env.recipients, m, ids, now, fault).value;
            var chosen := Distinct(env.recipients, ProjectOf);
            if env.recipients == [] then after == db
            else |chosen| <= |ids| && after.emails == db.emails + Numbered(RowsFor(chosen, env.from, m), ids, now)
  {
    hide Insertable, Numbered, RowsFor, Distinct;
  }

  lemma NobodyNamed(recipients: seq<Recipient>, project: Id)
    requires recipients == []
    ensures !HasKey(recipients, ProjectOf, project)
  {
  }

  /** What a session was told 250 for is an address some project owns. */
  lemma AddressedIsTaken(domain: text, run: seq<Action>, sid: Id, address: text)
    requires AddressedTo(domain, run, sid, address)
    ensures Taken(Exec(domain, run).db, address)
  {
    hide NormalizeAddress, Recipients;
    var s := Exec(domain, run);
    AlwaysRouted(domain, run);
    SessionIsolation(domain, run, sid);
    var list := s.sessions[sid].recipients;
    var i :| 0 <= i < |list| && NormalizeAddress(Addresses(list)[i]) == address;
    assert list[i] in list;
    assert Routed(s.db, list[i]);
  }

  /** No mail is acknowledged for an address before a project owns it. */
  lemma {:induction false} NoLedgerBeforeProject(domain: text, run: seq<Action>, address: text)
    requires !Taken(Exec(domain, run).db, address)
    ensures Ledger(domain, run, address) == []
    decreases |run|
  {
    hide Step, Inv, Taken, AddressedTo, Evolves;
    if run != [] {
      var init, a := run[..|run| - 1], run[|run| - 1];
      var s := Exec(domain, init);
      AlwaysRouted(domain, init);
      StepKeepsInv(domain, s, a);
      StillFree(s.db, Exec(domain, run).db, address);
      NoLedgerBeforeProject(domain, init, address);
      if Acknowledges(domain, run, address) {
        AddressedIsTaken(domain, init, a.sid, address);
      }
    }
  }

  lemma StillFree(a: Db, b: Db, address: text)
    requires Evolves(a, b) && !Taken(b, address)
    ensures !Taken(a, address)
  {
  }

  /** A mailbox starts empty. */
  lemma {:induction false} EmptyMailbox(emails: seq<Email>, project: Id)
    requires forall e :: e in emails ==> e.projectId != project
    ensures Mailbox(emails, project) == []
  {
    if emails != [] {
      EmptyMailbox(emails[..|emails| - 1], project);
    }
  }

  /** The mailbox and the ledger grow together in one step. */
  lemma LedgerStep(domain: text, run: seq<Action>, project: Id)
    requires run != [] && project in Exec(domain, run[..|run| - 1]).db.projects
    ensures var init, a := run[..|run| - 1], run[|run| - 1];
            var s, t := Exec(domain, init), Exec(domain, run);
            var address := s.db.projects[project].emailAddress;
            Receipts(Mailbox(t.db.emails, project))
            == Receipts(Mailbox(s.db.emails, project))
               + (if Acknowledges(domain, run, address) && a.incoming.Some? then [ReceiptFor(domain, init, a)] else [])
  {
    var init, a := run[..|run| - 1], run[|run| - 1];
    var s := Exec(domain, init);
    AlwaysRouted(domain, init);
    if a.Data? && a.sid in s.sessions {
      var env := s.sessions[a.sid];
      SessionIsolation(domain, init, a.sid);
      if LastReply(domain, run) == Smtp(Ok250) {
        DeliveryAddsOne(s, env, a.incoming.value, a.ids, a.now, a.fault, project);
      }
    } else {
      OnlyDataWritesMail(domain, s, a);
    }
  }

  lemma OnlyDataWritesMail(domain: text, s: System, a: Action)
    requires !(a.Data? && a.sid in s.sessions)
    ensures Step(domain, s, a).next.db.emails == s.db.emails
    ensures a.Data? ==> Step(domain, s, a).reply == Silent
  {
  }

  /** The mailbox of a project is exactly the ledger of its address: every message that
      was acknowledged with 250 after a recipient naming that address was accepted is there
      once, in the order of acknowledgement, and nothing else is, through deletions,
      failures, retries and any interleaving. */
  lemma {:induction false} MailboxIsLedger(domain: text, run: seq<Action>, project: Id)
    requires project in Exec(domain, run).db.projects
    ensures var db := Exec(domain, run).db;
            Receipts(Mailbox(db.emails, project)) == Ledger(domain, run, db.projects[project].emailAddress)
    decreases |run|
  {
    var init, a := run[..|run| - 1], run[|run| - 1];
    var s, t := Exec(domain, init), Exec(domain, run);
    var address := t.db.projects[project].emailAddress;
    AlwaysRouted(domain, init);
    StepKeepsInv(domain, s, a);
    if project in s.db.projects {
      MailboxIsLedger(domain, init, project);
      LedgerStep(domain, run, project);
    } else {
      ProjectAppears(domain, s, a, project);
      EmptyMailbox(t.db.emails, project);
      NoLedgerBeforeProject(domain, init, address);
    }
  }

  lemma OnlyInsertAddsProjects(domain: text, s: System, a: Action)
    requires !a.TryInsert?
    ensures Step(domain, s, a).next.db.projects.Keys == s.db.projects.Keys
  {
    hide InsertProject, Insertable, Numbered, Distinct, Lookup;
  }

  /** A project row appears only by an insert that found its address free. */
  lemma ProjectAppears(domain: text, s: System, a: Action, project: Id)
    requires Inv(s) && project !in s.db.projects && project in Step(domain, s, a).next.db.projects
    ensures a.TryInsert? && Step(domain, s, a).reply.Http? && Step(domain, s, a).reply.http.Created?
    ensures var t := Step(domain, s, a).next;
            && t.db.projects[project] == Step(domain, s, a).reply.http.created
            && t.db.projects[project].id == project
            && t.db.emails == s.db.emails
            && !Taken(s.db, t.db.projects[project].emailAddress)
            && forall e :: e in t.db.emails ==> e.projectId != project
  {
    if !a.TryInsert? {
      OnlyInsertAddsProjects(domain, s, a);
    } else {
      assert Step(domain, s, a) == CreateStep(domain, s, a.rid, a.chance);
    }
  }
}
