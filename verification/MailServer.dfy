/** One SMTP transaction (mailserver/mailserver.go). The protocol engine may make the
    callbacks of a session in any order. */
module MailServer {
  import opened Prelude
  import opened Text
  import opened Database
  import opened InboundStore

  /** The state of a session: reverse-path and accepted forward-paths. */
  datatype Envelope = Envelope(from: text, recipients: seq<Recipient>)

  const FRESH: Envelope := Envelope([], [])

  datatype SmtpReply = Ok250 | Temporary451 | NoMailbox550 | ReadError

  // ---------- specification ----------

  ghost function RcptReply(db: Db, domain: text, to: text, fault: bool): SmtpReply {
    match Lookup(db, domain, to, fault)
    case Err(_) => Temporary451
    case Ok(None) => NoMailbox550
    case Ok(Some(_)) => Ok250
  }

  ghost function AfterRcpt(db: Db, domain: text, env: Envelope, to: text, fault: bool): Envelope {
    match Lookup(db, domain, to, fault)
    case Ok(Some(id)) => env.(recipients := env.recipients + [Recipient(to, id)])
    case _ => env
  }

  /** `m` is None when the message cannot be read to its end. */
  function DataReply(db: Db, env: Envelope, m: Option<Incoming>, ids: seq<Id>, now: int, fault: bool): SmtpReply {
    if m.None? then ReadError
    else if Delivered(db, env.from, env.recipients, m.value, ids, now, fault).Ok? then Ok250
    else Temporary451
  }

  function AfterData(db: Db, env: Envelope, m: Option<Incoming>, ids: seq<Id>, now: int, fault: bool): Db {
    if m.None? then db
    else
      var done := Delivered(db, env.from, env.recipients, m.value, ids, now, fault);
      if done.Ok? then done.value else db
  }

  // ---------- the code ----------

  class Session {
    const inbox: Store
    var from: text
    var recipients: seq<Recipient>

    function State(): Envelope
      reads this
    {
      Envelope(from, recipients)
    }

    constructor (inbox: Store)
      ensures this.inbox == inbox && State() == FRESH
    {
      this.inbox := inbox;
      from := [];
      recipients := [];
    }

    method Mail(from: text) returns (r: SmtpReply)
      modifies this
      ensures State() == old(State()).(from := from)
      ensures r == Ok250
    {
      this.from := from;
      r := Ok250;
    }

    method Rcpt(to: text, fault: bool) returns (r: SmtpReply)
      requires inbox.conn.Valid()
      modifies this
      ensures State() == AfterRcpt(inbox.conn.db, inbox.domain, old(State()), to, fault)
      ensures r == RcptReply(inbox.conn.db, inbox.domain, to, fault)
    {
      var found := inbox.FindProjectID(to, fault);
      if found.Err? {
        return Temporary451;
      }
      if found.value.None? {
        return NoMailbox550;
      }
      recipients := recipients + [Recipient(to, found.value.value)];
      r := Ok250;
    }

    method Data(m: Option<Incoming>, ids: seq<Id>, now: int, fault: bool) returns (r: SmtpReply)
      requires inbox.conn.Valid()
      modifies inbox.conn
      ensures inbox.conn.Valid() && Evolves(old(inbox.conn.db), inbox.conn.db)
      ensures inbox.conn.db == AfterData(old(inbox.conn.db), State(), m, ids, now, fault)
      ensures r == DataReply(old(inbox.conn.db), State(), m, ids, now, fault)
    {
      if m.None? {
        return ReadError;
      }
      var failed := inbox.Deliver(from, recipients, m.value, ids, now, fault);
      r := if failed.Some? then Temporary451 else Ok250;
    }

    method Reset()
      modifies this
      ensures State() == FRESH
    {
      from := [];
      recipients := [];
    }
  }
}
