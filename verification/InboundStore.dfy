/** Looking up projects by inbound address and saving delivered mail
    (services/inbound/store.go). */
module InboundStore {
  import opened Prelude
  import opened Text
  import opened Parse
  import opened Database
  import opened Address

  /** What an accepted RCPT leaves behind: the address as it was given and where it led. */
  datatype Recipient = Recipient(address: text, projectId: Id)

  /** A message as received: its bytes, and the library's reading of them. */
  datatype Incoming = Incoming(raw: text, message: Message)

  // ---------- specification ----------

  ghost function Lookup(db: Db, domain: text, address: text, fault: bool): Result<Option<Id>, DbError> {
    var normal := NormalizeAddress(address);
    if AddressDomain(normal) != domain then Ok(None)
    else if fault then Err(OtherError)
    else Ok(OwnerOf(db, normal))
  }

  function ProjectOf(r: Recipient): Id {
    r.projectId
  }

  function NormalAddressOf(r: Recipient): text {
    NormalizeAddress(r.address)
  }

  /** `k` is the key of some element. */
  predicate HasKey<T, K(==)>(list: seq<T>, key: T -> K, k: K) {
    exists i :: 0 <= i < |list| && key(list[i]) == k
  }

  /** The elements whose key did not occur before, in order. */
  function Distinct<T, K(==)>(list: seq<T>, key: T -> K): (r: seq<T>)
    ensures r == [] <==> list == []
  {
    if list == [] then []
    else
      var init, last := list[..|list| - 1], list[|list| - 1];
      if HasKey(init, key, key(last)) then Distinct(init, key) else Distinct(init, key) + [last]
  }

  /** The row stored for one recipient, before it has an id. */
  function RowFor(r: Recipient, from: text, m: Incoming): Email {
    Email("", r.projectId, CleanText(from), NormalizeAddress(r.address), Parsed(m.message), m.raw, 0)
  }

  function RowsFor(recipients: seq<Recipient>, from: text, m: Incoming): (rows: seq<Email>)
    ensures |rows| == |recipients|
    ensures forall i :: 0 <= i < |rows| ==> rows[i] == RowFor(recipients[i], from, m)
  {
    seq(|recipients|, i requires 0 <= i < |recipients| => RowFor(recipients[i], from, m))
  }

  /** Deliver as one step: nothing to do without recipients, otherwise one insert. */
  function Delivered(db: Db, from: text, recipients: seq<Recipient>, m: Incoming,
                     ids: seq<Id>, now: int, fault: bool): Result<Db, DbError>
  {
    if recipients == [] then Ok(db)
    else if fault then Err(OtherError)
    else InsertEmails(db, RowsFor(Distinct(recipients, ProjectOf), from, m), ids, now)
  }

  // ---------- the code ----------

  class Store {
    const conn: Connection
    const domain: text

    constructor (conn: Connection, domain: text)
      ensures this.conn == conn && this.domain == NormalizeAddress(domain)
    {
      this.conn := conn;
      this.domain := NormalizeAddress(domain);
    }

    method FindProjectID(address: text, fault: bool) returns (r: Result<Option<Id>, DbError>)
      requires conn.Valid()
      ensures r == Lookup(conn.db, domain, address, fault)
    {
      var normal := NormalizeAddress(address);
      if AddressDomain(normal) != domain {
        return Ok(None);
      }
      r := conn.SelectIdByAddress(normal, fault);
    }

    method Deliver(from: text, recipients: seq<Recipient>, m: Incoming,
                   ids: seq<Id>, now: int, fault: bool) returns (r: Option<DbError>)
      requires conn.Valid()
      modifies conn
      ensures conn.Valid() && Evolves(old(conn.db), conn.db)
      ensures var done := Delivered(old(conn.db), from, recipients, m, ids, now, fault);
              && conn.db == (if done.Ok? then done.value else old(conn.db))
              && r == (if done.Ok? then None else Some(done.error))
    {
      var parsed, _ := ParseMessage(m.message);
      var seen: set<Id> := {};
      var emails: seq<Email> := [];
      for i := 0 to |recipients|
        invariant conn.db == old(conn.db)
        invariant forall id :: id in seen <==> HasKey(recipients[..i], ProjectOf, id)
        invariant emails == RowsFor(Distinct(recipients[..i], ProjectOf), from, m)
        invariant emails == [] <==> i == 0
      {
        var recipient := recipients[i];
        OneMore(recipients, i, from, m);
        if recipient.projectId in seen {
          continue;
        }
        seen := seen + {recipient.projectId};
        emails := emails + [Email("", recipient.projectId, CleanText(from), NormalizeAddress(recipient.address),
                                  parsed, m.raw, 0)];
      }
      assert recipients[..|recipients|] == recipients;
      if |emails| == 0 {
        return None;
      }
      r := conn.InsertRows(emails, ids, now, fault);
    }
  }

  lemma OneMore(recipients: seq<Recipient>, i: nat, from: text, m: Incoming)
    requires i < |recipients|
    ensures var init, more, last := recipients[..i], recipients[..i + 1], recipients[i];
            && (forall id :: HasKey(more, ProjectOf, id) <==> HasKey(init, ProjectOf, id) || id == last.projectId)
            && RowsFor(Distinct(more, ProjectOf), from, m)
               == RowsFor(Distinct(init, ProjectOf), from, m)
                  + (if HasKey(init, ProjectOf, last.projectId) then [] else [RowFor(last, from, m)])
  {
    var init, more, last := recipients[..i], recipients[..i + 1], recipients[i];
    assert more == init + [last] && more[..|more| - 1] == init;
    forall id ensures HasKey(more, ProjectOf, id) <==> HasKey(init, ProjectOf, id) || id == last.projectId {
      KeyOfMore(init, last, ProjectOf, id);
    }
    var rows := RowsFor(Distinct(init, ProjectOf), from, m);
    if HasKey(init, ProjectOf, last.projectId) {
      assert rows + [] == rows;
    } else {
      RowsOfMore(Distinct(init, ProjectOf), last, from, m);
    }
  }

  lemma RowsOfMore(recipients: seq<Recipient>, r: Recipient, from: text, m: Incoming)
    ensures RowsFor(recipients + [r], from, m) == RowsFor(recipients, from, m) + [RowFor(r, from, m)]
  {
  }

  // ---------- what the dedupe loop keeps ----------

  /** The least index with a key. */
  function FirstIndex<T, K(==)>(list: seq<T>, key: T -> K, k: K): (i: nat)
    requires HasKey(list, key, k)
    ensures i < |list| && key(list[i]) == k
    ensures forall j :: 0 <= j < i ==> key(list[j]) != k
  {
    if HasKey(list[..|list| - 1], key, k) then FirstIndex(list[..|list| - 1], key, k)
    else
      assert forall j :: 0 <= j < |list| - 1 ==> list[j] == list[..|list| - 1][j];
      |list| - 1
  }

  /** Exactly one element per key, always the first with that key, in first-occurrence
      order. */
  lemma {:induction false} DistinctKeepsFirsts<T, K>(list: seq<T>, key: T -> K)
    ensures var d := Distinct(list, key);
            && (forall k: K :: HasKey(d, key, k) <==> HasKey(list, key, k))
            && (forall i :: 0 <= i < |d| ==> HasKey(list, key, key(d[i])))
            && (forall i :: 0 <= i < |d| ==> d[i] == list[FirstIndex(list, key, key(d[i]))])
            && (forall i, j :: 0 <= i < j < |d| ==>
                  FirstIndex(list, key, key(d[i])) < FirstIndex(list, key, key(d[j])))
  {
    if list != [] {
      var n := |list| - 1;
      var init, last := list[..n], list[n];
      var d := Distinct(init, key);
      DistinctKeepsFirsts(init, key);
      forall k: K ensures HasKey(list, key, k) <==> HasKey(init, key, k) || k == key(last) {
        KeyOfMore(init, last, key, k);
        assert list == init + [last];
      }
      forall k: K | HasKey(init, key, k)
        ensures HasKey(list, key, k) && FirstIndex(list, key, k) == FirstIndex(init, key, k)
      {
      }
      if !HasKey(init, key, key(last)) {
        assert FirstIndex(list, key, key(last)) == n;
        forall k: K ensures HasKey(d + [last], key, k) <==> HasKey(d, key, k) || k == key(last) {
          KeyOfMore(d, last, key, k);
        }
      }
    }
  }

  lemma KeyOfMore<T, K>(init: seq<T>, last: T, key: T -> K, k: K)
    ensures HasKey(init + [last], key, k) <==> HasKey(init, key, k) || k == key(last)
  {
    var list := init + [last];
    if HasKey(init, key, k) {
      var i :| 0 <= i < |init| && key(init[i]) == k;
      assert key(list[i]) == k;
    }
    assert key(list[|init|]) == key(last);
    if HasKey(list, key, k) {
      var i :| 0 <= i < |list| && key(list[i]) == k;
      assert i < |init| ==> key(init[i]) == k;
    }
  }

  /** Two keys that tell the same elements apart keep the same elements. */
  lemma {:induction false} SameDistinct<T, K, L>(list: seq<T>, key: T -> K, other: T -> L)
    requires forall i, j :: 0 <= i < |list| && 0 <= j < |list| ==>
               (key(list[i]) == key(list[j]) <==> other(list[i]) == other(list[j]))
    ensures Distinct(list, key) == Distinct(list, other)
  {
    if list != [] {
      var init, last := list[..|list| - 1], list[|list| - 1];
      SameDistinct(init, key, other);
      if HasKey(init, key, key(last)) {
        var i :| 0 <= i < |init| && key(init[i]) == key(last);
        assert other(init[i]) == other(last);
      }
      if HasKey(init, other, other(last)) {
        var i :| 0 <= i < |init| && other(init[i]) == other(last);
        assert key(init[i]) == key(last);
      }
    }
  }
}
