/** What each stored column of a message holds, told from the headers and the stream of part
    events alone. */
module Columns {
  import opened Prelude
  import opened Text
  import opened Parse
  import Address

  // ---------- headers ----------

  /** The address columns come from the first From address and all To addresses where those
      headers parse, from the raw headers where they do not. */
  lemma HeaderColumns(m: Message)
    requires m.Readable?
    ensures var e, h := Parsed(m), m.headers;
            && e.messageId == CleanText(h.messageId)
            && (h.subject != [] ==> e.subject == CleanText(h.subject))
            && (h.subject == [] ==> e.subject == CleanText(h.rawSubject))
            && (forall first: MailAddress :: h.from.Some? && [first] <= h.from.value ==>
                  e.fromAddress == CleanText(Address.ToLower(first.address)) && e.fromName == CleanText(first.name))
            && (h.from == None || h.from == Some([]) ==> e.fromAddress == CleanText(h.rawFrom) && e.fromName == [])
            && (h.to == None ==> e.toAddresses == CleanText(h.rawTo))
            && (h.to.Some? ==> e.toAddresses == CleanText(JoinAddresses(h.to.value)))
            && (e.sentAt.Some? <==> h.date.Some? && h.date.value != 0)
            && (e.sentAt.Some? ==> e.sentAt == h.date)
  {
    assert CleanText([]) == [];
    hide CleanText, Address.ToLower;
  }

  /** The list of To addresses is comma-separated, in order. */
  lemma {:induction false} JoinOfMore(list: seq<MailAddress>, last: MailAddress)
    ensures JoinAddresses([last]) == last.address && JoinAddresses([]) == []
    ensures list != [] ==> JoinAddresses(list + [last]) == JoinAddresses(list) + [44, 32] + last.address
    decreases |list|
  {
    if |list| == 1 {
      assert (list + [last])[1..] == [last];
    } else if |list| > 1 {
      assert (list + [last])[1..] == list[1..] + [last];
      JoinOfMore(list[1..], last);
      var head, rest, tail := list[0].address + [44, 32], JoinAddresses(list[1..]), [44, 32] + last.address;
      assert head + (rest + [44, 32] + last.address) == (head + rest) + [44, 32] + last.address;
    }
  }

  // ---------- bodies ----------

  /** Part `i` was delivered: no fatal error came before it. */
  predicate Arrived(events: seq<PartEvent>, i: nat) {
    i < |events| && events[i].NextPart? && forall j :: 0 <= j < i ==> !events[j].PartFailure?
  }

  /** An inline part of one of these types, with something in it, arrived at `i`. */
  predicate InlineAt(events: seq<PartEvent>, i: nat, types: set<text>) {
    && Arrived(events, i)
    && events[i].part.header.InlineHeader? && events[i].part.header.contentType in types
    && events[i].part.body != []
  }

  predicate FirstInlineAt(events: seq<PartEvent>, i: nat, types: set<text>) {
    InlineAt(events, i, types) && forall j :: 0 <= j < i ==> !InlineAt(events, j, types)
  }

  /** The longest prefix within the limit. */
  ghost predicate LongestPrefix(r: text, body: text) {
    && r <= body && |r| <= MAX_BODY_BYTES
    && forall longer: text :: r < longer <= body ==> |longer| > MAX_BODY_BYTES
  }

  /** The column holds the cleaned start of the first such part, and nothing without one. */
  ghost predicate HoldsFirst(events: seq<PartEvent>, types: set<text>, column: text) {
    && (forall i: nat :: FirstInlineAt(events, i, types) ==>
          exists r: text :: LongestPrefix(r, events[i].part.body) && column == CleanText(r))
    && ((forall i: nat :: !InlineAt(events, i, types)) ==> column == [])
  }

  lemma BodyColumns(m: Message)
    requires m.Readable?
    ensures HoldsFirst(m.events, {TEXT_PLAIN, []}, Parsed(m).textBody)
    ensures HoldsFirst(m.events, {TEXT_HTML}, Parsed(m).htmlBody)
  {
    ColumnOf(m.events, PlainBody);
    ColumnOf(m.events, HtmlBody);
  }

  ghost function TypesOf(kind: BodyKind): set<text> {
    match kind
    case PlainBody => {TEXT_PLAIN, []}
    case HtmlBody => {TEXT_HTML}
  }

  lemma ColumnOf(events: seq<PartEvent>, kind: BodyKind)
    ensures HoldsFirst(events, TypesOf(kind), CleanText(FirstBody(PartsRead(events), kind)))
  {
    assert CleanText([]) == [];
    hide CleanText, FirstBody, PartsRead, InlineAt, Capped;
    var column := FirstBody(PartsRead(events), kind);
    FirstOrNone(events, kind);
    forall i: nat | FirstInlineAt(events, i, TypesOf(kind))
      ensures exists r: text :: LongestPrefix(r, events[i].part.body) && CleanText(column) == CleanText(r)
    {
      assert InlineAt(events, i, TypesOf(kind));
      CappedIsLongest(events[i].part.body);
    }
  }

  lemma CappedIsLongest(body: text)
    ensures LongestPrefix(Capped(body), body)
  {
  }

  lemma {:induction false} FirstOrNone(events: seq<PartEvent>, kind: BodyKind)
    ensures forall i: nat :: FirstInlineAt(events, i, TypesOf(kind)) ==>
              InlineAt(events, i, TypesOf(kind)) && FirstBody(PartsRead(events), kind) == Capped(events[i].part.body)
    ensures (forall i: nat :: !InlineAt(events, i, TypesOf(kind))) ==> FirstBody(PartsRead(events), kind) == []
    decreases |events|
  {
    hide Capped;
    if events == [] || events[0].PartFailure? {
    } else {
      var rest, types := events[1..], TypesOf(kind);
      FirstOrNone(rest, kind);
      forall i: nat ensures InlineAt(events, i + 1, types) <==> InlineAt(rest, i, types) {
        ArrivedLater(events, i);
      }
      InlineFirst(events, kind);
      OneEventMore(events, kind);
      forall i: nat | FirstInlineAt(events, i, types)
        ensures FirstBody(PartsRead(events), kind) == Capped(events[i].part.body)
      {
        if i > 0 {
          assert !InlineAt(events, 0, types);
          forall j: nat | j < i - 1 ensures !InlineAt(rest, j, types) {
            assert !InlineAt(events, j + 1, types);
          }
          assert InlineAt(events, (i - 1) + 1, types);
          assert FirstInlineAt(rest, i - 1, types);
          assert rest[i - 1] == events[i];
        }
      }
    }
  }

  lemma ArrivedLater(events: seq<PartEvent>, i: nat)
    requires events != [] && !events[0].PartFailure?
    ensures Arrived(events, i + 1) <==> Arrived(events[1..], i)
  {
    var rest := events[1..];
    assert forall j :: 0 <= j < |rest| ==> rest[j] == events[j + 1];
    if Arrived(rest, i) {
      forall j | 0 <= j < i + 1 ensures !events[j].PartFailure? {
        assert j > 0 ==> events[j] == rest[j - 1];
      }
    }
  }

  lemma InlineFirst(events: seq<PartEvent>, kind: BodyKind)
    requires events != []
    ensures InlineAt(events, 0, TypesOf(kind)) <==>
            events[0].NextPart? && IsBody(events[0].part, kind) && events[0].part.body != []
  {
  }

  lemma OneEventMore(events: seq<PartEvent>, kind: BodyKind)
    requires events != [] && !events[0].PartFailure?
    ensures FirstBody(PartsRead(events), kind)
            == if events[0].NextPart? && IsBody(events[0].part, kind) && events[0].part.body != []
               then Capped(events[0].part.body) else FirstBody(PartsRead(events[1..]), kind)
  {
    hide Capped;
    var tail := PartsRead(events[1..]);
    if events[0].NextPart? {
      assert PartsRead(events) == [events[0].part] + tail;
      assert PartsRead(events)[1..] == tail;
    } else {
      assert PartsRead(events) == [] + tail == tail;
    }
  }

  // ---------- attachments ----------

  /** An attachment, or an inline part of a type that is no body, arrived at `i`. */
  predicate AttachedAt(events: seq<PartEvent>, i: nat) {
    && Arrived(events, i)
    && var h := events[i].part.header;
       h.AttachmentHeader? || (h.InlineHeader? && h.contentType !in {TEXT_PLAIN, [], TEXT_HTML})
  }

  /** How many attachments arrived among the first `n` events. */
  function Attached(events: seq<PartEvent>, n: nat): nat {
    if n == 0 then 0 else Attached(events, n - 1) + if AttachedAt(events, n - 1) then 1 else 0
  }

  /** There are as many entries as attachments; the entry of one stands behind those of the
      attachments before it and holds its name, its type and its whole size. */
  lemma AttachmentColumn(m: Message, i: nat)
    requires m.Readable?
    ensures var list := Parsed(m).attachments;
            && |list| == Attached(m.events, |m.events|)
            && (AttachedAt(m.events, i) ==>
                  var h, n := m.events[i].part.header, Attached(m.events, i);
                  && n < |list|
                  && list[n].filename == CleanText(if h.AttachmentHeader? then h.filename else [])
                  && list[n].contentType == CleanText(h.contentType)
                  && list[n].size == |m.events[i].part.body|)
  {
    hide CleanText;
    EntryOf(m.events, i);
  }

  lemma {:induction false} EntryOf(events: seq<PartEvent>, i: nat)
    ensures var list := AttachmentsOf(PartsRead(events));
            && |list| == Attached(events, |events|)
            && (AttachedAt(events, i) ==>
                  Attached(events, i) < |list| && IsAttachment(events[i].part)
                  && list[Attached(events, i)] == AttachmentOf(events[i].part))
    decreases |events|
  {
    if events == [] {
    } else if events[0].PartFailure? {
      NoneAttached(events, |events|);
    } else {
      var rest := events[1..];
      EntryOf(rest, if i > 0 then i - 1 else 0);
      var tail := AttachmentsOf(PartsRead(rest));
      AttachedShifts(events, |events|);
      AttachedFirst(events);
      OneMoreEntry(events);
      if i > 0 {
        AttachedLater(events, i - 1);
        if i <= |events| {
          AttachedShifts(events, i);
        }
      }
    }
  }

  lemma AttachedFirst(events: seq<PartEvent>)
    requires events != []
    ensures AttachedAt(events, 0) <==> events[0].NextPart? && IsAttachment(events[0].part)
  {
  }

  lemma OneMoreEntry(events: seq<PartEvent>)
    requires events != [] && !events[0].PartFailure?
    ensures AttachmentsOf(PartsRead(events))
            == (if events[0].NextPart? && IsAttachment(events[0].part) then [AttachmentOf(events[0].part)] else [])
               + AttachmentsOf(PartsRead(events[1..]))
  {
    var tail := PartsRead(events[1..]);
    if events[0].NextPart? {
      assert PartsRead(events) == [events[0].part] + tail;
      assert PartsRead(events)[1..] == tail;
    } else {
      assert PartsRead(events) == [] + tail == tail;
      assert [] + AttachmentsOf(tail) == AttachmentsOf(tail);
    }
  }

  lemma AttachedLater(events: seq<PartEvent>, i: nat)
    requires events != [] && !events[0].PartFailure?
    ensures AttachedAt(events, i + 1) <==> AttachedAt(events[1..], i)
  {
    ArrivedLater(events, i);
  }

  lemma {:induction false} AttachedShifts(events: seq<PartEvent>, n: nat)
    requires events != [] && !events[0].PartFailure? && 0 < n
    ensures Attached(events, n) == (if AttachedAt(events, 0) then 1 else 0) + Attached(events[1..], n - 1)
    decreases n
  {
    hide AttachedAt;
    if n == 1 {
      assert Attached(events, 0) == 0;
    } else {
      AttachedShifts(events, n - 1);
      AttachedLater(events, n - 2);
    }
  }

  lemma {:induction false} NoneAttached(events: seq<PartEvent>, n: nat)
    requires events != [] && events[0].PartFailure?
    ensures Attached(events, n) == 0
  {
    if n > 0 {
      NoneAttached(events, n - 1);
    }
  }
}
