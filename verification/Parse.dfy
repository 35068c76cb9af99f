/** Turning a received message into the columns that are stored (services/inbound/parse.go).
    MIME decoding is the library's: what arrives here is the decoded header values and a
    finite stream of parts and part errors. */
module Parse {
  import opened Prelude
  import opened Text
  import Address

  const MAX_BODY_BYTES: nat := 5 * 0x10_0000

  const TEXT_PLAIN: text := [116, 101, 120, 116, 47, 112, 108, 97, 105, 110]
  const TEXT_HTML: text := [116, 101, 120, 116, 47, 104, 116, 109, 108]

  datatype MailAddress = MailAddress(name: text, address: text)

  /** Decoded header values next to the raw ones; None is a header that does not parse.
      Dates are nanoseconds since Go's zero time. */
  datatype Headers = Headers(
    messageId: text,
    subject: text, rawSubject: text,
    from: Option<seq<MailAddress>>, rawFrom: text,
    to: Option<seq<MailAddress>>, rawTo: text,
    date: Option<int>)

  datatype PartHeader =
    | InlineHeader(contentType: text)
    | AttachmentHeader(filename: text, contentType: text)
    | OtherHeader

  /** `body` is what the reader yields before its end or its first error. */
  datatype Part = Part(header: PartHeader, body: text)

  /** One answer of the library's NextPart; the end of the sequence is EOF. */
  datatype PartEvent = NextPart(part: Part) | UnknownCharset | UnknownEncoding | PartFailure

  datatype Message = Unreadable | Readable(headers: Headers, events: seq<PartEvent>)

  datatype Attachment = Attachment(filename: text, contentType: text, size: nat)

  datatype ParsedEmail = ParsedEmail(
    messageId: text, fromAddress: text, fromName: text, toAddresses: text, subject: text,
    sentAt: Option<int>, textBody: text, htmlBody: text, attachments: seq<Attachment>)

  const EMPTY: ParsedEmail := ParsedEmail([], [], [], [], [], None, [], [], [])

  // ---------- what is read, declaratively ----------

  /** The parts delivered before the first fatal error, without those in an unknown
      charset or encoding. */
  function PartsRead(events: seq<PartEvent>): seq<Part> {
    if events == [] || events[0].PartFailure? then []
    else (if events[0].NextPart? then [events[0].part] else []) + PartsRead(events[1..])
  }

  datatype BodyKind = PlainBody | HtmlBody

  predicate IsBody(p: Part, kind: BodyKind) {
    && p.header.InlineHeader?
    && match kind
       case PlainBody => p.header.contentType == TEXT_PLAIN || p.header.contentType == []
       case HtmlBody => p.header.contentType == TEXT_HTML
  }

  function Capped(body: text): text {
    if |body| <= MAX_BODY_BYTES then body else body[..MAX_BODY_BYTES]
  }

  /** The first non-empty body of a kind, capped. */
  function FirstBody(parts: seq<Part>, kind: BodyKind): text {
    if parts == [] then []
    else if IsBody(parts[0], kind) && parts[0].body != [] then Capped(parts[0].body)
    else FirstBody(parts[1..], kind)
  }

  predicate IsAttachment(p: Part) {
    p.header.AttachmentHeader?
    || (p.header.InlineHeader? && !IsBody(p, PlainBody) && !IsBody(p, HtmlBody))
  }

  function AttachmentOf(p: Part): Attachment
    requires IsAttachment(p)
  {
    Attachment(if p.header.AttachmentHeader? then p.header.filename else [], p.header.contentType, |p.body|)
  }

  function AttachmentsOf(parts: seq<Part>): seq<Attachment> {
    if parts == [] then []
    else (if IsAttachment(parts[0]) then [AttachmentOf(parts[0])] else []) + AttachmentsOf(parts[1..])
  }

  function JoinAddresses(list: seq<MailAddress>): text {
    if list == [] then []
    else if |list| == 1 then list[0].address
    else list[0].address + [44, 32] + JoinAddresses(list[1..])
  }

  function FromHeaders(h: Headers): ParsedEmail {
    var known := h.from.Some? && h.from.value != [];
    EMPTY.(
    messageId := h.messageId,
    subject := if h.subject == [] then h.rawSubject else h.subject,
    fromAddress := if known then Address.ToLower(h.from.value[0].address) else h.rawFrom,
    fromName := if known then h.from.value[0].name else [],
    toAddresses := if h.to.Some? then JoinAddresses(h.to.value) else h.rawTo,
    sentAt := if h.date == Some(0) then None else h.date)
  }

  function WithParts(e: ParsedEmail, parts: seq<Part>): ParsedEmail {
    e.(textBody := FirstBody(parts, PlainBody),
       htmlBody := FirstBody(parts, HtmlBody),
       attachments := AttachmentsOf(parts))
  }

  function CleanAttachments(list: seq<Attachment>): (r: seq<Attachment>)
    ensures |r| == |list|
    ensures forall i :: 0 <= i < |list| ==>
              r[i] == Attachment(CleanText(list[i].filename), CleanText(list[i].contentType), list[i].size)
  {
    if list == [] then []
    else
      [Attachment(CleanText(list[0].filename), CleanText(list[0].contentType), list[0].size)]
      + CleanAttachments(list[1..])
  }

  function Cleaned(e: ParsedEmail): ParsedEmail {
    ParsedEmail(CleanText(e.messageId), CleanText(e.fromAddress), CleanText(e.fromName),
                CleanText(e.toAddresses), CleanText(e.subject), e.sentAt,
                CleanText(e.textBody), CleanText(e.htmlBody), CleanAttachments(e.attachments))
  }

  /** Everything Parse returns: the columns, for any outcome of the library. */
  function Parsed(m: Message): ParsedEmail {
    if m.Unreadable? then EMPTY
    else Cleaned(WithParts(FromHeaders(m.headers), PartsRead(m.events)))
  }

  predicate FullyRead(m: Message) {
    m.Readable? && PartFailure !in m.events
  }

  // ---------- the code ----------

  /** The longest prefix within the limit. */
  method ReadBody(body: text) returns (r: text)
    ensures r <= body && |r| <= MAX_BODY_BYTES
    ensures forall longer: text :: r < longer <= body ==> |longer| > MAX_BODY_BYTES
  {
    r := if |body| > MAX_BODY_BYTES then body[..MAX_BODY_BYTES] else body;
  }

  lemma LongestIsCapped(body: text, r: text)
    requires r <= body && |r| <= MAX_BODY_BYTES
    requires forall longer: text :: r < longer <= body ==> |longer| > MAX_BODY_BYTES
    ensures r == Capped(body)
  {
    if |r| < |body| {
      assert r < body[..|r| + 1] <= body;
    }
  }

  method Clean(e: ParsedEmail) returns (r: ParsedEmail)
    ensures r == Cleaned(e)
  {
    r := e.(messageId := CleanText(e.messageId), fromAddress := CleanText(e.fromAddress),
         fromName := CleanText(e.fromName), toAddresses := CleanText(e.toAddresses),
         subject := CleanText(e.subject), textBody := CleanText(e.textBody),
         htmlBody := CleanText(e.htmlBody));
    var list := e.attachments;
    for i := 0 to |list|
      invariant |list| == |e.attachments|
      invariant forall j :: i <= j < |list| ==> list[j] == e.attachments[j]
      invariant forall j :: 0 <= j < i ==> list[j] == CleanAttachments(e.attachments)[j]
    {
      var a := list[i];
      list := list[i := a.(filename := CleanText(a.filename), contentType := CleanText(a.contentType))];
    }
    r := r.(attachments := list);
  }

  method ReadHeaders(h: Headers) returns (parsed: ParsedEmail)
    ensures parsed == FromHeaders(h)
  {
    parsed := EMPTY.(messageId := h.messageId, subject := h.subject);
    if parsed.subject == [] {
      parsed := parsed.(subject := h.rawSubject);
    }
    if h.from.Some? && |h.from.value| > 0 {
      parsed := parsed.(fromAddress := Address.ToLower(h.from.value[0].address), fromName := h.from.value[0].name);
    } else {
      parsed := parsed.(fromAddress := h.rawFrom);
    }
    if h.to.Some? {
      parsed := parsed.(toAddresses := JoinAddresses(h.to.value));
    } else {
      parsed := parsed.(toAddresses := h.rawTo);
    }
    if h.date.Some? && h.date.value != 0 {
      parsed := parsed.(sentAt := h.date);
    }
  }

  /** The body of the part loop: one part after those already `read`. */
  method ReadPart(e: ParsedEmail, part: Part, ghost start: ParsedEmail, ghost read: seq<Part>)
    returns (parsed: ParsedEmail)
    requires e == WithParts(start, read)
    ensures parsed == WithParts(start, read + [part])
  {
    AttachmentsOfMore(read, part);
    assert AttachmentsOf([part]) == if IsAttachment(part) then [AttachmentOf(part)] else [];
    FirstBodyOfMore(read, part, PlainBody);
    FirstBodyOfMore(read, part, HtmlBody);
    parsed := e;
    match part.header {
      case InlineHeader(contentType) =>
        if contentType == TEXT_PLAIN || contentType == [] {
          if parsed.textBody == [] {
            var body := ReadBody(part.body);
            LongestIsCapped(part.body, body);
            parsed := parsed.(textBody := body);
          }
        } else if contentType == TEXT_HTML {
          if parsed.htmlBody == [] {
            var body := ReadBody(part.body);
            LongestIsCapped(part.body, body);
            parsed := parsed.(htmlBody := body);
          }
        } else {
          parsed := parsed.(attachments := parsed.attachments + [Attachment([], contentType, |part.body|)]);
        }
      case AttachmentHeader(filename, contentType) =>
        parsed := parsed.(attachments := parsed.attachments + [Attachment(filename, contentType, |part.body|)]);
      case OtherHeader =>
    }
  }

  /** Parse itself: `ok` is false when an error accompanies what could be read. */
  method ParseMessage(m: Message) returns (parsed: ParsedEmail, ok: bool)
    ensures parsed == Parsed(m)
    ensures ok <==> FullyRead(m)
  {
    if m.Unreadable? {
      return EMPTY, false;
    }
    parsed := ReadHeaders(m.headers);
    ghost var start := parsed;
    ghost var read: seq<Part> := [];
    var i := 0;
    while i < |m.events|
      invariant i <= |m.events|
      invariant PartFailure !in m.events[..i]
      invariant PartsRead(m.events) == read + PartsRead(m.events[i..])
      invariant parsed == WithParts(start, read)
    {
      var event := m.events[i];
      ReadOneEvent(m.events, i, read);
      i := i + 1;
      if event.PartFailure? {
        parsed := Clean(parsed);
        return parsed, false;
      }
      if event.NextPart? {
        parsed := ReadPart(parsed, event.part, start, read);
        read := read + [event.part];
      }
    }
    assert m.events[..i] == m.events;
    assert read == PartsRead(m.events);
    parsed := Clean(parsed);
    ok := true;
  }

  // ---------- the loop adds one part at a time ----------

  lemma {:induction false} FirstBodyOfMore(parts: seq<Part>, p: Part, kind: BodyKind)
    ensures FirstBody(parts + [p], kind)
            == if FirstBody(parts, kind) != [] then FirstBody(parts, kind)
               else if IsBody(p, kind) then Capped(p.body) else []
    decreases |parts|
  {
    var all := parts + [p];
    if parts == [] {
      assert all[1..] == [];
    } else {
      assert all[1..] == parts[1..] + [p];
      FirstBodyOfMore(parts[1..], p, kind);
    }
  }

  lemma {:induction false} AttachmentsOfMore(parts: seq<Part>, p: Part)
    ensures AttachmentsOf(parts + [p]) == AttachmentsOf(parts) + AttachmentsOf([p])
    decreases |parts|
  {
    var all := parts + [p];
    if parts == [] {
      assert all == [p];
    } else {
      assert all[0] == parts[0] && all[1..] == parts[1..] + [p];
      AttachmentsOfMore(parts[1..], p);
      var first: seq<Attachment> := if IsAttachment(parts[0]) then [AttachmentOf(parts[0])] else [];
      Associative(first, AttachmentsOf(parts[1..]), AttachmentsOf([p]));
    }
  }

  lemma Associative<T>(a: seq<T>, b: seq<T>, c: seq<T>)
    ensures a + (b + c) == (a + b) + c
  {
  }

  lemma ReadOneEvent(events: seq<PartEvent>, i: nat, read: seq<Part>)
    requires i < |events| && PartsRead(events) == read + PartsRead(events[i..])
    ensures events[..i + 1] == events[..i] + [events[i]]
    ensures match events[i]
            case PartFailure => PartsRead(events) == read
            case NextPart(p) => PartsRead(events) == (read + [p]) + PartsRead(events[i + 1..])
            case _ => PartsRead(events) == read + PartsRead(events[i + 1..])
  {
    var tail, rest := events[i..], PartsRead(events[i + 1..]);
    assert tail[0] == events[i] && tail[1..] == events[i + 1..];
    match events[i] {
      case PartFailure =>
        assert PartsRead(tail) == [] && read + [] == read;
      case NextPart(p) =>
        assert PartsRead(tail) == [p] + rest;
        assert read + ([p] + rest) == (read + [p]) + rest;
      case UnknownCharset =>
        assert PartsRead(tail) == [] + rest == rest;
      case UnknownEncoding =>
        assert PartsRead(tail) == [] + rest == rest;
    }
  }

  // ---------- properties of what is stored ----------

  /** The Date header gives a moment before year 1 in UTC. Nothing in Parse looks for it: only
      the zero time itself counts as no date. */
  predicate DatedBeforeYearOne(m: Message) {
    m.Readable? && m.headers.date.Some? && m.headers.date.value < 0
  }

  /** A fatal error keeps precisely what came before it. */
  lemma {:induction false} FailureKeepsPrefix(before: seq<PartEvent>, after: seq<PartEvent>)
    requires PartFailure !in before
    ensures PartsRead(before + [PartFailure] + after) == PartsRead(before)
    decreases |before|
  {
    var all := before + [PartFailure] + after;
    if before != [] {
      assert all[0] == before[0];
      assert all[1..] == before[1..] + [PartFailure] + after;
      FailureKeepsPrefix(before[1..], after);
    }
  }

  predicate StorableAttachment(a: Attachment) {
    Storable(a.filename) && Storable(a.contentType)
  }

  predicate StorableEmail(e: ParsedEmail) {
    && Storable(e.messageId) && Storable(e.fromAddress) && Storable(e.fromName)
    && Storable(e.toAddresses) && Storable(e.subject) && Storable(e.textBody) && Storable(e.htmlBody)
    && forall i :: 0 <= i < |e.attachments| ==> StorableAttachment(e.attachments[i])
  }

  /** Every exit of Parse, the early one without cleaning included, yields storable text. */
  lemma ParsedIsStorable(m: Message)
    ensures StorableEmail(Parsed(m))
  {
    if m.Readable? {
      var e := WithParts(FromHeaders(m.headers), PartsRead(m.events));
      CleanTextIsStorable(e.messageId);
      CleanTextIsStorable(e.fromAddress);
      CleanTextIsStorable(e.fromName);
      CleanTextIsStorable(e.toAddresses);
      CleanTextIsStorable(e.subject);
      CleanTextIsStorable(e.textBody);
      CleanTextIsStorable(e.htmlBody);
      forall i | 0 <= i < |e.attachments| ensures StorableAttachment(Cleaned(e).attachments[i]) {
        CleanTextIsStorable(e.attachments[i].filename);
        CleanTextIsStorable(e.attachments[i].contentType);
      }
    }
  }

  /** Part `i` has a non-empty body of the kind and no earlier part has. */
  predicate FirstOfKind(parts: seq<Part>, i: nat, kind: BodyKind)
    requires i < |parts|
  {
    && IsBody(parts[i], kind) && parts[i].body != []
    && forall j :: 0 <= j < i && IsBody(parts[j], kind) ==> parts[j].body == []
  }

  /** The stored body is the first non-empty body of its kind among the parts read, cut
      at the limit and cleaned; it is empty only when there is none. */
  lemma {:induction false} FirstBodyFound(parts: seq<Part>, kind: BodyKind)
    ensures FirstBody(parts, kind) == [] <==>
            forall j :: 0 <= j < |parts| && IsBody(parts[j], kind) ==> parts[j].body == []
    ensures forall i :: 0 <= i < |parts| && FirstOfKind(parts, i, kind) ==>
              FirstBody(parts, kind) == Capped(parts[i].body)
    decreases |parts|
  {
    if parts != [] {
      var rest := parts[1..];
      FirstBodyFound(rest, kind);
      assert forall j :: 0 < j < |parts| ==> parts[j] == rest[j - 1];
      assert forall j :: 0 <= j < |rest| ==> rest[j] == parts[j + 1];
      forall i | 0 <= i < |parts| && FirstOfKind(parts, i, kind)
        ensures FirstBody(parts, kind) == Capped(parts[i].body)
      {
        if i > 0 {
          assert FirstOfKind(rest, i - 1, kind);
        }
      }
    }
  }

  /** How many of the first `n` parts are attachments. */
  ghost function AttachmentsAmong(parts: seq<Part>, n: nat): nat
    requires n <= |parts|
  {
    |set j | 0 <= j < n && IsAttachment(parts[j])|
  }

  lemma AmongMore(parts: seq<Part>, n: nat)
    requires n < |parts|
    ensures AttachmentsAmong(parts, n + 1)
            == AttachmentsAmong(parts, n) + if IsAttachment(parts[n]) then 1 else 0
  {
    var before, now := set j | 0 <= j < n && IsAttachment(parts[j]), set j | 0 <= j < n + 1 && IsAttachment(parts[j]);
    assert now == if IsAttachment(parts[n]) then before + {n} else before;
  }

  /** There is one attachment entry for each attachment part and no other, and the entry of
      a part stands behind those of the attachment parts before it. */
  lemma {:induction false} AttachmentsInOrder(parts: seq<Part>, i: nat)
    requires i < |parts|
    ensures |AttachmentsOf(parts)| == AttachmentsAmong(parts, |parts|)
    ensures IsAttachment(parts[i]) ==>
              AttachmentsAmong(parts, i) < |AttachmentsOf(parts)|
              && AttachmentsOf(parts)[AttachmentsAmong(parts, i)] == AttachmentOf(parts[i])
    decreases |parts|
  {
    var n := |parts| - 1;
    var init, last := parts[..n], parts[n];
    assert parts == init + [last];
    AttachmentsOfMore(init, last);
    assert AttachmentsOf([last]) == if IsAttachment(last) then [AttachmentOf(last)] else [];
    AmongMore(parts, n);
    SameAmong(init, parts, n);
    if n > 0 {
      AttachmentsInOrder(init, if i < n then i else 0);
    }
    if i < n {
      SameAmong(init, parts, i);
    }
  }

  lemma SameAmong(a: seq<Part>, b: seq<Part>, n: nat)
    requires n <= |a| && a <= b
    ensures AttachmentsAmong(a, n) == AttachmentsAmong(b, n)
  {
    assert (set j | 0 <= j < n && IsAttachment(a[j])) == (set j | 0 <= j < n && IsAttachment(b[j]));
  }

  lemma BodySize(parts: seq<Part>, kind: BodyKind)
    ensures |FirstBody(parts, kind)| <= MAX_BODY_BYTES
  {
  }

  /** Cleaning can enlarge a capped body, but never beyond twice the cap plus one byte. */
  lemma StoredBodySize(m: Message)
    ensures |Parsed(m).textBody| <= 2 * MAX_BODY_BYTES + 1
    ensures |Parsed(m).htmlBody| <= 2 * MAX_BODY_BYTES + 1
  {
    if m.Readable? {
      var parts := PartsRead(m.events);
      BodySize(parts, PlainBody);
      BodySize(parts, HtmlBody);
      CleanTextSize(FirstBody(parts, PlainBody));
      CleanTextSize(FirstBody(parts, HtmlBody));
    }
  }

  /** A well-formed body over the limit is stored with every whole character that fits
      the cap, and one U+FFFD after them exactly when the cap fell inside a character. */
  lemma CappedBodyOfValidText(body: text)
    requires Valid(body)
    ensures |body| <= MAX_BODY_BYTES ==> CleanText(Capped(body)) == RemoveNul(body)
    ensures |body| > MAX_BODY_BYTES ==>
              var fit := Fitting(body, MAX_BODY_BYTES);
              && MAX_BODY_BYTES - 3 <= fit
              && CleanText(Capped(body))
                 == RemoveNul(body[..fit]) + (if Valid(Capped(body)) then [] else REPLACEMENT)
  {
    if |body| > MAX_BODY_BYTES {
      CleanTextOfCut(body, MAX_BODY_BYTES);
    }
  }
}
