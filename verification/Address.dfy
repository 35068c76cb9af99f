/** Inbound addresses: how one is generated, and how one is compared
    (services/inbound/address.go). Whitespace is Unicode's; letter case is ASCII only, so
    what is said about lower-casing is said of ASCII strings. */
module Address {
  import opened Prelude
  import opened Text
  import opened Utf8

  /** The 32 letters of a local part; o, l, 0 and 1 are left out. */
  const ALPHABET: string := "abcdefghijkmnpqrstuvwxyz23456789"
  const LOCAL_PART_LENGTH: nat := 12
  const AT: byte := 64
  const OPEN_ANGLE: byte := 60
  const CLOSE_ANGLE: byte := 62

  // ---------- string functions of the standard library ----------

  /** Unicode's white space, as its UTF-8 encodings of one, two and three bytes. */
  predicate OneByteSpace(a: byte) {
    9 <= a <= 13 || a == 32
  }

  predicate TwoByteSpace(a: byte, b: byte) {
    a == 0xC2 && (b == 0x85 || b == 0xA0)
  }

  predicate ThreeByteSpace(a: byte, b: byte, c: byte) {
    || (a == 0xE1 && b == 0x9A && c == 0x80)
    || (a == 0xE2 && b == 0x80 && (0x80 <= c <= 0x8A || c == 0xA8 || c == 0xA9 || c == 0xAF))
    || (a == 0xE2 && b == 0x81 && c == 0x9F)
    || (a == 0xE3 && b == 0x80 && c == 0x80)
  }

  /** Length of the white space character a string starts with, or 0. */
  function SpaceAhead(s: text): (w: nat)
    ensures w <= |s|
  {
    if |s| >= 1 && OneByteSpace(s[0]) then 1
    else if |s| >= 2 && TwoByteSpace(s[0], s[1]) then 2
    else if |s| >= 3 && ThreeByteSpace(s[0], s[1], s[2]) then 3
    else 0
  }

  /** Length of the white space character a string ends with, or 0. */
  function SpaceBehind(s: text): (w: nat)
    ensures w <= |s|
  {
    var n := |s|;
    if n >= 1 && OneByteSpace(s[n - 1]) then 1
    else if n >= 2 && TwoByteSpace(s[n - 2], s[n - 1]) then 2
    else if n >= 3 && ThreeByteSpace(s[n - 3], s[n - 2], s[n - 1]) then 3
    else 0
  }

  predicate AllSpace(s: text) {
    s == [] || (SpaceAhead(s) > 0 && AllSpace(s[SpaceAhead(s)..]))
  }

  function TrimLeft(s: text): (r: text)
    ensures if SpaceAhead(s) > 0 then |r| < |s| else r == s
  {
    if SpaceAhead(s) > 0 then TrimLeft(s[SpaceAhead(s)..]) else s
  }

  function TrimRight(s: text): (r: text)
    ensures if SpaceBehind(s) > 0 then |r| < |s| else r == s
  {
    if SpaceBehind(s) > 0 then TrimRight(s[..|s| - SpaceBehind(s)]) else s
  }

  function TrimSpace(s: text): text {
    TrimRight(TrimLeft(s))
  }

  function TrimPrefix(s: text, b: byte): text {
    if s != [] && s[0] == b then s[1..] else s
  }

  function TrimSuffix(s: text, b: byte): text {
    if s != [] && s[|s| - 1] == b then s[..|s| - 1] else s
  }

  function LowerByte(b: byte): byte {
    if 65 <= b <= 90 then b + 32 else b
  }

  function ToLower(s: text): (r: text)
    ensures |r| == |s|
    ensures forall i :: 0 <= i < |s| ==> r[i] == LowerByte(s[i])
  {
    if s == [] then [] else [LowerByte(s[0])] + ToLower(s[1..])
  }

  /** Index of the last `b` in the first `n` bytes of `s`, or -1. */
  function LastIndexBelow(s: text, b: byte, n: nat): (i: int)
    requires n <= |s|
    ensures -1 <= i < n
    ensures i >= 0 ==> s[i] == b
    ensures forall j :: i < j < n ==> s[j] != b
  {
    if n == 0 || s[n - 1] == b then n - 1 else LastIndexBelow(s, b, n - 1)
  }

  function LastIndex(s: text, b: byte): int {
    LastIndexBelow(s, b, |s|)
  }

  // ---------- the functions of address.go ----------

  function NormalizeAddress(address: text): text {
    ToLower(TrimSuffix(TrimPrefix(TrimSpace(address), OPEN_ANGLE), CLOSE_ANGLE))
  }

  function AddressDomain(address: text): text {
    var at := LastIndex(address, AT);
    if at < 0 then [] else address[at + 1..]
  }

  /** The letter a random byte selects. */
  function Letter(b: byte): byte {
    ALPHABET[b % 32] as int
  }

  function Spelling(random: text): (r: text)
    ensures |r| == |random|
    ensures forall i :: 0 <= i < |r| ==> r[i] == Letter(random[i])
  {
    if random == [] then [] else [Letter(random[0])] + Spelling(random[1..])
  }

  function AddressFor(random: text, domain: text): text {
    Spelling(random) + [AT] + ToLower(domain)
  }

  /** The random bytes are overwritten by the letters they select, in place. */
  method SpellInPlace(buf: array<byte>)
    modifies buf
    ensures buf[..] == Spelling(old(buf[..]))
  {
    for i := 0 to buf.Length
      invariant forall j :: 0 <= j < i ==> buf[j] == Letter(old(buf[j]))
      invariant forall j :: i <= j < buf.Length ==> buf[j] == old(buf[j])
    {
      buf[i] := Letter(buf[i]);
    }
  }

  /** `random` is what the random source delivers; None when it fails. */
  method GenerateAddress(domain: text, random: Option<text>) returns (r: Option<text>)
    requires random.Some? ==> |random.value| == LOCAL_PART_LENGTH
    ensures r == if random.None? then None else Some(AddressFor(random.value, domain))
  {
    if random.None? {
      return None;
    }
    var buf := new byte[LOCAL_PART_LENGTH](i requires 0 <= i < LOCAL_PART_LENGTH => random.value[i]);
    assert buf[..] == random.value;
    SpellInPlace(buf);
    r := Some(buf[..] + [AT] + ToLower(domain));
  }

  // ---------- normalising ----------

  /** Lead bytes and continuation bytes do not mix. */
  lemma SpaceBytes(a: byte, b: byte, c: byte)
    ensures OneByteSpace(a) ==> a < 0x80
    ensures TwoByteSpace(a, b) ==> a == 0xC2 && Continuation(b)
    ensures ThreeByteSpace(a, b, c) ==> 0xE1 <= a <= 0xE3 && Continuation(b) && Continuation(c)
  {
  }

  /** Exactly one white space character. */
  predicate IsSpace(c: text) {
    c != [] && SpaceAhead(c) == |c|
  }

  /** A white space character is recognised from both sides, whatever stands next to it. */
  lemma SpaceInContext(before: text, c: text, after: text)
    requires IsSpace(c)
    ensures SpaceAhead(c + after) == |c| && SpaceBehind(before + c) == |c|
  {
    hide OneByteSpace, TwoByteSpace, ThreeByteSpace;
    var ahead, behind := c + after, before + c;
    assert forall i :: 0 <= i < |c| ==> ahead[i] == c[i] && behind[|before| + i] == c[i];
    SpaceBytes(c[0], if |c| > 1 then c[1] else 0, if |c| > 2 then c[2] else 0);
    var last := c[|c| - 1];
    SpaceBytes(last, last, last);
    if |c| == 3 {
      SpaceBytes(c[1], last, last);
    }
  }

  lemma FirstSpace(ws: text)
    requires SpaceAhead(ws) > 0
    ensures IsSpace(ws[..SpaceAhead(ws)])
  {
    hide OneByteSpace, TwoByteSpace, ThreeByteSpace;
  }

  lemma SpaceInFront(c: text, rest: text)
    requires IsSpace(c)
    ensures AllSpace(c + rest) <==> AllSpace(rest)
  {
    hide SpaceAhead, SpaceBehind;
    SpaceInContext([], c, rest);
    assert (c + rest)[|c|..] == rest;
  }

  /** What is at the back of white space stays there when more comes in front. */
  lemma SpaceStaysBehind(c: text, rest: text)
    requires IsSpace(c) && SpaceBehind(rest) > 0 && AllSpace(rest[..|rest| - SpaceBehind(rest)])
    ensures SpaceBehind(c + rest) == SpaceBehind(rest)
    ensures AllSpace((c + rest)[..|c + rest| - SpaceBehind(rest)])
  {
    hide SpaceAhead, SpaceBehind, IsSpace, AllSpace;
    var n := |rest| - SpaceBehind(rest);
    var d, short := rest[n..], rest[..n];
    LastSpace(rest);
    SpaceInContext(c + short, d, []);
    SpaceInFront(c, short);
    assert c + rest == (c + short) + d;
    assert (c + rest)[..|c + rest| - |d|] == c + short;
  }

  lemma OneSpaceBehind(c: text)
    requires IsSpace(c)
    ensures SpaceBehind(c) == |c| && AllSpace(c[..0])
  {
    SpaceInContext([], c, []);
    assert [] + c == c;
  }

  /** White space can be read from the back as well. */
  lemma {:induction false} AllSpaceFromBack(ws: text)
    requires AllSpace(ws) && ws != []
    ensures SpaceBehind(ws) > 0 && AllSpace(ws[..|ws| - SpaceBehind(ws)])
    decreases |ws|
  {
    hide SpaceAhead, SpaceBehind, IsSpace;
    var k := SpaceAhead(ws);
    var c, rest := ws[..k], ws[k..];
    FirstSpace(ws);
    assert ws == c + rest && AllSpace(rest);
    hide AllSpace;
    if rest == [] {
      OneSpaceBehind(c);
      assert ws == c;
    } else {
      AllSpaceFromBack(rest);
      SpaceStaysBehind(c, rest);
    }
  }

  lemma LastSpace(ws: text)
    requires SpaceBehind(ws) > 0
    ensures IsSpace(ws[|ws| - SpaceBehind(ws)..])
  {
    hide OneByteSpace, TwoByteSpace, ThreeByteSpace;
    var n := |ws|;
    var w := SpaceBehind(ws);
    var c := ws[n - w..];
    assert forall i :: 0 <= i < w ==> c[i] == ws[n - w + i];
    SpaceBytes(c[0], if w > 1 then c[1] else 0, if w > 2 then c[2] else 0);
    if w == 2 {
      SpaceBytes(ws[n - 2], 0, 0);
    }
    if w == 3 {
      SpaceBytes(ws[n - 3], ws[n - 2], 0);
    }
  }

  lemma {:induction false} TrimLeftSkips(ws: text, s: text)
    requires AllSpace(ws) && SpaceAhead(s) == 0
    ensures TrimLeft(ws + s) == s
    decreases |ws|
  {
    hide SpaceAhead, SpaceBehind, IsSpace;
    if ws == [] {
      assert ws + s == s;
    } else {
      var k := SpaceAhead(ws);
      FirstSpace(ws);
      assert ws + s == ws[..k] + (ws[k..] + s);
      SpaceInContext([], ws[..k], ws[k..] + s);
      assert (ws + s)[k..] == ws[k..] + s;
      TrimLeftSkips(ws[k..], s);
    }
  }

  lemma {:induction false} TrimRightSkips(s: text, ws: text)
    requires AllSpace(ws) && SpaceBehind(s) == 0
    ensures TrimRight(s + ws) == s
    decreases |ws|
  {
    hide SpaceAhead, SpaceBehind, IsSpace;
    if ws == [] {
      assert s + ws == s;
    } else {
      AllSpaceFromBack(ws);
      var n := |ws| - SpaceBehind(ws);
      LastSpace(ws);
      assert s + ws == (s + ws[..n]) + ws[n..];
      SpaceInContext(s + ws[..n], ws[n..], []);
      assert (s + ws)[..|s| + n] == s + ws[..n];
      TrimRightSkips(s, ws[..n]);
    }
  }

  /** What follows a string can complete a white space character only with a continuation
      byte, and what comes before it only with a lead byte. */
  lemma NothingAppended(s: text, after: text)
    requires s != [] && SpaceAhead(s) == 0 && (after == [] || !Continuation(after[0]))
    ensures SpaceAhead(s + after) == 0
  {
    hide OneByteSpace, TwoByteSpace, ThreeByteSpace;
    var u := s + after;
    assert forall i :: 0 <= i < |s| ==> u[i] == s[i];
    assert |u| > |s| ==> u[|s|] == after[0];
    SpaceBytes(u[0], if |u| > 1 then u[1] else 0, if |u| > 2 then u[2] else 0);
  }

  lemma NothingPrepended(before: text, s: text)
    requires s != [] && SpaceBehind(s) == 0 && (before == [] || before[|before| - 1] < 0x80)
    ensures SpaceBehind(before + s) == 0
  {
    hide OneByteSpace, TwoByteSpace, ThreeByteSpace;
    var u := before + s;
    var n, k := |u|, |before|;
    assert forall i :: 0 <= i < |s| ==> u[k + i] == s[i];
    assert k > 0 ==> u[k - 1] == before[k - 1];
    if n > 1 {
      SpaceBytes(u[n - 2], u[n - 1], 0);
    }
    if n > 2 {
      SpaceBytes(u[n - 3], u[n - 2], u[n - 1]);
    }
  }

  lemma SpaceLeads(ws: text)
    requires ws != [] && SpaceAhead(ws) > 0
    ensures !Continuation(ws[0])
  {
    SpaceBytes(ws[0], if |ws| > 1 then ws[1] else 0, if |ws| > 2 then ws[2] else 0);
    hide OneByteSpace, TwoByteSpace, ThreeByteSpace;
  }

  lemma TrimSpaceSkips(before: text, s: text, after: text)
    requires AllSpace(before) && AllSpace(after)
    requires s != [] && SpaceAhead(s) == 0 && SpaceBehind(s) == 0
    ensures TrimSpace(before + s + after) == s
  {
    hide SpaceAhead, SpaceBehind, Continuation, TrimLeft, TrimRight;
    if after != [] {
      SpaceLeads(after);
    }
    NothingAppended(s, after);
    hide AllSpace;
    assert before + s + after == before + (s + after);
    TrimLeftSkips(before, s + after);
    TrimRightSkips(s, after);
  }

  /** An optional angle bracket. */
  predicate Bracket(s: text, b: byte) {
    s == [] || s == [b]
  }

  /** One bracket is taken off each end where there is one, and no more; what is between is
      not looked at again. */
  predicate Unwraps(open: text, s: text, close: text) {
    && Bracket(open, OPEN_ANGLE) && Bracket(close, CLOSE_ANGLE)
    && (open == [] && s + close != [] ==> (s + close)[0] != OPEN_ANGLE)
    && (close == [] && s != [] ==> s[|s| - 1] != CLOSE_ANGLE)
  }

  /** What normalising does to any string: white space goes first, then one bracket at each
      end, then the letters are lowered. */
  lemma NormalizeExactly(before: text, open: text, s: text, close: text, after: text)
    requires AllSpace(before) && AllSpace(after) && Unwraps(open, s, close)
    requires var core := open + s + close;
             core != [] && SpaceAhead(core) == 0 && SpaceBehind(core) == 0
    ensures NormalizeAddress(before + (open + s + close) + after) == ToLower(s)
  {
    hide NormalizeAddress, ToLower, SpaceAhead, SpaceBehind;
    NormalizeTrimmed(before, open + s + close, after);
    BracketsGone(open, s, close);
  }

  lemma NormalizeUndecorates(before: text, open: text, s: text, close: text, after: text)
    requires AllSpace(before) && AllSpace(after)
    requires Bracket(open, OPEN_ANGLE) && Bracket(close, CLOSE_ANGLE)
    requires s != [] && Bare(s)
    ensures NormalizeAddress(before + (open + s + close) + after) == ToLower(s)
  {
    Ends(open, s, close);
    hide NormalizeAddress, ToLower, TrimSuffix, TrimPrefix, SpaceAhead, SpaceBehind;
    NormalizeExactly(before, open, s, close, after);
  }

  lemma BracketsGone(open: text, s: text, close: text)
    requires Unwraps(open, s, close)
    ensures TrimSuffix(TrimPrefix(open + s + close, OPEN_ANGLE), CLOSE_ANGLE) == s
  {
    assert open + s + close == open + (s + close);
    TrimPrefixSkips(open, s + close, OPEN_ANGLE);
    TrimSuffixSkips(s, close, CLOSE_ANGLE);
  }

  /** Brackets are not white space and do not make any. */
  lemma Ends(open: text, s: text, close: text)
    requires Bracket(open, OPEN_ANGLE) && Bracket(close, CLOSE_ANGLE)
    requires s != [] && SpaceAhead(s) == 0 && SpaceBehind(s) == 0
    ensures SpaceAhead(open + s + close) == 0 && SpaceBehind(open + s + close) == 0
  {
    var core := open + s + close;
    hide SpaceAhead, SpaceBehind;
    if open == [] {
      assert core == s + close;
      NothingAppended(s, close);
    } else {
      AsciiAhead(core);
    }
    if close == [] {
      assert core == open + s;
      NothingPrepended(open, s);
    } else {
      AsciiBehind(core);
    }
  }

  /** An ASCII byte at an end decides by itself whether white space is there. */
  lemma AsciiAhead(s: text)
    requires s != [] && s[0] < 0x80
    ensures SpaceAhead(s) == if OneByteSpace(s[0]) then 1 else 0
  {
  }

  lemma AsciiBehind(s: text)
    requires s != [] && s[|s| - 1] < 0x80
    ensures SpaceBehind(s) == if OneByteSpace(s[|s| - 1]) then 1 else 0
  {
  }

  lemma NormalizeTrimmed(before: text, core: text, after: text)
    requires AllSpace(before) && AllSpace(after)
    requires core != [] && SpaceAhead(core) == 0 && SpaceBehind(core) == 0
    ensures NormalizeAddress(before + core + after)
            == ToLower(TrimSuffix(TrimPrefix(core, OPEN_ANGLE), CLOSE_ANGLE))
  {
    TrimSpaceSkips(before, core, after);
  }

  lemma TrimPrefixSkips(open: text, s: text, b: byte)
    requires Bracket(open, b) && (open == [] && s != [] ==> s[0] != b)
    ensures TrimPrefix(open + s, b) == s
  {
    if open == [] {
      assert open + s == s;
    }
  }

  lemma TrimSuffixSkips(s: text, close: text, b: byte)
    requires Bracket(close, b) && (close == [] && s != [] ==> s[|s| - 1] != b)
    ensures TrimSuffix(s + close, b) == s
  {
    if close == [] {
      assert s + close == s;
    }
  }

  /** Neither white space nor an angle bracket at the ends. */
  predicate Bare(s: text) {
    s == [] || (SpaceAhead(s) == 0 && SpaceBehind(s) == 0 && s[0] != OPEN_ANGLE && s[|s| - 1] != CLOSE_ANGLE)
  }

  function Undecorated(s: text): text {
    TrimSuffix(TrimPrefix(TrimSpace(s), OPEN_ANGLE), CLOSE_ANGLE)
  }

  lemma UndecoratedIs(s: text)
    ensures NormalizeAddress(s) == ToLower(Undecorated(s))
    ensures if Bare(s) then Undecorated(s) == s else |Undecorated(s)| < |s|
  {
    hide TrimLeft, TrimRight, SpaceAhead, SpaceBehind, ToLower;
    var t := TrimLeft(s);
    assert TrimSpace(s) == TrimRight(t);
    if SpaceAhead(s) == 0 {
      assert t == s;
    }
  }

  /** Normalising only lowers the case exactly when there was nothing to strip. */
  lemma NormalizeOnlyLowers(s: text)
    requires Ascii(s)
    ensures NormalizeAddress(s) == ToLower(s) <==> Bare(s)
  {
    hide Undecorated, NormalizeAddress, Bare;
    UndecoratedIs(s);
    assert |ToLower(Undecorated(s))| == |Undecorated(s)| && |ToLower(s)| == |s|;
  }

  lemma NoAtInSpace(c: text)
    requires IsSpace(c)
    ensures AT !in c
  {
  }

  lemma {:induction false} TrimsKeepAt(s: text)
    ensures AT in s ==> AT in TrimLeft(s) && AT in TrimRight(s)
    decreases |s|
  {
    hide SpaceAhead, SpaceBehind, IsSpace;
    var ahead, n := SpaceAhead(s), |s| - SpaceBehind(s);
    if ahead > 0 {
      FirstSpace(s);
      NoAtInSpace(s[..ahead]);
      assert s == s[..ahead] + s[ahead..];
      TrimsKeepAt(s[ahead..]);
    }
    if n < |s| {
      LastSpace(s);
      NoAtInSpace(s[n..]);
      assert s == s[..n] + s[n..];
      TrimsKeepAt(s[..n]);
    }
  }

  lemma BracketsKeepAt(s: text)
    requires AT in s
    ensures AT in TrimPrefix(s, OPEN_ANGLE) && AT in TrimSuffix(s, CLOSE_ANGLE)
  {
    var i :| 0 <= i < |s| && s[i] == AT;
    assert s[0] == OPEN_ANGLE ==> s[1..][i - 1] == AT;
    assert s[|s| - 1] == CLOSE_ANGLE ==> s[..|s| - 1][i] == AT;
  }

  lemma NormalizeKeepsAt(s: text)
    requires AT in s
    ensures AT in NormalizeAddress(s)
  {
    hide TrimLeft, TrimRight, TrimPrefix, TrimSuffix, ToLower;
    TrimsKeepAt(s);
    TrimsKeepAt(TrimLeft(s));
    BracketsKeepAt(TrimSpace(s));
    BracketsKeepAt(TrimPrefix(TrimSpace(s), OPEN_ANGLE));
    LoweredDomain(TrimSuffix(TrimPrefix(TrimSpace(s), OPEN_ANGLE), CLOSE_ANGLE));
  }

  // ---------- generated addresses ----------

  /** The table of letters in closed form, to reason about it by arithmetic. */
  lemma AlphabetTable(i: nat)
    requires i < 32
    ensures |ALPHABET| == 32
    ensures ALPHABET[i] as int
            == if i < 11 then 97 + i else if i < 13 then 98 + i else if i < 24 then 99 + i else 26 + i
  {
  }

  /** Thirty-two different letters or digits, all lower case. */
  lemma LettersAreDistinct(a: byte, b: byte)
    ensures Letter(a) == Letter(b) <==> a % 32 == b % 32
    ensures 97 <= Letter(a) <= 122 || 50 <= Letter(a) <= 57
  {
    AlphabetTable(a % 32);
    AlphabetTable(b % 32);
  }

  lemma {:induction false} SpellingHasNoAt(random: text)
    ensures AT !in Spelling(random)
  {
    forall i | 0 <= i < |random| ensures Spelling(random)[i] != AT {
      LettersAreDistinct(random[i], 0);
    }
  }

  lemma DomainAfterAt(local: text, domain: text)
    ensures AT !in AddressDomain(local + [AT] + domain)
    ensures AT !in domain ==> AddressDomain(local + [AT] + domain) == domain
  {
    var a := local + [AT] + domain;
    NoAtAfterLast(a);
    if AT !in domain {
      assert a[|local|] == AT && a[|local| + 1..] == domain;
      forall j | |local| < j < |a| ensures a[j] != AT {
        assert a[j] == domain[j - |local| - 1];
      }
      LastIndexIs(a, AT, |a|, |local|);
    }
  }

  /** The domain is what follows the last @, and nothing where there is none. */
  lemma AddressDomainIff(a: text, domain: text)
    ensures AddressDomain(a) == domain <==>
            AT !in domain
            && if AT in a then exists local: text :: a == local + [AT] + domain else domain == []
  {
    NoAtAfterLast(a);
    var at := LastIndex(a, AT);
    if at >= 0 {
      assert a == a[..at] + [AT] + a[at + 1..];
      assert AT in a;
    }
    if local: text :| a == local + [AT] + domain && AT !in domain {
      DomainAfterAt(local, domain);
    }
  }

  lemma NoAtAfterLast(a: text)
    ensures AT !in AddressDomain(a)
  {
  }

  lemma {:induction false} LastIndexIs(s: text, b: byte, n: nat, i: nat)
    requires i < n <= |s| && s[i] == b
    requires forall j :: i < j < n ==> s[j] != b
    ensures LastIndexBelow(s, b, n) == i
    decreases n
  {
    if n - 1 > i {
      LastIndexIs(s, b, n - 1, i);
    }
  }

  lemma LoweredDomain(domain: text)
    ensures AT in ToLower(domain) <==> AT in domain
  {
    if AT in domain {
      var i :| 0 <= i < |domain| && domain[i] == AT;
      assert ToLower(domain)[i] == AT;
    }
    if AT in ToLower(domain) {
      var i :| 0 <= i < |domain| && ToLower(domain)[i] == AT;
      assert domain[i] == AT;
    }
  }

  /** The configured domain is one under which generated addresses can be found again. */
  predicate GoodDomain(domain: text)
    requires Ascii(domain)
  {
    NormalizeAddress(domain) == ToLower(domain) && AT !in domain
  }

  /** A generated address, in any letter case, with whitespace around it and with or
      without either angle bracket, is recognised as itself and as local. */
  lemma GeneratedRoundTrip(random: text, domain: text,
                           before: text, open: text, typed: text, close: text, after: text)
    requires random != [] && Ascii(domain) && GoodDomain(domain)
    requires AllSpace(before) && AllSpace(after)
    requires Bracket(open, OPEN_ANGLE) && Bracket(close, CLOSE_ANGLE)
    requires ToLower(typed) == AddressFor(random, domain)
    ensures NormalizeAddress(before + (open + typed + close) + after) == AddressFor(random, domain)
    ensures AddressDomain(AddressFor(random, domain)) == NormalizeAddress(domain)
  {
    hide AddressFor, AddressDomain, ToLower, NormalizeAddress, AllSpace, SpaceAhead, SpaceBehind;
    TypedIsBare(random, domain, typed);
    NormalizeUndecorates(before, open, typed, close, after);
    GeneratedDomain(random, domain);
  }

  /** No letter case puts white space or a bracket at an end of a generated address. */
  lemma TypedIsBare(random: text, domain: text, typed: text)
    requires random != [] && Ascii(domain) && GoodDomain(domain)
    requires ToLower(typed) == AddressFor(random, domain)
    ensures typed != [] && Bare(typed)
  {
    var address, last := AddressFor(random, domain), |typed| - 1;
    assert address[0] == Letter(random[0]);
    assert address[last] == if domain == [] then AT else LowerByte(domain[|domain| - 1]);
    NormalizeOnlyLowers(domain);
    AddressIsAscii(random, domain);
    LettersAreDistinct(random[0], 0);
    hide SpaceAhead, SpaceBehind, AddressFor, Letter, NormalizeAddress;
    assert address[0] == LowerByte(typed[0]) && address[last] == LowerByte(typed[last]);
    AsciiAhead(typed);
    AsciiBehind(typed);
    if domain != [] {
      AsciiBehind(domain);
    }
  }

  lemma AddressIsAscii(random: text, domain: text)
    requires Ascii(domain)
    ensures Ascii(AddressFor(random, domain))
  {
    var address := AddressFor(random, domain);
    forall i | 0 <= i < |address| ensures address[i] < 0x80 {
      if i < |random| {
        LettersAreDistinct(random[i], 0);
        assert address[i] == Letter(random[i]);
      } else if i > |random| {
        assert address[i] == LowerByte(domain[i - |random| - 1]);
      }
    }
  }

  /** Exactly the good domains make a generated address its own normal form under the
      store's domain; under any other, mail to a new project is refused. */
  lemma OwnAddressRecognised(random: text, domain: text)
    requires random != [] && Ascii(domain)
    ensures var address := AddressFor(random, domain);
            NormalizeAddress(address) == address && AddressDomain(address) == NormalizeAddress(domain)
            <==> GoodDomain(domain)
  {
    hide NormalizeAddress, AddressFor, AddressDomain, ToLower;
    var address := AddressFor(random, domain);
    if GoodDomain(domain) {
      LoweredIsLower(random, domain);
      assert [] + ([] + address + []) + [] == address;
      GeneratedRoundTrip(random, domain, [], [], address, [], []);
    } else if AT in domain {
      NormalizeKeepsAt(domain);
      GeneratedDomain(random, domain);
    } else {
      GeneratedDomain(random, domain);
    }
  }

  lemma GeneratedDomain(random: text, domain: text)
    ensures AT !in AddressDomain(AddressFor(random, domain))
    ensures AT !in domain ==> AddressDomain(AddressFor(random, domain)) == ToLower(domain)
  {
    SpellingHasNoAt(random);
    LoweredDomain(domain);
    DomainAfterAt(Spelling(random), ToLower(domain));
  }

  /** What makes an ASCII domain good can be read off its characters: no @ in it, no white
      space at its ends, and it neither starts with < nor ends with >. */
  lemma GoodDomainIff(domain: text)
    requires Ascii(domain)
    ensures GoodDomain(domain) <==>
            AT !in domain
            && (domain != [] ==>
                  var first, last := domain[0], domain[|domain| - 1];
                  !OneByteSpace(first) && !OneByteSpace(last) && first != OPEN_ANGLE && last != CLOSE_ANGLE)
  {
    hide NormalizeAddress, ToLower, SpaceAhead, SpaceBehind;
    NormalizeOnlyLowers(domain);
    if domain != [] {
      AsciiAhead(domain);
      AsciiBehind(domain);
    }
  }

  const LOCALHOST: text := [108, 111, 99, 97, 108, 104, 111, 115, 116]

  /** The default domain, localhost, is a good one; one with an @ or with a space at its end
      is not. */
  lemma GoodAndBadDomains()
    ensures Ascii(LOCALHOST) && GoodDomain(LOCALHOST)
    ensures var a: text := [97, AT, 98]; Ascii(a) && !GoodDomain(a)
    ensures var b: text := [97, 32]; Ascii(b) && !GoodDomain(b)
  {
    hide GoodDomain;
    var a: text, b: text := [97, AT, 98], [97, 32];
    GoodDomainIff(LOCALHOST);
    GoodDomainIff(b);
    assert a[1] == AT;
    GoodDomainIff(a);
  }

  /** Under an ASCII domain generated addresses are text a column accepts. */
  lemma GeneratedIsStorable(random: text, domain: text)
    requires Ascii(domain) && NulFree(domain)
    ensures Storable(AddressFor(random, domain))
  {
    var address := AddressFor(random, domain);
    AddressIsAscii(random, domain);
    forall i | 0 <= i < |address| ensures address[i] != NUL {
      if i < |random| {
        LettersAreDistinct(random[i], 0);
        assert address[i] == Letter(random[i]);
      } else if i > |random| {
        assert address[i] == LowerByte(domain[i - |random| - 1]);
      }
    }
    AsciiIsStorable(address);
  }

  lemma LoweredIsLower(random: text, domain: text)
    ensures ToLower(AddressFor(random, domain)) == AddressFor(random, domain)
  {
    var address := AddressFor(random, domain);
    forall i | 0 <= i < |address| ensures LowerByte(address[i]) == address[i] {
      if i < |random| {
        LettersAreDistinct(random[i], 0);
        assert address[i] == Letter(random[i]);
      } else if i > |random| {
        assert address[i] == LowerByte(domain[i - |random| - 1]);
      }
    }
  }

  // ---------- no word is more likely than another ----------

  function Pow(b: nat, e: nat): nat {
    if e == 0 then 1 else b * Pow(b, e - 1)
  }

  /** All buffers that spell the same word as `random`. */
  ghost function Spellers(random: text): set<text> {
    if random == [] then {[]} else Prepended(random[0] % 32, 8, Spellers(random[1..]))
  }

  ghost function Prefixed(b: byte, tails: set<text>): set<text> {
    set t | t in tails :: [b] + t
  }

  /** Each tail with one of the bytes r, r + 32, ..., r + 32 * (n - 1) in front of it. */
  ghost function Prepended(r: nat, n: nat, tails: set<text>): set<text>
    requires r < 32 && n <= 8
  {
    if n == 0 then {} else Prepended(r, n - 1, tails) + Prefixed(r + 32 * (n - 1), tails)
  }

  lemma PrefixedMember(b: byte, tails: set<text>, s: text)
    ensures s in Prefixed(b, tails) <==> s != [] && s[0] == b && s[1..] in tails
  {
    if s != [] && s[0] == b && s[1..] in tails {
      assert s == [b] + s[1..];
    }
    forall t | t in tails && s == [b] + t ensures s[1..] == t {
    }
  }

  lemma {:induction false} PrependedMember(r: nat, n: nat, tails: set<text>, s: text)
    requires r < 32 && n <= 8
    ensures s in Prepended(r, n, tails)
            <==> s != [] && s[0] % 32 == r && s[0] / 32 < n && s[1..] in tails
    decreases n
  {
    if n > 0 {
      PrependedMember(r, n - 1, tails, s);
      PrefixedMember(r + 32 * (n - 1), tails, s);
    }
  }

  lemma SameSpelling(s: text, t: text)
    requires s != [] && t != []
    ensures Spelling(s) == Spelling(t) <==>
            Letter(s[0]) == Letter(t[0]) && Spelling(s[1..]) == Spelling(t[1..])
  {
    assert Spelling(s)[0] == Letter(s[0]) && Spelling(s)[1..] == Spelling(s[1..]);
    assert Spelling(t)[0] == Letter(t[0]) && Spelling(t)[1..] == Spelling(t[1..]);
  }

  /** Spellers really is the set of all buffers spelling the word. */
  lemma {:induction false} SpellersAreAll(random: text, s: text)
    ensures s in Spellers(random) <==> |s| == |random| && Spelling(s) == Spelling(random)
    decreases |random|
  {
    if random != [] {
      PrependedMember(random[0] % 32, 8, Spellers(random[1..]), s);
      if s != [] {
        SpellersAreAll(random[1..], s[1..]);
        LettersAreDistinct(s[0], random[0]);
        SameSpelling(s, random);
      }
    }
  }

  lemma {:induction false} PrependedCount(r: nat, n: nat, tails: set<text>)
    requires r < 32 && n <= 8
    ensures |Prepended(r, n, tails)| == n * |tails|
    decreases n
  {
    if n > 0 {
      var b := r + 32 * (n - 1);
      PrependedCount(r, n - 1, tails);
      PrefixedCount(b, tails);
      PrefixesDiffer(r, n, tails);
      OneTimesMore(n, |tails|);
    }
  }

  lemma PrefixesDiffer(r: nat, n: nat, tails: set<text>)
    requires r < 32 && 0 < n <= 8
    ensures Prepended(r, n - 1, tails) !! Prefixed(r + 32 * (n - 1), tails)
  {
    var b := r + 32 * (n - 1);
    forall s | s in Prefixed(b, tails) ensures s !in Prepended(r, n - 1, tails) {
      PrefixedMember(b, tails, s);
      PrependedMember(r, n - 1, tails, s);
    }
  }

  lemma OneTimesMore(n: nat, m: nat)
    requires n > 0
    ensures n * m == (n - 1) * m + m
  {
  }

  lemma {:induction false} PrefixedCount(b: byte, tails: set<text>)
    ensures |Prefixed(b, tails)| == |tails|
    decreases |tails|
  {
    if tails == {} {
      assert Prefixed(b, tails) == {};
    } else {
      var x :| x in tails;
      PrefixedCount(b, tails - {x});
      PrefixedMember(b, tails - {x}, [b] + x);
      assert ([b] + x)[1..] == x;
      assert Prefixed(b, tails) == Prefixed(b, tails - {x}) + {[b] + x};
    }
  }

  /** A word that some buffer spells is spelled by exactly 8^n of the 256^n buffers of its
      length. */
  lemma {:induction false} GenerationIsUnbiased(random: text)
    ensures |Spellers(random)| == Pow(8, |random|)
    decreases |random|
  {
    if random != [] {
      var tails := Spellers(random[1..]);
      GenerationIsUnbiased(random[1..]);
      PrependedCount(random[0] % 32, 8, tails);
    }
  }

  predicate InAlphabet(letter: byte) {
    exists k :: 0 <= k < |ALPHABET| && ALPHABET[k] as int == letter
  }

  predicate OverAlphabet(word: text) {
    forall i :: 0 <= i < |word| ==> InAlphabet(word[i])
  }

  lemma LetterIsSelected(letter: byte) returns (b: byte)
    requires InAlphabet(letter)
    ensures Letter(b) == letter
  {
    var k :| 0 <= k < |ALPHABET| && ALPHABET[k] as int == letter;
    SelectedByItself(k);
    b := k;
  }

  lemma SelectedByItself(k: nat)
    requires k < |ALPHABET|
    ensures k < 32 && Letter(k) == ALPHABET[k] as int
  {
    AlphabetTable(0);
  }

  lemma {:induction false} EveryWordIsSpelled(word: text) returns (random: text)
    requires OverAlphabet(word)
    ensures |random| == |word| && Spelling(random) == word
    decreases |word|
  {
    hide InAlphabet, Letter;
    if word == [] {
      random := [];
    } else {
      var first := LetterIsSelected(word[0]);
      var rest := EveryWordIsSpelled(word[1..]);
      random := [first] + rest;
      assert random[1..] == rest;
    }
  }

  lemma LettersAreInAlphabet(b: byte)
    ensures InAlphabet(Letter(b))
  {
    AlphabetTable(b % 32);
    assert ALPHABET[b % 32] as int == Letter(b);
  }

  lemma SpellingsAreOverAlphabet(random: text)
    ensures OverAlphabet(Spelling(random))
  {
    hide InAlphabet, Letter;
    forall i | 0 <= i < |random| ensures InAlphabet(Spelling(random)[i]) {
      LettersAreInAlphabet(random[i]);
    }
  }

  /** The generator can spell exactly the words over its alphabet, and each of length n from
      exactly 8^n buffers. */
  lemma WordsAreEquallyLikely(word: text) returns (buffers: set<text>)
    ensures forall s: text :: s in buffers <==> |s| == |word| && Spelling(s) == word
    ensures |buffers| == if OverAlphabet(word) then Pow(8, |word|) else 0
  {
    if OverAlphabet(word) {
      var random := EveryWordIsSpelled(word);
      buffers := Spellers(random);
      GenerationIsUnbiased(random);
      forall s: text ensures s in buffers <==> |s| == |word| && Spelling(s) == word {
        SpellersAreAll(random, s);
      }
    } else {
      buffers := {};
      forall s: text ensures Spelling(s) != word {
        SpellingsAreOverAlphabet(s);
      }
    }
  }

  /** The same of whole addresses: the local part is the whole spelled word. */
  lemma AddressesAreEquallyLikely(word: text, domain: text) returns (buffers: set<text>)
    ensures forall s: text :: s in buffers <==>
              |s| == |word| && AddressFor(s, domain) == word + [AT] + ToLower(domain)
    ensures |buffers| == if OverAlphabet(word) then Pow(8, |word|) else 0
  {
    hide Spelling, ToLower, AddressFor, OverAlphabet, Pow;
    buffers := WordsAreEquallyLikely(word);
    forall s: text | |s| == |word|
      ensures AddressFor(s, domain) == word + [AT] + ToLower(domain) <==> Spelling(s) == word
    {
      LocalPart(s, word, domain);
    }
  }

  lemma LocalPart(random: text, word: text, domain: text)
    requires |random| == |word|
    ensures AddressFor(random, domain) == word + [AT] + ToLower(domain) <==> Spelling(random) == word
  {
    assert AddressFor(random, domain)[..|word|] == Spelling(random);
    assert (word + [AT] + ToLower(domain))[..|word|] == word;
  }

  // ---------- white space and letter case by name ----------

  /** The code points Go's unicode.IsSpace knows. */
  predicate WhiteSpace(v: int) {
    || 0x09 <= v <= 0x0D || v == 0x20 || v == 0x85 || v == 0xA0 || v == 0x1680
    || 0x2000 <= v <= 0x200A || v == 0x2028 || v == 0x2029 || v == 0x202F || v == 0x205F || v == 0x3000
  }

  ghost predicate EncodesSpace(c: text, v: int) {
    WhiteSpace(v) && Scalar(v) && c == Encode(v)
  }

  /** The byte patterns are the encodings of those. */
  lemma IsSpaceIff(c: text)
    ensures IsSpace(c) <==> exists v: int :: EncodesSpace(c, v)
  {
    if IsSpace(c) {
      SpaceDecoded(c);
      assert EncodesSpace(c, Decoded(c));
    }
    if v: int :| EncodesSpace(c, v) {
      SpaceEncoded(v);
    }
  }

  lemma SpaceDecoded(c: text)
    requires IsSpace(c)
    ensures Width(c) == |c| && WhiteSpace(Decoded(c)) && Scalar(Decoded(c)) && Encode(Decoded(c)) == c
  {
    assert Width(c) == |c|;
    assert c[..|c|] == c;
    DecodedEncodes(c);
  }

  lemma SpaceEncoded(v: int)
    requires WhiteSpace(v) && Scalar(v)
    ensures IsSpace(Encode(v))
  {
  }

  /** Nothing is left of a string exactly when it is white space throughout. */
  lemma BlankIff(s: text)
    ensures TrimSpace(s) == [] <==> AllSpace(s)
  {
    TrimLeftBlankIff(s);
    var t := TrimLeft(s);
    if t != [] {
      TrimLeftStops(s);
      TrimRightKeepsFront(t);
    }
  }

  lemma {:induction false} TrimLeftBlankIff(s: text)
    ensures TrimLeft(s) == [] <==> AllSpace(s)
    decreases |s|
  {
    if SpaceAhead(s) > 0 {
      TrimLeftBlankIff(s[SpaceAhead(s)..]);
    }
  }

  lemma {:induction false} TrimLeftStops(s: text)
    ensures SpaceAhead(TrimLeft(s)) == 0
    decreases |s|
  {
    if SpaceAhead(s) > 0 {
      TrimLeftStops(s[SpaceAhead(s)..]);
    }
  }

  /** Trimming the end cannot reach a front that is no white space. */
  lemma {:induction false} TrimRightKeepsFront(s: text)
    requires s != [] && SpaceAhead(s) == 0
    ensures TrimRight(s) != []
    decreases |s|
  {
    hide SpaceAhead, SpaceBehind, IsSpace;
    var n := |s| - SpaceBehind(s);
    if n < |s| {
      LastSpace(s);
      var c := s[n..];
      assert s == s[..n] + c;
      if n == 0 {
        SpaceInContext([], c, []);
        assert c + [] == s;
      } else {
        FrontIsNoSpace(s[..n], c);
        TrimRightKeepsFront(s[..n]);
      }
    }
  }

  lemma FrontIsNoSpace(s: text, after: text)
    requires s != [] && SpaceAhead(s + after) == 0
    ensures SpaceAhead(s) == 0
  {
    if SpaceAhead(s) > 0 {
      SpaceStays(s, after);
    }
  }

  lemma SpaceStays(s: text, after: text)
    requires SpaceAhead(s) > 0
    ensures SpaceAhead(s + after) > 0
  {
    hide SpaceAhead, SpaceBehind;
    var c := s[..SpaceAhead(s)];
    FirstSpace(s);
    SpaceInContext([], c, s[|c|..] + after);
    assert c + (s[|c|..] + after) == s + after;
  }

  const CAPITALS: string := "ABCDEFGHIJKLMNOPQRSTUVWXYZ"
  const SMALL: string := "abcdefghijklmnopqrstuvwxyz"

  /** Each capital becomes the small letter of the same place, and no other byte changes. */
  lemma LowerByteIs(b: byte)
    ensures forall k :: 0 <= k < 26 && b == CAPITALS[k] as int ==> LowerByte(b) == SMALL[k] as int
    ensures (forall k :: 0 <= k < 26 ==> b != CAPITALS[k] as int) ==> LowerByte(b) == b
  {
    LetterTables();
    if 65 <= b <= 90 {
      assert CAPITALS[b - 65] as int == b;
    }
  }

  lemma LetterTables()
    ensures |CAPITALS| == 26 && |SMALL| == 26
    ensures forall k :: 0 <= k < 26 ==> CAPITALS[k] as int == 65 + k && SMALL[k] as int == 97 + k
  {
  }
}
