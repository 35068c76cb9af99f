/** Go strings as byte sequences, UTF-8 validity as RFC 3629 section 4 defines it, and
    the text cleaning that makes a string acceptable to a PostgreSQL TEXT column. */
module Text {
  type byte = x: int | 0 <= x < 256

  /** A Go string: any bytes at all, not necessarily well-formed UTF-8. */
  type text = seq<byte>

  const NUL: byte := 0

  /** U+FFFD in UTF-8. */
  const REPLACEMENT: text := [0xEF, 0xBF, 0xBD]

  // ---------- UTF-8, one character at a time ----------

  predicate Continuation(b: byte) {
    0x80 <= b <= 0xBF
  }

  /** How many bytes a lead byte announces; 0 for a byte that leads nothing. */
  function Announced(lead: byte): (n: nat)
    ensures n <= 4
  {
    if lead < 0x80 then 1
    else if 0xC2 <= lead <= 0xDF then 2
    else if 0xE0 <= lead <= 0xEF then 3
    else if 0xF0 <= lead <= 0xF4 then 4
    else 0
  }

  /** The second byte is narrowed for four leads: no overlong forms, no surrogates,
      nothing above U+10FFFF. */
  predicate SecondByte(lead: byte, b: byte) {
    if lead == 0xE0 then 0xA0 <= b <= 0xBF
    else if lead == 0xED then 0x80 <= b <= 0x9F
    else if lead == 0xF0 then 0x90 <= b <= 0xBF
    else if lead == 0xF4 then 0x80 <= b <= 0x8F
    else Continuation(b)
  }

  /** Length of the well-formed character that `s` starts with; 0 when there is none,
      in which case Go's decoder consumes one invalid byte. */
  function Width(s: text): (w: nat)
    ensures w <= 4 && w <= |s|
  {
    if s == [] then 0
    else
      var n := Announced(s[0]);
      if && n <= |s|
         && (n >= 2 ==> SecondByte(s[0], s[1]))
         && (n >= 3 ==> Continuation(s[2]))
         && (n >= 4 ==> Continuation(s[3]))
      then n else 0
  }

  predicate Valid(s: text) {
    s == [] || (Width(s) > 0 && Valid(s[Width(s)..]))
  }

  predicate NulFree(s: text) {
    forall i :: 0 <= i < |s| ==> s[i] != NUL
  }

  /** What a TEXT column accepts. */
  predicate Storable(s: text) {
    Valid(s) && NulFree(s)
  }

  // ---------- the cleaning itself ----------

  /** Go's strings.ToValidUTF8 with U+FFFD: characters are copied, each run of invalid
      bytes becomes one replacement. `inRun` says the previous byte was invalid. */
  function ToValidUTF8(s: text, inRun: bool): text {
    if s == [] then []
    else if Width(s) == 0 then (if inRun then [] else REPLACEMENT) + ToValidUTF8(s[1..], true)
    else s[..Width(s)] + ToValidUTF8(s[Width(s)..], false)
  }

  function RemoveNul(s: text): text {
    if s == [] then []
    else (if s[0] == NUL then [] else [s[0]]) + RemoveNul(s[1..])
  }

  function CleanText(value: text): text {
    RemoveNul(if Valid(value) then value else ToValidUTF8(value, false))
  }

  // ---------- characters do not depend on what follows them ----------

  lemma WidthOfPrefix(s: text, t: text)
    requires Width(s) > 0
    ensures Width(s + t) == Width(s) && (s + t)[Width(s)..] == s[Width(s)..] + t
  {
    assert (s + t)[0] == s[0];
  }

  /** Nor can an ASCII byte complete an unfinished character. */
  lemma WidthBeforeAscii(s: text, t: text)
    requires s != [] && t != [] && t[0] < 0x80
    ensures Width(s + t) == Width(s)
  {
    if Width(s) > 0 {
      WidthOfPrefix(s, t);
    } else {
      var u := s + t;
      assert u[0] == s[0];
      var n := Announced(s[0]);
      if 0 < n && |s| < n <= |u| {
        assert u[|s|] == t[0];
      } else if n <= |s| {
        assert forall i :: 0 <= i < |s| ==> u[i] == s[i];
      }
    }
  }

  lemma OneCharacter(s: text)
    requires Width(s) > 0
    ensures Width(s[..Width(s)]) == Width(s) && Valid(s[..Width(s)])
  {
    var c := s[..Width(s)];
    assert Width(c) == Width(s);
    assert c[Width(c)..] == [];
  }

  lemma {:induction false} ValidConcat(s: text, t: text)
    requires Valid(s) && Valid(t)
    ensures Valid(s + t)
    decreases |s|
  {
    if s == [] {
      assert s + t == t;
    } else {
      WidthOfPrefix(s, t);
      ValidConcat(s[Width(s)..], t);
    }
  }

  predicate Ascii(s: text) {
    forall i :: 0 <= i < |s| ==> s[i] < 0x80
  }

  lemma {:induction false} AsciiIsStorable(s: text)
    requires Ascii(s) && NulFree(s)
    ensures Storable(s)
    decreases |s|
  {
    if s != [] {
      assert Width(s) == 1;
      AsciiIsStorable(s[1..]);
    }
  }

  // ---------- what the repair is, independently of how it scans ----------

  /** No byte of `run` starts a character when `run` is followed by `rest`. */
  ghost predicate InvalidRun(run: text, rest: text) {
    forall i :: 0 <= i < |run| ==> Width(run[i..] + rest) == 0
  }

  ghost predicate KeepsCharacter(f: text -> text, s: text) {
    Width(s) > 0 ==> f(s) == s[..Width(s)] + f(s[Width(s)..])
  }

  ghost predicate ReplacesRun(f: text -> text, run: text, rest: text) {
    run != [] && InvalidRun(run, rest) && (rest == [] || Width(rest) > 0) ==>
      f(run + rest) == REPLACEMENT + f(rest)
  }

  /** The contract of a repair: characters in front are kept, and a maximal run of bytes
      that belong to no character becomes exactly one U+FFFD. */
  ghost predicate IsRepair(f: text -> text) {
    && f([]) == []
    && (forall s: text :: KeepsCharacter(f, s))
    && (forall run: text, rest: text :: ReplacesRun(f, run, rest))
  }

  ghost function Repaired(): text -> text {
    (s: text) => ToValidUTF8(s, false)
  }

  lemma {:induction false} RunIsSkipped(run: text, rest: text)
    requires InvalidRun(run, rest) && (rest == [] || Width(rest) > 0)
    ensures ToValidUTF8(run + rest, true) == ToValidUTF8(rest, false)
    decreases |run|
  {
    if run == [] {
      assert run + rest == rest;
    } else {
      assert run[0..] + rest == run + rest;
      assert (run + rest)[1..] == run[1..] + rest;
      forall i | 0 <= i < |run[1..]| ensures Width(run[1..][i..] + rest) == 0 {
        assert run[1..][i..] == run[i + 1..];
      }
      RunIsSkipped(run[1..], rest);
    }
  }

  lemma RunIsReplaced(run: text, rest: text)
    requires run != [] && InvalidRun(run, rest) && (rest == [] || Width(rest) > 0)
    ensures ToValidUTF8(run + rest, false) == REPLACEMENT + ToValidUTF8(rest, false)
  {
    assert run[0..] + rest == run + rest;
    assert (run + rest)[1..] == run[1..] + rest;
    forall i | 0 <= i < |run[1..]| ensures Width(run[1..][i..] + rest) == 0 {
      assert run[1..][i..] == run[i + 1..];
    }
    RunIsSkipped(run[1..], rest);
  }

  lemma ToValidUTF8IsRepair()
    ensures IsRepair(Repaired())
  {
    forall run: text, rest: text ensures ReplacesRun(Repaired(), run, rest) {
      if run != [] && InvalidRun(run, rest) && (rest == [] || Width(rest) > 0) {
        RunIsReplaced(run, rest);
      }
    }
  }

  /** No character starts among the first `n` bytes. */
  ghost predicate AllInvalid(s: text, n: nat)
    requires n <= |s|
  {
    forall i :: 0 <= i < n ==> Width(s[i..]) == 0
  }

  /** The whole run of invalid bytes from `n` bytes on, which are invalid already. */
  ghost function RunLength(s: text, n: nat): (m: nat)
    requires n <= |s| && AllInvalid(s, n)
    ensures n <= m <= |s| && AllInvalid(s, m)
    ensures m == |s| || Width(s[m..]) > 0
    ensures n < |s| && Width(s[n..]) == 0 ==> n < m
    decreases |s| - n
  {
    if n == |s| || Width(s[n..]) > 0 then n else RunLength(s, n + 1)
  }

  /** The contract leaves no choice: every repair is this one. */
  lemma {:induction false} RepairIsUnique(f: text -> text, s: text)
    requires IsRepair(f)
    ensures f(s) == ToValidUTF8(s, false)
    decreases |s|
  {
    if s == [] {
    } else if Width(s) > 0 {
      assert KeepsCharacter(f, s);
      RepairIsUnique(f, s[Width(s)..]);
    } else {
      assert s[0..] == s;
      var n := RunLength(s, 0);
      LeadingRun(s, n);
      assert s[..n] + s[n..] == s;
      RepairIsUnique(f, s[n..]);
      RunLeavesNoChoice(f, s, s[..n], s[n..]);
    }
  }

  lemma RunLeavesNoChoice(f: text -> text, s: text, run: text, rest: text)
    requires IsRepair(f) && s == run + rest
    requires run != [] && InvalidRun(run, rest) && (rest == [] || Width(rest) > 0)
    requires f(rest) == ToValidUTF8(rest, false)
    ensures f(s) == ToValidUTF8(s, false)
  {
    assert ReplacesRun(f, run, rest);
    RunIsReplaced(run, rest);
  }

  lemma LeadingRun(s: text, n: nat)
    requires n <= |s| && AllInvalid(s, n)
    ensures InvalidRun(s[..n], s[n..])
  {
    forall i | 0 <= i < n ensures Width(s[..n][i..] + s[n..]) == 0 {
      SuffixInTwo(s, i, n);
    }
  }

  lemma SuffixInTwo(s: text, i: nat, n: nat)
    requires i <= n <= |s|
    ensures s[i..] == s[..n][i..] + s[n..]
  {
  }

  lemma PrefixInTwo(s: text, w: nat, n: nat)
    requires w <= n <= |s|
    ensures s[..n] == s[..w] + s[w..][..n - w]
  {
  }

  // ---------- validity, identity, idempotence ----------

  lemma {:induction false} RepairedIsValid(s: text, inRun: bool)
    ensures Valid(ToValidUTF8(s, inRun))
    decreases |s|
  {
    if s == [] {
    } else if Width(s) == 0 {
      RepairedIsValid(s[1..], true);
      assert REPLACEMENT[Width(REPLACEMENT)..] == [];
      assert Valid(REPLACEMENT);
      ValidConcat(if inRun then [] else REPLACEMENT, ToValidUTF8(s[1..], true));
    } else {
      OneCharacter(s);
      RepairedIsValid(s[Width(s)..], false);
      ValidConcat(s[..Width(s)], ToValidUTF8(s[Width(s)..], false));
    }
  }

  lemma {:induction false} RepairKeepsValid(s: text, inRun: bool)
    requires Valid(s)
    ensures ToValidUTF8(s, inRun) == s
    decreases |s|
  {
    if s != [] {
      RepairKeepsValid(s[Width(s)..], false);
      assert s[..Width(s)] + s[Width(s)..] == s;
    }
  }

  /** The validity test in front of the repair is only a shortcut. */
  lemma CleanTextRepairsFirst(s: text)
    ensures CleanText(s) == RemoveNul(ToValidUTF8(s, false))
  {
    if Valid(s) {
      RepairKeepsValid(s, false);
    }
  }

  lemma {:induction false} RemoveNulConcat(s: text, t: text)
    ensures RemoveNul(s + t) == RemoveNul(s) + RemoveNul(t)
    decreases |s|
  {
    if s == [] {
      assert s + t == t;
    } else {
      assert (s + t)[1..] == s[1..] + t;
      RemoveNulConcat(s[1..], t);
    }
  }

  lemma {:induction false} RemoveNulIsNulFree(s: text)
    ensures NulFree(RemoveNul(s)) && |RemoveNul(s)| <= |s|
    ensures RemoveNul(s) == s <==> NulFree(s)
    decreases |s|
  {
    if s != [] {
      RemoveNulIsNulFree(s[1..]);
      if s[0] == NUL {
        assert |RemoveNul(s)| < |s|;
      } else {
        assert NulFree(s) <==> NulFree(s[1..]) by {
          assert forall i :: 0 < i < |s| ==> s[i] == s[1..][i - 1];
          assert forall i :: 0 <= i < |s[1..]| ==> s[1..][i] == s[i + 1];
        }
        assert s == [s[0]] + s[1..];
        assert RemoveNul(s)[1..] == RemoveNul(s[1..]);
      }
    }
  }

  lemma {:induction false} RemoveNulKeepsValid(s: text)
    requires Valid(s)
    ensures Valid(RemoveNul(s))
    decreases |s|
  {
    if s != [] {
      var w := Width(s);
      var c := s[..w];
      assert s == c + s[w..];
      RemoveNulConcat(c, s[w..]);
      RemoveNulKeepsValid(s[w..]);
      OneCharacter(s);
      if s[0] == NUL {
        assert RemoveNul(c) == [];
      } else {
        RemoveNulIsNulFree(c);
      }
      ValidConcat(RemoveNul(c), RemoveNul(s[w..]));
    }
  }

  /** Cleaned text can be stored, whatever bytes came in. */
  lemma CleanTextIsStorable(s: text)
    ensures Storable(CleanText(s))
  {
    RepairedIsValid(s, false);
    CleanTextRepairsFirst(s);
    RemoveNulKeepsValid(ToValidUTF8(s, false));
    RemoveNulIsNulFree(ToValidUTF8(s, false));
  }

  /** Exactly the storable strings are left alone. */
  lemma CleanTextFixpoints(s: text)
    ensures CleanText(s) == s <==> Storable(s)
    ensures CleanText(CleanText(s)) == CleanText(s)
  {
    CleanTextIsStorable(s);
    RemoveNulIsNulFree(s);
    RemoveNulIsNulFree(CleanText(s));
  }

  // ---------- nothing is glued together across a NUL ----------

  lemma {:induction false} RepairSplitsAtAscii(s: text, t: text, inRun: bool)
    requires t != [] && t[0] < 0x80
    ensures ToValidUTF8(s + t, inRun) == ToValidUTF8(s, inRun) + ToValidUTF8(t, false)
    decreases |s|
  {
    if s == [] {
      assert s + t == t;
      assert Width(t) == 1;
    } else {
      WidthBeforeAscii(s, t);
      var w := Width(s);
      if w == 0 {
        assert (s + t)[1..] == s[1..] + t;
        RepairSplitsAtAscii(s[1..], t, true);
      } else {
        assert (s + t)[w..] == s[w..] + t;
        assert (s + t)[..w] == s[..w];
        RepairSplitsAtAscii(s[w..], t, false);
      }
    }
  }

  lemma CleanTextNeverGlues(s: text, t: text)
    ensures CleanText(s + [NUL] + t) == CleanText(s) + CleanText(t)
  {
    var u := [NUL] + t;
    assert s + [NUL] + t == s + u;
    assert u[1..] == t && u[..1] == [NUL] && Width(u) == 1;
    RepairSplitsAtAscii(s, u, false);
    RemoveNulConcat(ToValidUTF8(s, false), [NUL] + ToValidUTF8(t, false));
    RemoveNulConcat([NUL], ToValidUTF8(t, false));
    assert RemoveNul([NUL]) == [];
    CleanTextRepairsFirst(s);
    CleanTextRepairsFirst(t);
    CleanTextRepairsFirst(s + u);
  }

  /** The order of the two passes matters: removing NULs first would join the two halves
      of C3 00 A9 into a letter that was never sent. */
  lemma RemovingNulFirstWouldGlue()
    ensures ToValidUTF8(RemoveNul([0xC3, NUL, 0xA9]), false) == [0xC3, 0xA9]
    ensures CleanText([0xC3, NUL, 0xA9]) == REPLACEMENT + REPLACEMENT
  {
    var s: text := [0xC3, NUL, 0xA9];
    assert s[1..] == [NUL, 0xA9] && s[1..][1..] == [0xA9] && s[1..][1..][1..] == [];
    assert RemoveNul([0xA9]) == [0xA9];
    assert RemoveNul([NUL, 0xA9]) == [0xA9];
    assert RemoveNul(s) == [0xC3, 0xA9];
    assert Valid([0xC3, 0xA9]) by { assert [0xC3, 0xA9][2..] == []; }
    RepairKeepsValid([0xC3, 0xA9], false);
    CleanTextNeverGlues([0xC3], [0xA9]);
    assert [0xC3] + [NUL] + [0xA9] == s;
    CleanOfOneBadByte(0xC3);
    CleanOfOneBadByte(0xA9);
  }

  lemma CleanOfOneBadByte(b: byte)
    requires b >= 0x80
    ensures CleanText([b]) == REPLACEMENT
  {
    assert [b][1..] == [];
    assert Width([b]) == 0;
    assert ToValidUTF8([b], false) == REPLACEMENT + [] == REPLACEMENT;
    CleanTextRepairsFirst([b]);
    RemoveNulIsNulFree(REPLACEMENT);
  }

  // ---------- how much cleaning can add ----------

  lemma {:induction false} RepairedSize(s: text, inRun: bool)
    ensures |ToValidUTF8(s, inRun)| <= 2 * |s| + (if inRun then 0 else 1)
    decreases |s|
  {
    if s == [] {
    } else if Width(s) == 0 {
      RepairedSize(s[1..], true);
    } else {
      RepairedSize(s[Width(s)..], false);
    }
  }

  lemma CleanTextSize(s: text)
    ensures |CleanText(s)| <= 2 * |s| + 1
  {
    CleanTextRepairsFirst(s);
    RepairedSize(s, false);
    RemoveNulIsNulFree(ToValidUTF8(s, false));
  }

  /** FF 41 FF 41 ... FF, of length 2k + 1. */
  function Alternating(k: nat): (s: text)
    ensures |s| == 2 * k + 1 && s[0] == 0xFF
  {
    if k == 0 then [0xFF] else [0xFF, 0x41] + Alternating(k - 1)
  }

  /** The bound is attained at every odd length. */
  lemma {:induction false} CleanTextSizeIsTight(k: nat)
    ensures |CleanText(Alternating(k))| == 2 * |Alternating(k)| + 1
  {
    var s := Alternating(k);
    AlternatingRepaired(k);
    CleanTextRepairsFirst(s);
    RemoveNulIsNulFree(ToValidUTF8(s, false));
  }

  lemma {:induction false} AlternatingRepaired(k: nat)
    ensures |ToValidUTF8(Alternating(k), false)| == 4 * k + 3
    ensures NulFree(ToValidUTF8(Alternating(k), false))
  {
    var s := Alternating(k);
    assert Width(s) == 0;
    if k == 0 {
      assert s[1..] == [];
    } else {
      var rest := Alternating(k - 1);
      AlternatingRepaired(k - 1);
      assert s[1..] == [0x41] + rest;
      assert Width(s[1..]) == 1 && s[1..][..1] == [0x41] && s[1..][1..] == rest;
      assert ToValidUTF8(s[1..], true) == [0x41] + ToValidUTF8(rest, false);
    }
  }

  // ---------- cutting valid text at a byte limit ----------

  /** The whole characters of `s` that fit in `n` bytes. */
  function Fitting(s: text, n: nat): (p: nat)
    ensures p <= n && p <= |s|
    decreases |s|
  {
    if Width(s) == 0 || Width(s) > n then 0
    else Width(s) + Fitting(s[Width(s)..], n - Width(s))
  }

  lemma {:induction false} FittingIsValid(s: text, n: nat)
    ensures Valid(s[..Fitting(s, n)])
    decreases |s|
  {
    var w := Width(s);
    if w > 0 && w <= n {
      FittingIsValid(s[w..], n - w);
      CharacterThenValid(s, Fitting(s[w..], n - w));
    }
  }

  lemma CharacterThenValid(s: text, q: nat)
    requires Width(s) > 0 && q <= |s| - Width(s) && Valid(s[Width(s)..][..q])
    ensures Valid(s[..Width(s) + q])
  {
    var w := Width(s);
    OneCharacter(s);
    PrefixInTwo(s, w, w + q);
    ValidConcat(s[..w], s[w..][..q]);
  }

  /** Fitting is the longest valid prefix within the limit. */
  lemma {:induction false} FittingIsLongest(s: text, n: nat, m: nat)
    requires m <= n && m <= |s| && Valid(s[..m])
    ensures m <= Fitting(s, n)
    decreases |s|
  {
    if m > 0 {
      FrontOfPrefix(s, m);
      FittingIsLongest(s[Width(s)..], n - Width(s), m - Width(s));
    }
  }

  lemma FrontOfPrefix(s: text, m: nat)
    requires 0 < m <= |s| && Valid(s[..m])
    ensures 0 < Width(s) <= m && Valid(s[Width(s)..][..m - Width(s)])
  {
    var p := s[..m];
    assert p + s[m..] == s;
    WidthOfPrefix(p, s[m..]);
    assert p[Width(s)..] == s[Width(s)..][..m - Width(s)];
  }

  /** Fewer bytes than the character needs are one invalid run. */
  lemma CutCharacter(s: text, n: nat)
    requires 0 < n < Width(s)
    ensures ToValidUTF8(s[..n], false) == REPLACEMENT
  {
    var c := s[..n];
    assert c[0] == s[0];
    forall i | 0 <= i < |c| ensures Width(c[i..] + []) == 0 {
      assert c[i..] + [] == c[i..];
      assert c[i..][0] == s[i];
    }
    RunIsReplaced(c, []);
    assert c + [] == c;
  }

  lemma RepairAfterCharacter(c: text, rest: text)
    requires 0 < Width(c) == |c|
    ensures ToValidUTF8(c + rest, false) == c + ToValidUTF8(rest, false)
  {
    WidthOfPrefix(c, rest);
    assert (c + rest)[..|c|] == c;
    assert (c + rest)[|c|..] == rest;
  }

  lemma CutAfterCharacter(s: text, n: nat, q: nat, tail: text)
    requires 0 < Width(s) <= n <= |s| && q <= n - Width(s)
    requires ToValidUTF8(s[Width(s)..][..n - Width(s)], false) == s[Width(s)..][..q] + tail
    ensures ToValidUTF8(s[..n], false) == s[..Width(s) + q] + tail
  {
    var w := Width(s);
    var c, rest := s[..w], s[w..][..n - w];
    OneCharacter(s);
    PrefixInTwo(s, w, n);
    PrefixInTwo(s, w, w + q);
    calc {
      ToValidUTF8(s[..n], false);
      ToValidUTF8(c + rest, false);
      { RepairAfterCharacter(c, rest); }
      c + ToValidUTF8(rest, false);
      c + (s[w..][..q] + tail);
      (c + s[w..][..q]) + tail;
    }
  }

  /** Repairing a cut: every whole character that fits, then at most one U+FFFD. */
  lemma {:induction false} RepairOfCut(s: text, n: nat)
    requires Valid(s) && n <= |s|
    ensures n - 3 <= Fitting(s, n)
    ensures ToValidUTF8(s[..n], false)
            == s[..Fitting(s, n)] + (if Fitting(s, n) == n then [] else REPLACEMENT)
    decreases |s|
  {
    var w := Width(s);
    if n == 0 {
      assert s[..0] == [] && s[..Fitting(s, 0)] == [];
    } else if w > n {
      CutCharacter(s, n);
      assert s[..0] + REPLACEMENT == REPLACEMENT;
    } else {
      RepairOfCut(s[w..], n - w);
      CutAfterCharacter(s, n, Fitting(s[w..], n - w), if Fitting(s, n) == n then [] else REPLACEMENT);
    }
  }

  /** Cleaning a cut of valid text keeps every whole character that fits, loses at most
      three more bytes, and leaves a U+FFFD exactly when a character was cut. */
  lemma CleanTextOfCut(s: text, n: nat)
    requires Valid(s) && n <= |s|
    ensures n - 3 <= Fitting(s, n)
    ensures CleanText(s[..n])
            == RemoveNul(s[..Fitting(s, n)]) + (if Valid(s[..n]) then [] else REPLACEMENT)
  {
    RepairOfCut(s, n);
    FittingIsValid(s, n);
    if Valid(s[..n]) {
      FittingIsLongest(s, n, n);
    }
    CleanTextRepairsFirst(s[..n]);
    var tail: text := if Fitting(s, n) == n then [] else REPLACEMENT;
    RemoveNulConcat(s[..Fitting(s, n)], tail);
    RemoveNulIsNulFree(tail);
  }
}
