/** What the byte patterns of Text mean: the bit layout of section 3 of RFC 3629, written
    from the code points, and the proof that exactly its encodings are recognised. */
module Utf8 {
  import opened Text

  /** A Unicode scalar value: no surrogates, nothing above U+10FFFF. */
  predicate Scalar(v: int) {
    0 <= v <= 0x10FFFF && !(0xD800 <= v <= 0xDFFF)
  }

  /** Six bits to a continuation byte, the rest in the lead byte. */
  function Encode(v: int): text
    requires Scalar(v)
  {
    if v < 0x80 then [v]
    else if v < 0x800 then [0xC0 + v / 64, 0x80 + v % 64]
    else if v < 0x1_0000 then [0xE0 + v / 4096, 0x80 + v / 64 % 64, 0x80 + v % 64]
    else [0xF0 + v / 262144, 0x80 + v / 4096 % 64, 0x80 + v / 64 % 64, 0x80 + v % 64]
  }

  ghost predicate StartsWith(s: text, v: int) {
    Scalar(v) && Encode(v) <= s
  }

  /** The number in a byte that stands `base` above it. */
  function Bits(b: byte, base: int): int {
    b as int - base
  }

  /** The code point behind the character a string starts with. */
  function Decoded(s: text): int
    requires Width(s) > 0
  {
    match Width(s)
    case 1 => s[0]
    case 2 => Bits(s[0], 0xC0) * 64 + Bits(s[1], 0x80)
    case 3 => (Bits(s[0], 0xE0) * 64 + Bits(s[1], 0x80)) * 64 + Bits(s[2], 0x80)
    case _ => ((Bits(s[0], 0xF0) * 64 + Bits(s[1], 0x80)) * 64 + Bits(s[2], 0x80)) * 64 + Bits(s[3], 0x80)
  }

  lemma DecodedEncodes(s: text)
    requires Width(s) > 0
    ensures Scalar(Decoded(s)) && Encode(Decoded(s)) == s[..Width(s)]
  {
    var v := Decoded(s);
    if Width(s) == 2 {
      SixBits(v, Bits(s[0], 0xC0), Bits(s[1], 0x80));
    } else if Width(s) == 3 {
      var h := Bits(s[0], 0xE0) * 64 + Bits(s[1], 0x80);
      SixBits(h, Bits(s[0], 0xE0), Bits(s[1], 0x80));
      SixBits(v, h, Bits(s[2], 0x80));
      Twice(v);
    } else if Width(s) == 4 {
      var g := Bits(s[0], 0xF0) * 64 + Bits(s[1], 0x80);
      var h := g * 64 + Bits(s[2], 0x80);
      SixBits(g, Bits(s[0], 0xF0), Bits(s[1], 0x80));
      SixBits(h, g, Bits(s[2], 0x80));
      SixBits(v, h, Bits(s[3], 0x80));
      Twice(v);
      Thrice(v);
    }
  }

  lemma SixBits(v: int, high: int, low: int)
    requires v == high * 64 + low && 0 <= low < 64
    ensures v / 64 == high && v % 64 == low
  {
  }

  lemma Twice(v: int)
    ensures v / 4096 == v / 64 / 64
  {
  }

  lemma Thrice(v: int)
    ensures v / 262144 == v / 4096 / 64
  {
  }

  lemma EncodedHasWidth(v: int, s: text)
    requires StartsWith(s, v)
    ensures Width(s) == |Encode(v)| && Decoded(s) == v
  {
    var e := Encode(v);
    assert forall i :: 0 <= i < |e| ==> s[i] == e[i];
    var last, middle, upper := v % 64, v / 64 % 64, v / 4096 % 64;
    Twice(v);
    Thrice(v);
    assert v == v / 64 * 64 + last && v / 64 == v / 4096 * 64 + middle && v / 4096 == v / 262144 * 64 + upper;
    if v < 0x80 {
      assert Announced(s[0]) == 1;
    } else if v < 0x800 {
      TwoBytes(v, s);
    } else if v < 0x1_0000 {
      ThreeBytes(v, s);
    } else {
      FourBytes(v, s);
    }
  }

  lemma TwoBytes(v: int, s: text)
    requires 0x80 <= v < 0x800 && |s| >= 2 && s[0] == 0xC0 + v / 64 && s[1] == 0x80 + v % 64
    ensures Width(s) == 2
  {
    assert 0xC2 <= s[0] <= 0xDF && Announced(s[0]) == 2;
  }

  lemma ThreeBytes(v: int, s: text)
    requires 0x800 <= v < 0x1_0000 && Scalar(v) && |s| >= 3
    requires v / 64 == v / 4096 * 64 + v / 64 % 64 && v == v / 64 * 64 + v % 64
    requires s[0] == 0xE0 + v / 4096 && s[1] == 0x80 + v / 64 % 64 && s[2] == 0x80 + v % 64
    ensures Width(s) == 3
  {
    var high, middle, last := v / 4096, v / 64 % 64, v % 64;
    assert v == high * 4096 + middle * 64 + last && 0 <= high <= 15;
    assert Announced(s[0]) == 3;
  }

  lemma FourBytes(v: int, s: text)
    requires 0x1_0000 <= v <= 0x10FFFF && |s| >= 4
    requires v / 4096 == v / 262144 * 64 + v / 4096 % 64
    requires v / 64 == v / 4096 * 64 + v / 64 % 64 && v == v / 64 * 64 + v % 64
    requires s[0] == 0xF0 + v / 262144 && s[1] == 0x80 + v / 4096 % 64
    requires s[2] == 0x80 + v / 64 % 64 && s[3] == 0x80 + v % 64
    ensures Width(s) == 4
  {
    var high, upper, middle, last := v / 262144, v / 4096 % 64, v / 64 % 64, v % 64;
    assert v == high * 262144 + upper * 4096 + middle * 64 + last && 0 <= high <= 4;
    assert Announced(s[0]) == 4;
  }

  /** A character is recognised at the start of a string exactly when the string starts with
      the encoding of some scalar value, it is as wide as that encoding, and there is only one
      such value. */
  lemma WidthIff(s: text)
    ensures Width(s) > 0 <==> exists v: int :: StartsWith(s, v)
    ensures forall v: int :: StartsWith(s, v) ==> Width(s) == |Encode(v)|
    ensures forall v: int, w: int :: StartsWith(s, v) && StartsWith(s, w) ==> v == w
  {
    hide Width, Decoded, Encode;
    if Width(s) > 0 {
      DecodedEncodes(s);
      assert StartsWith(s, Decoded(s));
    }
    forall v: int | StartsWith(s, v) ensures Width(s) == |Encode(v)| > 0 && Decoded(s) == v {
      EncodedHasWidth(v, s);
      EncodeSize(v);
    }
  }

  lemma EncodeSize(v: int)
    requires Scalar(v)
    ensures 1 <= |Encode(v)| <= 4
  {
  }

  predicate Scalars(vs: seq<int>) {
    forall i :: 0 <= i < |vs| ==> Scalar(vs[i])
  }

  function EncodeAll(vs: seq<int>): text
    requires Scalars(vs)
  {
    if vs == [] then [] else Encode(vs[0]) + EncodeAll(vs[1..])
  }

  ghost predicate Spells(s: text, vs: seq<int>) {
    Scalars(vs) && s == EncodeAll(vs)
  }

  /** Well-formed text is what encodes some sequence of scalar values, and nothing else. */
  lemma {:induction false} ValidIff(s: text)
    ensures Valid(s) <==> exists vs: seq<int> :: Spells(s, vs)
    decreases |s|
  {
    if Valid(s) {
      var vs := DecodeAll(s);
      assert Spells(s, vs);
    }
    if vs: seq<int> :| Spells(s, vs) {
      EncodingsAreValid(vs);
    }
  }

  lemma {:induction false} DecodeAll(s: text) returns (vs: seq<int>)
    requires Valid(s)
    ensures Spells(s, vs)
    decreases |s|
  {
    hide Encode, Decoded;
    if s == [] {
      vs := [];
    } else {
      var w := Width(s);
      var rest := DecodeAll(s[w..]);
      DecodedEncodes(s);
      vs := [Decoded(s)] + rest;
      assert vs[1..] == rest;
      assert s == s[..w] + s[w..];
    }
  }

  lemma {:induction false} EncodingsAreValid(vs: seq<int>)
    requires Scalars(vs)
    ensures Valid(EncodeAll(vs))
    decreases |vs|
  {
    hide Encode, Width, Decoded;
    if vs != [] {
      var s := EncodeAll(vs);
      EncodingsAreValid(vs[1..]);
      EncodeSize(vs[0]);
      assert Encode(vs[0]) <= s;
      EncodedHasWidth(vs[0], s);
      assert s[|Encode(vs[0])|..] == EncodeAll(vs[1..]);
    }
  }

  /** The two characters the cleaning treats by name. */
  lemma NamedCharacters()
    ensures REPLACEMENT == Encode(0xFFFD) && [NUL] == Encode(0)
  {
  }

  /** In particular cleaning leaves every character alone but NUL. */
  lemma CharactersAreKept(v: int)
    requires Scalar(v) && v > 0
    ensures CleanText(Encode(v)) == Encode(v)
  {
    hide Encode, Width, CleanText;
    assert EncodeAll([v]) == Encode(v) + EncodeAll([]) == Encode(v);
    EncodingsAreValid([v]);
    NoNulInside(v);
    CleanTextFixpoints(Encode(v));
  }

  lemma NoNulInside(v: int)
    requires Scalar(v) && v > 0
    ensures NulFree(Encode(v))
  {
  }
}
