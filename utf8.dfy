/** The UTF-8 encoding that `TextEncoder.encode` applies to a JavaScript
    string, as defined in section 3 of RFC 3629. */
module Utf8 {
  import opened JsText

  type Byte = b: int | 0 <= b < 0x100

  predicate IsHighSurrogate(u: int) { 0xD800 <= u < 0xDC00 }
  predicate IsLowSurrogate(u: int) { 0xDC00 <= u < 0xE000 }

  /** A Unicode scalar value: a code point that is not a surrogate. */
  predicate IsScalar(cp: int) { 0 <= cp < 0xD800 || 0xE000 <= cp < 0x11_0000 }

  const REPLACEMENT_CHARACTER := 0xFFFD

  /** The scalar values a string of UTF-16 code units stands for, as the
      encoder reads them: a high surrogate followed by a low surrogate is one
      supplementary code point, and a lone surrogate becomes U+FFFD. */
  function CodePoints(units: seq<CodeUnit>): (cps: seq<int>)
    ensures forall k :: 0 <= k < |cps| ==> IsScalar(cps[k])
    ensures |cps| <= |units|
    decreases |units|
  {
    if units == [] then []
    else if IsHighSurrogate(units[0]) && |units| >= 2 && IsLowSurrogate(units[1]) then
      [0x1_0000 + (units[0] - 0xD800) * 0x400 + (units[1] - 0xDC00)] + CodePoints(units[2..])
    else if IsHighSurrogate(units[0]) || IsLowSurrogate(units[0]) then
      [REPLACEMENT_CHARACTER] + CodePoints(units[1..])
    else
      [units[0]] + CodePoints(units[1..])
  }

  /** Text with no surrogate is read unit for unit. */
  lemma {:induction false} NoSurrogatesReadAsIs(units: seq<CodeUnit>)
    requires forall k :: 0 <= k < |units| ==> !IsHighSurrogate(units[k]) && !IsLowSurrogate(units[k])
    ensures CodePoints(units) == units
    decreases |units|
  {
    if units != [] {
      NoSurrogatesReadAsIs(units[1..]);
    }
  }

  /** A high surrogate followed by a low one is read as one supplementary
      code point, from which the two ten-bit halves are recovered. */
  lemma SurrogatePairIsSupplementary(hi: CodeUnit, lo: CodeUnit, rest: seq<CodeUnit>)
    requires IsHighSurrogate(hi) && IsLowSurrogate(lo)
    ensures var cps := CodePoints([hi, lo] + rest);
      && cps != [] && cps[1..] == CodePoints(rest)
      && 0x1_0000 <= cps[0] < 0x11_0000
      && (cps[0] - 0x1_0000) / 0x400 == hi - 0xD800
      && (cps[0] - 0x1_0000) % 0x400 == lo - 0xDC00
  {
    var units := [hi, lo] + rest;
    assert units[2..] == rest;
    var h, l := hi - 0xD800, lo - 0xDC00;
    assert (h * 0x400 + l) / 0x400 == h && (h * 0x400 + l) % 0x400 == l by {
      ModDivOfPair(h, l);
    }
  }

  lemma ModDivOfPair(h: int, l: int)
    requires 0 <= h < 0x400 && 0 <= l < 0x400
    ensures (h * 0x400 + l) / 0x400 == h && (h * 0x400 + l) % 0x400 == l
  {
  }

  /** The octet sequence of one scalar value. The lead octet alone tells how
      many octets follow, and every following octet has the form 10xxxxxx. */
  function EncodeScalar(cp: int): (bytes: seq<Byte>)
    requires IsScalar(cp)
    ensures 1 <= |bytes| <= 4
    ensures |bytes| == 1 <==> cp < 0x80
    ensures |bytes| == 1 <==> bytes[0] < 0x80
    ensures |bytes| == 2 <==> 0xC2 <= bytes[0] < 0xE0
    ensures |bytes| == 3 <==> 0xE0 <= bytes[0] < 0xF0
    ensures |bytes| == 4 <==> 0xF0 <= bytes[0] <= 0xF4
    ensures forall k :: 1 <= k < |bytes| ==> 0x80 <= bytes[k] < 0xC0
  {
    if cp < 0x80 then [cp]
    else if cp < 0x800 then [0xC0 + cp / 0x40, 0x80 + cp % 0x40]
    else if cp < 0x1_0000 then
      [0xE0 + cp / 0x1000, 0x80 + (cp / 0x40) % 0x40, 0x80 + cp % 0x40]
    else
      [0xF0 + cp / 0x4_0000, 0x80 + (cp / 0x1000) % 0x40, 0x80 + (cp / 0x40) % 0x40, 0x80 + cp % 0x40]
  }

  /** Reads one octet sequence of one to four octets back as a code point. */
  function DecodeScalar(bytes: seq<Byte>): int
    requires 1 <= |bytes| <= 4
  {
    var b := seq(|bytes|, k requires 0 <= k < |bytes| => bytes[k] as int);
    if |b| == 1 then b[0]
    else if |b| == 2 then (b[0] - 0xC0) * 0x40 + (b[1] - 0x80)
    else if |b| == 3 then
      (b[0] - 0xE0) * 0x1000 + (b[1] - 0x80) * 0x40 + (b[2] - 0x80)
    else
      (b[0] - 0xF0) * 0x4_0000 + (b[1] - 0x80) * 0x1000
        + (b[2] - 0x80) * 0x40 + (b[3] - 0x80)
  }

  /** Encoding one scalar value loses nothing. */
  lemma EncodeScalarRoundTrip(cp: int)
    requires IsScalar(cp)
    ensures DecodeScalar(EncodeScalar(cp)) == cp
  {
    if cp >= 0x1_0000 {
      FourByteRoundTrip(cp);
    } else if cp >= 0x800 {
      ThreeByteRoundTrip(cp);
    }
  }

  lemma ThreeByteRoundTrip(cp: int)
    requires IsScalar(cp) && 0x800 <= cp < 0x1_0000
    ensures DecodeScalar(EncodeScalar(cp)) == cp
  {
    var hi, mid, lo := cp / 0x1000, (cp / 0x40) % 0x40, cp % 0x40;
    assert cp / 0x40 == hi * 0x40 + mid;
    assert cp == hi * 0x1000 + mid * 0x40 + lo;
    assert EncodeScalar(cp) == [0xE0 + hi, 0x80 + mid, 0x80 + lo];
  }

  lemma FourByteRoundTrip(cp: int)
    requires IsScalar(cp) && 0x1_0000 <= cp
    ensures DecodeScalar(EncodeScalar(cp)) == cp
  {
    var top, hi, mid, lo := cp / 0x4_0000, (cp / 0x1000) % 0x40, (cp / 0x40) % 0x40, cp % 0x40;
    assert cp / 0x1000 == top * 0x40 + hi;
    assert cp / 0x40 == (cp / 0x1000) * 0x40 + mid;
    assert cp == (cp / 0x40) * 0x40 + lo;
    assert cp == top * 0x4_0000 + hi * 0x1000 + mid * 0x40 + lo;
    assert EncodeScalar(cp) == [0xF0 + top, 0x80 + hi, 0x80 + mid, 0x80 + lo];
  }

  function EncodeCodePoints(cps: seq<int>): seq<Byte>
    requires forall k :: 0 <= k < |cps| ==> IsScalar(cps[k])
  {
    if cps == [] then [] else EncodeScalar(cps[0]) + EncodeCodePoints(cps[1..])
  }

  /** `new TextEncoder().encode(text)`. */
  function Encode(units: seq<CodeUnit>): seq<Byte>
  {
    EncodeCodePoints(CodePoints(units))
  }

  /** A code unit outside the surrogate range encodes on its own. */
  lemma EncodeCons(units: seq<CodeUnit>)
    requires units != [] && !IsHighSurrogate(units[0]) && !IsLowSurrogate(units[0])
    ensures Encode(units) == EncodeScalar(units[0]) + Encode(units[1..])
  {
    assert CodePoints(units) == [units[0]] + CodePoints(units[1..]);
    assert CodePoints(units)[1..] == CodePoints(units[1..]);
  }

  /** Text made only of ASCII code units encodes to the same numbers, so its
      UTF-8 byte offsets and its code-unit indices coincide. */
  lemma {:induction false} AsciiEncodesToItself(units: seq<CodeUnit>)
    requires forall k :: 0 <= k < |units| ==> units[k] < 0x80
    ensures |Encode(units)| == |units|
    ensures forall k :: 0 <= k < |units| ==> Encode(units)[k] == units[k]
    decreases |units|
  {
    if units != [] {
      AsciiEncodesToItself(units[1..]);
      assert CodePoints(units) == [units[0]] + CodePoints(units[1..]);
      assert CodePoints(units)[1..] == CodePoints(units[1..]);
      assert Encode(units) == [units[0]] + Encode(units[1..]);
    }
  }

  /** Every code unit becomes between one and three bytes: a surrogate pair
      (two units) becomes four bytes, any other unit at most three. */
  lemma {:induction false} EncodedLengthBounds(units: seq<CodeUnit>)
    ensures |units| <= |Encode(units)| <= 3 * |units|
    decreases |units|
  {
    if units != [] {
      var cps := CodePoints(units);
      if IsHighSurrogate(units[0]) && |units| >= 2 && IsLowSurrogate(units[1]) {
        EncodedLengthBounds(units[2..]);
        assert cps[1..] == CodePoints(units[2..]);
        assert |EncodeScalar(cps[0])| == 4;
      } else {
        EncodedLengthBounds(units[1..]);
        assert cps[1..] == CodePoints(units[1..]);
        assert |EncodeScalar(cps[0])| <= 3;
      }
    }
  }
}
