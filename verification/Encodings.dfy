/** Output encodings, told by reading them back: UTF-16 and UTF-32 in either byte order, and Latin-1. */
module Encodings {
  import opened Utf8

  // ---------- what a text says ----------

  /** The code points of a UTF-8 text. */
  function Codes(s: seq<Byte>): seq<nat> {
    if s == [] then []
    else
      match Front(s)
      case Step(code, length) => [code] + Codes(s[length..])
      case Skip => Codes(s[1..])
  }

  // ---------- readers, apart from the writers ----------

  /** Two bytes, the high one first in big-endian text and the low one first in little-endian text. */
  function Pair(first: Byte, second: Byte, big: bool): nat {
    if big then first * 256 + second else first + second * 256
  }

  /** UTF-16 (RFC 2781): a pair of surrogates is one code point. */
  function Read16(b: seq<Byte>, big: bool): seq<nat>
    decreases |b|
  {
    if |b| < 2 then []
    else
      var u := Pair(b[0], b[1], big);
      if 0xD800 <= u < 0xDC00 && |b| >= 4 && 0xDC00 <= Pair(b[2], b[3], big) < 0xE000 then
        [0x1_0000 + (u - 0xD800) * 0x400 + (Pair(b[2], b[3], big) - 0xDC00)] + Read16(b[4..], big)
      else [u] + Read16(b[2..], big)
  }

  function Quad(a: nat, b: nat, c: nat, d: nat): nat {
    a * 0x100_0000 + b * 0x1_0000 + c * 0x100 + d
  }

  /** UTF-32: four bytes a code point. */
  function Read32(b: seq<Byte>, big: bool): seq<nat>
    decreases |b|
  {
    if |b| < 4 then []
    else
      [if big then Quad(b[0], b[1], b[2], b[3]) else Quad(b[3], b[2], b[1], b[0])] + Read32(b[4..], big)
  }

  function Decoded(b: seq<Byte>, encoding: Encoding): seq<nat> {
    match encoding
    case Utf8 => Codes(b)
    case Utf16Le => Read16(b, false)
    case Utf16Be => Read16(b, true)
    case Utf32Le => Read32(b, false)
    case Utf32Be => Read32(b, true)
    case Latin1 => seq(|b|, k requires 0 <= k < |b| => b[k] as nat)
  }

  // ---------- one character ----------

  lemma UnitRead(x: nat, big: bool)
    requires x < 0x1_0000
    ensures var u := Unit16(x, big); Pair(u[0], u[1], big) == x
  {
  }

  /** A code point of one unit. */
  lemma LowRead(x: nat, big: bool, rest: seq<Byte>)
    requires x < 0x1_0000 && !(0xD800 <= x < 0xE000)
    ensures Read16(Unit16(x, big) + rest, big) == [x] + Read16(rest, big)
  {
    UnitRead(x, big);
    assert (Unit16(x, big) + rest)[2..] == rest;
  }

  /** A code point of two. */
  lemma HighRead(code: nat, big: bool, rest: seq<Byte>)
    requires 0x1_0000 <= code < 0x11_0000
    ensures var d := code - 0x1_0000;
      Read16(Unit16(0xD800 + d / 1024, big) + Unit16(0xDC00 + d % 1024, big) + rest, big) == [code] + Read16(rest, big)
  {
    var d := code - 0x1_0000;
    UnitRead(0xD800 + d / 1024, big);
    UnitRead(0xDC00 + d % 1024, big);
    var b := Unit16(0xD800 + d / 1024, big) + Unit16(0xDC00 + d % 1024, big) + rest;
    assert b[4..] == rest;
    assert d == d / 1024 * 1024 + d % 1024;
  }

  lemma FourRead(x: nat, big: bool, rest: seq<Byte>)
    requires x < 0x1_0000_0000
    ensures Read32(Unit32(x, big) + rest, big) == [x] + Read32(rest, big)
  {
    var u := Unit32(x, big);
    FourBytes(x);
    assert (u + rest)[4..] == rest;
  }

  lemma FourBytes(x: nat)
    requires x < 0x1_0000_0000
    ensures var hi, lo := x / 0x1_0000 % 0x1_0000, x % 0x1_0000;
      Quad(hi / 256, hi % 256, lo / 256, lo % 256) == x
  {
  }

  /** The decoder's step for a well-formed character. */
  lemma StepIs(s: seq<Byte>)
    requires CharLength(s) > 0
    ensures var c := Front(s);
      c.Step? && c.length == CharLength(s) && c.code < 0x11_0000 && !(0xD800 <= c.code < 0xE000) && (c.length == 4 <==> c.code >= 0x1_0000)
  {
    FrontOfChar(s, []);
    assert s + [] == s;
    DecodesExactly(s);
    EncodedBack(Front(s).code);
  }

  lemma EmitHigh(c: Step, encoding: Encoding)
    requires c.Step? && 0x1_0000 <= c.code < 0x11_0000 && c.length >= 4 && (encoding == Utf16Le || encoding == Utf16Be)
    ensures var d, big := c.code - 0x1_0000, encoding == Utf16Be;
      Emit(c, encoding) == Unit16(0xD800 + d / 1024, big) + Unit16(0xDC00 + d % 1024, big)
  {
    assert (c.code + 0x1_0000_0000 - 0x1_0000) % 0x1_0000_0000 == c.code - 0x1_0000;
  }

  lemma Emit16Read(c: Step, encoding: Encoding, rest: seq<Byte>)
    requires c.Step? && c.code < 0x11_0000 && !(0xD800 <= c.code < 0xE000) && (c.length < 4 <==> c.code < 0x1_0000)
    requires encoding == Utf16Le || encoding == Utf16Be
    ensures Read16(Emit(c, encoding) + rest, encoding == Utf16Be) == [c.code] + Read16(rest, encoding == Utf16Be)
  {
    if c.length < 4 {
      LowRead(c.code, encoding == Utf16Be, rest);
    } else {
      EmitHigh(c, encoding);
      HighRead(c.code, encoding == Utf16Be, rest);
    }
  }

  /** What is put out for a character is read back as its code point. */
  lemma EmitRead(c: Step, encoding: Encoding, rest: seq<Byte>)
    requires c.Step? && c.code < 0x11_0000 && !(0xD800 <= c.code < 0xE000) && (c.length < 4 <==> c.code < 0x1_0000)
    requires encoding != Utf8 && encoding != Latin1
    ensures Decoded(Emit(c, encoding) + rest, encoding) == [c.code] + Decoded(rest, encoding)
  {
    match encoding
    case Utf16Le | Utf16Be => Emit16Read(c, encoding, rest);
    case Utf32Le | Utf32Be => FourRead(c.code, encoding == Utf32Be, rest);
  }

  // ---------- texts ----------

  /** Whatever is written in UTF-16 or UTF-32, in either byte order, is read back as the code points of the text. */
  lemma {:induction false} ConvertRead(s: seq<Byte>, encoding: Encoding)
    requires WellFormed(s) && encoding != Latin1
    ensures Decoded(Convert(s, encoding), encoding) == Codes(s)
    decreases |s|
  {
    if encoding != Utf8 && s != [] {
      var n := CharLength(s);
      StepIs(s);
      ConvertRead(s[n..], encoding);
      RecodeStep(s, n, encoding);
      EmitRead(Front(s), encoding, Recode(s[n..], encoding));
    }
  }

  /** In Latin-1 every code point is one byte, the question mark for those it does not have. */
  lemma {:induction false} LatinRead(s: seq<Byte>)
    requires WellFormed(s)
    ensures var b, c := Convert(s, Latin1), Codes(s);
      |b| == |c| && forall k {:trigger b[k]} :: 0 <= k < |b| ==> b[k] == if c[k] < 256 then c[k] else 0x3F
    decreases |s|
  {
    if s != [] {
      var n := CharLength(s);
      StepIs(s);
      LatinRead(s[n..]);
      RecodeStep(s, n, Latin1);
      var c := Front(s);
      assert Emit(c, Latin1) == [if c.code < 256 then c.code else 0x3F];
    }
  }

  function Encoded(codes: seq<nat>): seq<Byte>
    requires forall k :: 0 <= k < |codes| ==> codes[k] < 0x20_0000
  {
    if codes == [] then [] else Encode(codes[0]) + Encoded(codes[1..])
  }

  lemma CodesFirst(s: seq<Byte>, n: nat)
    requires CharLength(s) == n > 0
    ensures Front(s).Step? && Codes(s) == [Front(s).code] + Codes(s[n..])
    ensures Front(s).code < 0x11_0000 && !(0xD800 <= Front(s).code < 0xE000) && s == Encode(Front(s).code) + s[n..]
  {
    StepIs(s);
    DecodesExactly(s);
    assert s == s[..n] + s[n..];
  }

  /** The code points of a well-formed text are scalar values, and their UTF-8 is the text. */
  lemma {:induction false} CodesExactly(s: seq<Byte>)
    requires WellFormed(s)
    ensures forall k :: 0 <= k < |Codes(s)| ==> Codes(s)[k] < 0x11_0000 && !(0xD800 <= Codes(s)[k] < 0xE000)
    ensures Encoded(Codes(s)) == s
    decreases |s|
  {
    if s != [] {
      var n := CharLength(s);
      CodesFirst(s, n);
      CodesExactly(s[n..]);
      assert Codes(s)[1..] == Codes(s[n..]);
    }
  }
}
