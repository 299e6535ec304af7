/** UTF-8 text as bytes: the decoder and the writers of the library, and well-formedness as section 4 of
    RFC 3629 has it. */
module Utf8 {
  type Byte = x: nat | x < 256

  datatype Encoding = Utf8 | Utf16Le | Utf16Be | Utf32Le | Utf32Be | Latin1

  /** A byte that does not start a character: 10xxxxxx. */
  predicate Continues(b: Byte) {
    128 <= b < 192
  }

  /** The low six bits of a continuation byte. */
  function Six(b: Byte): (n: nat)
    requires Continues(b)
    ensures n < 64
  {
    b as int - 128
  }

  // ---------- the decoder ----------

  datatype Step = Step(code: nat, length: nat) | Skip

  /** One turn of utf8_decoder::process: the character at the front of `s`, or a byte to skip. */
  function Front(s: seq<Byte>): (r: Step)
    requires s != []
    ensures r.Step? ==> 1 <= r.length <= |s| && r.length <= 4 && r.code < 0x20_0000 && (r.length < 4 ==> r.code < 0x1_0000)
  {
    var lead: int := s[0];
    if lead < 0x80 then Step(lead, 1)
    else if 0xC0 <= lead < 0xE0 && |s| >= 2 && Continues(s[1]) then
      Step((lead - 0xC0) * 64 + Six(s[1]), 2)
    else if 0xE0 <= lead < 0xF0 && |s| >= 3 && Continues(s[1]) && Continues(s[2]) then
      Step((lead - 0xE0) * 4096 + Six(s[1]) * 64 + Six(s[2]), 3)
    else if 0xF0 <= lead < 0xF8 && |s| >= 4 && Continues(s[1]) && Continues(s[2]) && Continues(s[3]) then
      Step((lead - 0xF0) * 262144 + Six(s[1]) * 4096 + Six(s[2]) * 64 + Six(s[3]), 4)
    else Skip
  }

  function Unit16(x: nat, big: bool): (r: seq<Byte>)
    ensures |r| == 2
  {
    var y := x % 0x1_0000;
    if big then [y / 256, y % 256] else [y % 256, y / 256]
  }

  function Unit32(x: nat, big: bool): (r: seq<Byte>)
    requires x < 0x1_0000_0000
    ensures |r| == 4
  {
    if big then Unit16(x / 0x1_0000, true) + Unit16(x, true) else Unit16(x, false) + Unit16(x / 0x1_0000, false)
  }

  /** What `low` (or, for four-byte characters, `high`) of the writer for an encoding puts out. */
  function Emit(c: Step, encoding: Encoding): (r: seq<Byte>)
    requires c.Step? && c.code < 0x20_0000 && encoding != Utf8
    ensures |r| <= 4 && |r| > 0
  {
    match encoding
    case Utf16Le | Utf16Be =>
      var big := encoding == Utf16Be;
      if c.length < 4 then Unit16(c.code, big)
      else
        var rest := (c.code + 0x1_0000_0000 - 0x1_0000) % 0x1_0000_0000;
        Unit16(0xD800 + rest / 1024, big) + Unit16(0xDC00 + rest % 1024, big)
    case Utf32Le | Utf32Be => Unit32(c.code, encoding == Utf32Be)
    case Latin1 => [if c.length < 4 && c.code < 256 then c.code else '?' as int]
  }

  /** convert_buffer_output: a text decoded and written in another encoding; UTF-8 goes out as it is. */
  function Convert(s: seq<Byte>, encoding: Encoding): seq<Byte> {
    if encoding == Utf8 then s else Recode(s, encoding)
  }

  function Recode(s: seq<Byte>, encoding: Encoding): (r: seq<Byte>)
    requires encoding != Utf8
    ensures |r| <= 4 * |s|
  {
    if s == [] then []
    else
      match Front(s)
      case Step(code, length) => Emit(Front(s), encoding) + Recode(s[length..], encoding)
      case Skip => Recode(s[1..], encoding)
  }

  // ---------- well-formed text ----------

  predicate In(b: Byte, lo: int, hi: int) {
    lo <= b <= hi
  }

  /** The length of the well-formed character at the front of `s`, by the table of RFC 3629; 0 if there is none. */
  function CharLength(s: seq<Byte>): (n: nat)
    ensures n <= 4 && n <= |s|
  {
    if s == [] then 0
    else if s[0] < 0x80 then 1
    else if |s| >= 2 && In(s[0], 0xC2, 0xDF) && Continues(s[1]) then 2
    else if |s| >= 3 && Continues(s[2]) &&
            ((s[0] == 0xE0 && In(s[1], 0xA0, 0xBF)) || (In(s[0], 0xE1, 0xEC) && Continues(s[1])) ||
             (s[0] == 0xED && In(s[1], 0x80, 0x9F)) || (In(s[0], 0xEE, 0xEF) && Continues(s[1]))) then 3
    else if |s| >= 4 && Continues(s[2]) && Continues(s[3]) &&
            ((s[0] == 0xF0 && In(s[1], 0x90, 0xBF)) || (In(s[0], 0xF1, 0xF3) && Continues(s[1])) ||
             (s[0] == 0xF4 && In(s[1], 0x80, 0x8F))) then 4
    else 0
  }

  predicate WellFormed(s: seq<Byte>) {
    s == [] || (CharLength(s) > 0 && WellFormed(s[CharLength(s)..]))
  }

  /** Characters are recognised by their own bytes alone, and the decoder takes them whole. */
  lemma FrontOfChar(s: seq<Byte>, more: seq<Byte>)
    requires CharLength(s) > 0
    ensures CharLength(s + more) == CharLength(s)
    ensures Front(s + more) == Front(s) && Front(s).Step? && Front(s).length == CharLength(s)
    ensures !Continues(s[0]) && forall k :: 1 <= k < CharLength(s) ==> Continues(s[k])
  {
    var t := s + more;
    assert t[0] == s[0];
    assert |s| > 1 ==> t[1] == s[1];
    assert |s| > 2 ==> t[2] == s[2];
    assert |s| > 3 ==> t[3] == s[3];
  }

  lemma {:induction false} WellFormedJoins(a: seq<Byte>, b: seq<Byte>)
    requires WellFormed(a) && WellFormed(b)
    ensures WellFormed(a + b)
  {
    if a == [] {
      assert a + b == b;
    } else {
      FrontOfChar(a, b);
      assert (a + b)[CharLength(a)..] == a[CharLength(a)..] + b;
      WellFormedJoins(a[CharLength(a)..], b);
    }
  }

  /** The first character's part of a conversion. */
  lemma RecodeStep(s: seq<Byte>, n: nat, encoding: Encoding)
    requires encoding != Utf8 && s != [] && Front(s).Step? && Front(s).length == n
    ensures Recode(s, encoding) == Emit(Front(s), encoding) + Recode(s[n..], encoding)
  {
  }

  lemma RecodeSkip(s: seq<Byte>, encoding: Encoding)
    requires encoding != Utf8 && s != [] && Front(s).Skip?
    ensures Recode(s, encoding) == Recode(s[1..], encoding)
  {
  }

  lemma RecodeHead(a: seq<Byte>, b: seq<Byte>, n: nat, encoding: Encoding)
    requires n == CharLength(a) > 0 && encoding != Utf8
    ensures Front(a).Step? && Recode(a + b, encoding) == Emit(Front(a), encoding) + Recode(a[n..] + b, encoding)
  {
    FrontOfChar(a, b);
    assert (a + b)[n..] == a[n..] + b;
    RecodeStep(a + b, n, encoding);
  }

  lemma {:induction false} RecodeJoins(a: seq<Byte>, b: seq<Byte>, encoding: Encoding)
    requires WellFormed(a) && encoding != Utf8
    ensures Recode(a + b, encoding) == Recode(a, encoding) + Recode(b, encoding)
    decreases |a|
  {
    if a == [] {
      assert a + b == b;
    } else {
      var n := CharLength(a);
      var rest := a[n..];
      RecodeHead(a, b, n, encoding);
      RecodeHead(a, [], n, encoding);
      assert a + [] == a && rest + [] == rest;
      RecodeJoins(rest, b, encoding);
      Regroup(Emit(Front(a), encoding), Recode(rest, encoding), Recode(b, encoding));
    }
  }

  lemma Regroup(x: seq<Byte>, y: seq<Byte>, z: seq<Byte>)
    ensures x + (y + z) == (x + y) + z
  {
  }

  /** Converting piece by piece is converting the whole, as long as no character is split. */
  lemma ConvertJoins(a: seq<Byte>, b: seq<Byte>, encoding: Encoding)
    requires WellFormed(a) || encoding == Utf8
    ensures Convert(a + b, encoding) == Convert(a, encoding) + Convert(b, encoding)
  {
    if encoding != Utf8 {
      RecodeJoins(a, b, encoding);
    }
  }

  /** In well-formed text a byte that starts a character is a place to cut. */
  lemma {:induction false} CutsAt(s: seq<Byte>, p: nat)
    requires WellFormed(s) && p <= |s| && (p < |s| ==> !Continues(s[p]))
    ensures WellFormed(s[..p]) && WellFormed(s[p..])
  {
    if p > 0 {
      var n := CharLength(s);
      FrontOfChar(s, []);
      var t := s[n..];
      CutsAt(t, p - n);
      assert s[..p] == s[..n] + t[..p - n];
      assert t[p - n..] == s[p..];
      FirstChar(s);
      WellFormedJoins(s[..n], t[..p - n]);
    }
  }

  lemma FirstChar(s: seq<Byte>)
    requires CharLength(s) > 0
    ensures WellFormed(s[..CharLength(s)])
  {
    var n := CharLength(s);
    var c := s[..n];
    assert CharLength(c) == n;
    assert c[n..] == [];
  }

  /** No four continuation bytes follow one another. */
  lemma {:induction false} AtMostThree(s: seq<Byte>, p: nat)
    requires WellFormed(s) && p + 4 <= |s|
    ensures exists k :: p <= k < p + 4 && !Continues(s[k])
  {
    var n := CharLength(s);
    FrontOfChar(s, []);
    if p == 0 {
      assert !Continues(s[0]);
    } else if p >= n {
      AtMostThree(s[n..], p - n);
      var k :| p - n <= k < p - n + 4 && !Continues(s[n..][k]);
      assert !Continues(s[n + k]);
    } else {
      FrontOfChar(s[n..], []);
      assert !Continues(s[n..][0]);
      assert !Continues(s[n]);
    }
  }

  // ---------- decoding is what RFC 3629 says ----------

  /** utf8_writer: the bytes of a code point. */
  function Encode(code: nat): seq<Byte>
    requires code < 0x20_0000
  {
    if code < 0x80 then [code]
    else if code < 0x800 then [0xC0 + code / 64, 128 + code % 64]
    else if code < 0x1_0000 then [0xE0 + code / 4096, 128 + code / 64 % 64, 128 + code % 64]
    else [0xF0 + code / 262144, 128 + code / 4096 % 64, 128 + code / 64 % 64, 128 + code % 64]
  }

  /** The code point of a well-formed character is a Unicode scalar value, and encoding it gives the
      character back. */
  lemma DecodesExactly(s: seq<Byte>)
    requires CharLength(s) > 0
    ensures var c := Front(s);
      c.Step? && c.code < 0x11_0000 && !(0xD800 <= c.code < 0xE000) && Encode(c.code) == s[..CharLength(s)]
  {
    FrontOfChar(s, []);
    assert s + [] == s;
    var n := CharLength(s);
    if n == 2 {
      Digits(s[0] as int - 0xC0, Six(s[1]));
    } else if n == 3 {
      ThreeDigits(s[0] as int - 0xE0, Six(s[1]), Six(s[2]));
    } else if n == 4 {
      FourDigits(s[0] as int - 0xF0, Six(s[1]), Six(s[2]), Six(s[3]));
    }
  }

  lemma ThreeDigits(a: nat, b: nat, c: nat)
    requires b < 64 && c < 64
    ensures var v := a * 4096 + b * 64 + c; v / 4096 == a && v / 64 % 64 == b && v % 64 == c
  {
    Digits(a * 64 + b, c);
    Digits(a, b);
  }

  lemma FourDigits(a: nat, b: nat, c: nat, d: nat)
    requires b < 64 && c < 64 && d < 64
    ensures var v := a * 262144 + b * 4096 + c * 64 + d;
      v / 262144 == a && v / 4096 % 64 == b && v / 64 % 64 == c && v % 64 == d
  {
    Digits(a * 4096 + b * 64 + c, d);
    ThreeDigits(a, b, c);
  }

  lemma Digits(hi: nat, lo: nat)
    requires lo < 64
    ensures (hi * 64 + lo) / 64 == hi && (hi * 64 + lo) % 64 == lo
  {
  }

  /** Every scalar value is encoded as one well-formed character, which is decoded to it. */
  lemma EncodedBack(code: nat)
    requires code < 0x11_0000 && !(0xD800 <= code < 0xE000)
    ensures var s := Encode(code);
      CharLength(s) == |s| && Front(s) == Step(code, |s|) && (|s| == 4 <==> code >= 0x1_0000)
  {
    SplitOff(code);
    SplitOff(code / 64);
    SplitOff(code / 4096);
  }

  lemma SplitOff(n: nat)
    ensures n == n / 64 * 64 + n % 64 && n / 64 / 64 == n / 4096 && n / 4096 / 64 == n / 262144
  {
  }

  // ---------- text as bytes ----------

  /** Text whose characters are bytes. */
  predicate InBytes(t: string) {
    forall k :: 0 <= k < |t| ==> t[k] as int < 256
  }

  function BytesOf(t: string): (b: seq<Byte>)
    requires InBytes(t)
    ensures |b| == |t|
  {
    seq(|t|, k requires 0 <= k < |t| => t[k] as int)
  }

  function TextOf(b: seq<Byte>): (t: string)
    ensures |t| == |b|
  {
    seq(|b|, k requires 0 <= k < |b| => b[k] as char)
  }

  lemma BytesBack(t: string)
    requires InBytes(t)
    ensures TextOf(BytesOf(t)) == t
  {
  }
}
