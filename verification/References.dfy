/** Character and entity references: what each of them is read as. */
module References {
  import opened Chars
  import opened Strconv
  import U = Utf8

  // ---------- the bytes of a code point ----------

  predicate Scalar(n: nat) {
    n < 0x11_0000 && !(0xD800 <= n < 0xE000)
  }

  /** The library writes code points as section 3 of RFC 3629 says. */
  lemma BytesWritten(n: nat)
    requires n < 0x11_0000
    ensures U.InBytes(Utf8Bytes(n)) && U.BytesOf(Utf8Bytes(n)) == U.Encode(n)
  {
    assert n >= 0x1_0000 ==> n / 262144 % 16 == n / 262144;
  }

  /** What is written for a scalar value is one well-formed character, which stands for that value. */
  lemma BytesMean(n: nat)
    requires Scalar(n)
    ensures U.InBytes(Utf8Bytes(n))
    ensures var b := U.BytesOf(Utf8Bytes(n)); U.CharLength(b) == |b| && U.Front(b) == U.Step(n, |b|)
  {
    BytesWritten(n);
    U.EncodedBack(n);
  }

  // ---------- numbers ----------

  lemma DigitRead(text: string, i: nat, j: nat, base: nat, code: nat, d: nat, v: nat)
    requires i < j < |text| && IsDigit(Peek(text, j), base) && DigitValue(Peek(text, j), base) == d && v == base * code + d < 0x1_0000_0000
    ensures CharRef(text, i, j, base, code) == CharRef(text, i, j + 1, base, v)
  {
    assert v % 0x1_0000_0000 == v;
  }

  lemma OneDigit(text: string, i: nat, k: nat, alphabet: string, m: nat, d: nat, n: nat)
    requires IsAlphabet(alphabet) && i < k < |text| && d < |alphabet| && n == Radix(alphabet) * m + d && n < 0x1_0000_0000
    requires Peek(text, k) == alphabet[d]
    ensures CharRef(text, i, k, Radix(alphabet), m) == CharRef(text, i, k + 1, Radix(alphabet), n)
  {
    DigitsWorth(alphabet, d);
    DigitRead(text, i, k, Radix(alphabet), m, d, n);
  }

  lemma LastAt(text: string, j: nat, front: string, c: char, s: string, k: nat)
    requires Stands(text, j, s) && s == front + [c] && k == j + |front|
    ensures Stands(text, j, front) && Peek(text, k) == c && k + 1 == j + |s| <= |text|
  {
    StandsSplit(text, j, front, [c]);
    StandsAt(text, k, [c], 0);
  }

  lemma OnlyDigit(text: string, i: nat, j: nat, alphabet: string, n: nat, s: string)
    requires IsAlphabet(alphabet) && i < j && n < Radix(alphabet) && s == Numeral(n, alphabet) && Stands(text, j, s)
    ensures |s| == 1 && j + 1 <= |text| && CharRef(text, i, j, Radix(alphabet), 0) == CharRef(text, i, j + 1, Radix(alphabet), n)
  {
    LastAt(text, j, [], alphabet[n], s, j);
    OneDigit(text, i, j, alphabet, 0, n, n);
  }

  lemma LastRead(text: string, i: nat, j: nat, alphabet: string, m: nat, d: nat, n: nat, front: string, s: string, p: Piece)
    requires IsAlphabet(alphabet) && i < j && d < |alphabet| && n == Radix(alphabet) * m + d && n < 0x1_0000_0000
    requires s == front + [alphabet[d]] && Stands(text, j, s) && CharRef(text, i, j + |s|, Radix(alphabet), n) == p
    ensures Stands(text, j, front) && j + |front| <= |text| && CharRef(text, i, j + |front|, Radix(alphabet), m) == p
  {
    LastAt(text, j, front, alphabet[d], s, j + |front|);
    OneDigit(text, i, j + |front|, alphabet, m, d, n);
  }

  /** The digits of a number, from the first on, when what follows is read as `p`. */
  lemma {:induction false} NumeralRead(text: string, i: nat, j: nat, alphabet: string, n: nat, s: string, p: Piece)
    requires IsAlphabet(alphabet) && i < j && s == Numeral(n, alphabet) && Stands(text, j, s) && n < 0x1_0000_0000
    requires CharRef(text, i, j + |s|, Radix(alphabet), n) == p
    ensures CharRef(text, i, j, Radix(alphabet), 0) == p
    decreases n
  {
    if n < Radix(alphabet) {
      OnlyDigit(text, i, j, alphabet, n, s);
    } else {
      var m, d := NumeralSplit(n, alphabet);
      var front := Numeral(m, alphabet);
      LastRead(text, i, j, alphabet, m, d, n, front, s, p);
      NumeralRead(text, i, j, alphabet, m, front, p);
    }
  }

  lemma {:induction false} FirstDigit(n: nat, alphabet: string)
    requires IsAlphabet(alphabet)
    ensures var c := Numeral(n, alphabet)[0]; c != ';' && c != 'x'
    decreases n
  {
    var b := Radix(alphabet);
    if n < b { DigitsWorth(alphabet, n); } else { FirstDigit(n / b, alphabet); }
  }

  function Opening(alphabet: string): string {
    if alphabet == DECIMAL then ['&', '#'] else ['&', '#', 'x']
  }

  /** `&#` and decimal digits, or `&#x` and hexadecimal ones in either case. */
  function NumericReference(n: nat, alphabet: string): string
    requires IsAlphabet(alphabet)
  {
    Opening(alphabet) + (Numeral(n, alphabet) + [';'])
  }

  lemma OpeningRead(text: string, i: nat, alphabet: string)
    requires IsAlphabet(alphabet) && Stands(text, i, Opening(alphabet))
    requires Peek(text, i + |Opening(alphabet)|) != ';' && Peek(text, i + |Opening(alphabet)|) != 'x'
    ensures i + |Opening(alphabet)| <= |text|
    ensures Reference(text, i) == CharRef(text, i, i + |Opening(alphabet)|, Radix(alphabet), 0)
  {
    var o := Opening(alphabet);
    Sizes();
    StandsAt(text, i, o, 0);
    StandsAt(text, i, o, 1);
    if alphabet != DECIMAL { StandsAt(text, i, o, 2); }
  }

  /** The places in a numeric reference: its digits begin at `j`, the semicolon is at `e`. */
  lemma NumericPlaces(text: string, i: nat, o: string, d: string) returns (j: nat, e: nat)
    requires Stands(text, i, o + (d + [';'])) && d != []
    ensures Stands(text, i, o) && j == i + |o| && Stands(text, j, d) && e == j + |d| && Peek(text, j) == d[0]
    ensures Peek(text, e) == ';' && e + 1 == i + |o + (d + [';'])| <= |text|
  {
    StandsSplit(text, i, o, d + [';']);
    j := i + |o|;
    StandsSplit(text, j, d, [';']);
    e := j + |d|;
    StandsAt(text, j, d, 0);
    StandsAt(text, e, [';'], 0);
  }

  lemma DigitsRead(text: string, i: nat, j: nat, alphabet: string, n: nat, s: string, e: nat)
    requires IsAlphabet(alphabet) && i < j && s == Numeral(n, alphabet) && Stands(text, j, s) && n < 0x1_0000_0000
    requires e == j + |s| && e <= |text| && Peek(text, e) == ';'
    ensures CharRef(text, i, j, Radix(alphabet), 0) == Piece(e + 1, Utf8Bytes(n))
  {
    SemicolonEnds(text, i, e, Radix(alphabet), n);
    NumeralRead(text, i, j, alphabet, n, s, Piece(e + 1, Utf8Bytes(n)));
  }

  /** A numeric reference is read as the UTF-8 bytes of its number. */
  lemma NumericIs(text: string, i: nat, n: nat, alphabet: string)
    requires IsAlphabet(alphabet) && n < 0x1_0000_0000 && Stands(text, i, NumericReference(n, alphabet))
    ensures i < |text| && Reference(text, i) == Piece(i + |NumericReference(n, alphabet)|, Utf8Bytes(n))
  {
    var j, e := NumericPlaces(text, i, Opening(alphabet), Numeral(n, alphabet));
    FirstDigit(n, alphabet);
    OpeningRead(text, i, alphabet);
    DigitsRead(text, i, j, alphabet, n, Numeral(n, alphabet), e);
  }

  lemma SemicolonEnds(text: string, i: nat, j: nat, base: nat, code: nat)
    requires i < j <= |text| && Peek(text, j) == ';' && (base == 10 || base == 16)
    ensures CharRef(text, i, j, base, code) == Piece(j + 1, Utf8Bytes(code))
  {
  }

  /** For every scalar value: its reference, in decimal or hexadecimal, is read as the one well-formed
      character that the decoder takes for this value. */
  lemma NumericMeans(text: string, i: nat, n: nat, alphabet: string)
    requires IsAlphabet(alphabet) && Scalar(n) && Stands(text, i, NumericReference(n, alphabet))
    ensures i < |text|
    ensures var r := Reference(text, i);
      && r.next == i + |NumericReference(n, alphabet)| && U.InBytes(r.out) && r.out != []
      && U.CharLength(U.BytesOf(r.out)) == |r.out| && U.Front(U.BytesOf(r.out)) == U.Step(n, |r.out|)
  {
    NumericIs(text, i, n, alphabet);
    BytesMean(n);
  }

  // ---------- names ----------

  /** The five predefined entities: section 4.6 of XML 1.0. */
  predicate Predefined(name: string, c: char) {
    || (name == "amp;" && c == '&') || (name == "lt;" && c == '<') || (name == "gt;" && c == '>')
    || (name == "quot;" && c == '"') || (name == "apos;" && c == '\'')
  }

  lemma NamedRead(text: string, i: nat, name: string, c: char)
    requires Predefined(name, c) && Stands(text, i, ['&'] + name)
    ensures i < |text| && Peek(text, i) == '&' && Reference(text, i) == Piece(i + 1 + |name|, [c])
  {
    var e := ['&'] + name;
    StandsAt(text, i, e, 0);
    StandsAt(text, i, e, 1);
    StandsAt(text, i, e, 2);
    NamedBack(text, i, e, name);
  }

  lemma Replaced(text: string, i: nat, p: Piece, quote: char)
    requires i < |text| && Peek(text, i) == '&' && Reference(text, i) == p && (quote == '"' || quote == '\'')
    ensures p.next <= |text| && TextValue(text, i) == Prepend(p.out, TextValue(text, p.next))
    ensures AttributeValue(text, i, quote) == Prepend(p.out, AttributeValue(text, p.next, quote))
  {
  }

  /** Both in running text and in attribute values such a reference is replaced by its character. */
  lemma ReplacedByName(text: string, i: nat, name: string, c: char, quote: char, next: nat)
    requires Predefined(name, c) && Stands(text, i, ['&'] + name) && (quote == '"' || quote == '\'') && next == i + 1 + |name|
    ensures next <= |text| && TextValue(text, i) == Prepend([c], TextValue(text, next))
    ensures AttributeValue(text, i, quote) == Prepend([c], AttributeValue(text, next, quote))
  {
    NamedRead(text, i, name, c);
    Replaced(text, i, Piece(next, [c]), quote);
  }

  lemma ReplacedByNumber(text: string, i: nat, n: nat, alphabet: string, quote: char, next: nat, out: string)
    requires IsAlphabet(alphabet) && Scalar(n) && Stands(text, i, NumericReference(n, alphabet)) && (quote == '"' || quote == '\'')
    requires next == i + |NumericReference(n, alphabet)| && out == U.TextOf(U.Encode(n))
    ensures next <= |text| && TextValue(text, i) == Prepend(out, TextValue(text, next))
    ensures AttributeValue(text, i, quote) == Prepend(out, AttributeValue(text, next, quote))
  {
    NumericIs(text, i, n, alphabet);
    WrittenBack(n);
    Ampersand(text, i, n, alphabet);
    Replaced(text, i, Piece(next, out), quote);
  }

  lemma WrittenBack(n: nat)
    requires n < 0x11_0000
    ensures Utf8Bytes(n) == U.TextOf(U.Encode(n))
  {
    BytesWritten(n);
    U.BytesBack(Utf8Bytes(n));
  }

  lemma Ampersand(text: string, i: nat, n: nat, alphabet: string)
    requires IsAlphabet(alphabet) && Stands(text, i, NumericReference(n, alphabet))
    ensures Peek(text, i) == '&'
  {
    assert NumericReference(n, alphabet)[0] == '&';
    StandsAt(text, i, NumericReference(n, alphabet), 0);
  }
}
