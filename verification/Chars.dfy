/** Characters that are spaces and digits, and numbers in decimal. */
module Chars {
  predicate IsSpace(c: char) {
    c == ' ' || c == '\t' || c == '\n' || c == '\r'
  }

  /** Nothing but white space: section 2.3 of XML 1.0. */
  predicate Blank(v: string) {
    forall k :: 0 <= k < |v| ==> v[k] == ' ' || v[k] == '\t' || v[k] == '\n' || v[k] == '\r'
  }

  /** A decimal digit, or in base 16 a hexadecimal one. */
  predicate IsDigit(c: char, base: nat) {
    '0' <= c <= '9' || (base == 16 && ('a' <= c <= 'f' || 'A' <= c <= 'F'))
  }

  function DigitValue(c: char, base: nat): (d: nat)
    requires IsDigit(c, base)
    ensures d < 16 && (base == 10 ==> d < 10) && (d == 0 <==> c == '0')
  {
    if c <= '9' then (c - '0') as nat
    else if c <= 'F' then (c - 'A') as nat + 10
    else (c - 'a') as nat + 10
  }

  function DigitChar(d: nat): (c: char)
    requires d < 10
    ensures IsDigit(c, 10) && DigitValue(c, 10) == d
  {
    '0' + d as char
  }

  function Decimal(n: nat): (s: string)
    ensures s != [] && forall k :: 0 <= k < |s| ==> IsDigit(s[k], 10)
  {
    if n < 10 then [DigitChar(n)] else Decimal(n / 10) + [DigitChar(n % 10)]
  }

  // ---------- numerals ----------

  const DECIMAL: string := "0123456789"

  const LOWER: string := "0123456789abcdef"

  const UPPER: string := "0123456789ABCDEF"

  predicate IsAlphabet(alphabet: string) {
    alphabet == DECIMAL || alphabet == LOWER || alphabet == UPPER
  }

  lemma Sizes()
    ensures |DECIMAL| == 10 && |LOWER| == 16 && |UPPER| == 16
  {
  }

  function Radix(alphabet: string): (b: nat)
    requires IsAlphabet(alphabet)
    ensures b == |alphabet| && (b == 10 || b == 16)
  {
    Sizes();
    |alphabet|
  }

  /** The digits of `n`, the most significant first, written in an alphabet. */
  function Numeral(n: nat, alphabet: string): (s: string)
    requires IsAlphabet(alphabet)
    ensures s != []
  {
    var b := Radix(alphabet);
    if n < b then [alphabet[n]] else Numeral(n / b, alphabet) + [alphabet[n % b]]
  }

  /** The last digit of a number with several, and what stands before it. */
  lemma NumeralSplit(n: nat, alphabet: string) returns (m: nat, d: nat)
    requires IsAlphabet(alphabet) && n >= Radix(alphabet)
    ensures m < n && d < |alphabet| && n == Radix(alphabet) * m + d
    ensures Numeral(n, alphabet) == Numeral(m, alphabet) + [alphabet[d]]
  {
    if Radix(alphabet) == 10 {
      m, d := n / 10, n % 10;
    } else {
      m, d := n / 16, n % 16;
    }
  }

  /** Every character of the three alphabets is a digit, and worth its place. */
  lemma DigitsWorth(alphabet: string, d: nat)
    requires IsAlphabet(alphabet) && d < |alphabet|
    ensures (|alphabet| == 10 || |alphabet| == 16) && IsDigit(alphabet[d], |alphabet|) && DigitValue(alphabet[d], |alphabet|) == d
    ensures alphabet[d] != ';' && alphabet[d] != 'x' && alphabet[d] != 'X' && !IsSpace(alphabet[d])
  {
    Sizes();
  }

  /** And there are no other digits. */
  lemma DigitsAre(c: char)
    ensures IsDigit(c, 10) <==> c in DECIMAL
    ensures IsDigit(c, 16) <==> c in LOWER || c in UPPER
  {
    if IsDigit(c, 16) {
      var d := DigitValue(c, 16);
      assert c == LOWER[d] || c == UPPER[d];
      if IsDigit(c, 10) { assert c == DECIMAL[d]; }
    }
    if c in DECIMAL { var k :| 0 <= k < |DECIMAL| && c == DECIMAL[k]; DigitsWorth(DECIMAL, k); }
    if c in LOWER { var k :| 0 <= k < |LOWER| && c == LOWER[k]; DigitsWorth(LOWER, k); }
    if c in UPPER { var k :| 0 <= k < |UPPER| && c == UPPER[k]; DigitsWorth(UPPER, k); }
  }

  /** The decimal digits are written by the same rule. */
  lemma {:induction false} DecimalIs(n: nat)
    ensures Decimal(n) == Numeral(n, DECIMAL)
  {
    Sizes();
    assert Radix(DECIMAL) == 10;
    DigitsWorth(DECIMAL, n % 10);
    assert DigitChar(n % 10) == DECIMAL[n % 10];
    if n >= 10 {
      DecimalIs(n / 10);
    }
  }
}
