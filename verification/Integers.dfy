/** Integer attribute values: parsing on wrapping arithmetic with a late overflow test, and printing. */
module Integers {
  import opened Chars

  // ---------- machine integers ----------

  /** The three sizes, in bytes, of the unsigned types the templates are used with. */
  predicate Size(size: nat) {
    size == 2 || size == 4 || size == 8
  }

  /** The number of values of an unsigned type of that size. */
  function Modulus(size: nat): (m: nat)
    requires Size(size)
    ensures m > 0
  {
    if size == 2 then 0x1_0000 else if size == 4 then 0x1_0000_0000 else 0x1_0000_0000_0000_0000
  }

  // ---------- digits ----------

  predicate Base(base: nat) {
    base == 10 || base == 16
  }

  predicate AllDigits(s: string, base: nat) {
    forall k :: 0 <= k < |s| ==> IsDigit(s[k], base)
  }

  /** The number a run of digits denotes. */
  function Value(s: string, base: nat): nat
    requires Base(base) && AllDigits(s, base)
  {
    if s == [] then 0 else Value(s[..|s| - 1], base) * base + DigitValue(s[|s| - 1], base)
  }

  function Pow(base: nat, n: nat): nat {
    if n == 0 then 1 else base * Pow(base, n - 1)
  }

  /** A run of digits is worth its first digit followed by as many places as there are others. */
  lemma {:induction false} ValueBounds(s: string, base: nat)
    requires Base(base) && AllDigits(s, base) && s != []
    ensures DigitValue(s[0], base) * Pow(base, |s| - 1) <= Value(s, base) < (DigitValue(s[0], base) + 1) * Pow(base, |s| - 1)
  {
    var t := s[..|s| - 1];
    if |s| > 1 {
      ValueBounds(t, base);
      var d, p, v := DigitValue(s[0], base), Pow(base, |s| - 2), Value(t, base);
      assert Pow(base, |s| - 1) == base * p;
      Scale(d, p, v, base);
    }
  }

  lemma Scale(d: nat, p: nat, v: nat, base: nat)
    requires d * p <= v < (d + 1) * p
    ensures d * (base * p) <= v * base && v * base + base <= (d + 1) * (base * p)
  {
    Regroup(d, base, p);
    Regroup(d + 1, base, p);
    Ordered(d * p, v, base);
    Ordered(v + 1, (d + 1) * p, base);
    assert (v + 1) * base == v * base + base;
  }

  lemma Regroup(d: nat, base: nat, p: nat)
    ensures d * (base * p) == d * p * base
  {
  }

  lemma Ordered(x: nat, y: nat, base: nat)
    requires x <= y
    ensures x * base <= y * base
  {
  }

  lemma {:induction false} PowGrows(base: nat, m: nat, n: nat)
    requires base > 0 && m <= n
    ensures 0 < Pow(base, m) <= Pow(base, n)
    decreases n
  {
    if m < n {
      PowGrows(base, m, n - 1);
      assert base * Pow(base, n - 1) >= Pow(base, n - 1);
    } else if m > 0 {
      PowGrows(base, m - 1, n - 1);
      assert base * Pow(base, n - 1) > 0;
    }
  }

  // ---------- what a text denotes ----------

  function SkipSpaces(s: string): string {
    if s != [] && IsSpace(s[0]) then SkipSpaces(s[1..]) else s
  }

  function SkipZeros(s: string): string {
    if s != [] && s[0] == '0' then SkipZeros(s[1..]) else s
  }

  /** The digits at the front of `s`. */
  function Run(s: string, base: nat): (r: string)
    ensures AllDigits(r, base)
  {
    if s != [] && IsDigit(s[0], base) then [s[0]] + Run(s[1..], base) else []
  }

  predicate Signed(s: string) {
    s != [] && (s[0] == '+' || s[0] == '-')
  }

  predicate HexPrefix(s: string) {
    |s| >= 2 && s[0] == '0' && (s[1] == 'x' || s[1] == 'X')
  }

  /** The integer written at the front of a text, after spaces: a sign, perhaps 0x, and digits. */
  function Denoted(text: string): int {
    var s := SkipSpaces(text);
    var u := if Signed(s) then s[1..] else s;
    var n := if HexPrefix(u) then Value(Run(u[2..], 16), 16) else Value(Run(u, 10), 10);
    if s != [] && s[0] == '-' then 0 - n else n
  }

  function Clamp(v: int, lo: int, hi: int): int {
    if v < lo then lo else if v > hi then hi else v
  }

  // ---------- wrapping arithmetic ----------

  lemma {:induction false} WholeTurns(q: nat, size: nat, y: nat)
    requires Size(size)
    ensures (q * Modulus(size) + y) % Modulus(size) == y % Modulus(size)
  {
    if q > 0 {
      WholeTurns(q - 1, size, y);
      OneTurn((q - 1) * Modulus(size) + y, size);
      assert q * Modulus(size) + y == ((q - 1) * Modulus(size) + y) + Modulus(size);
    }
  }

  lemma OneTurn(x: nat, size: nat)
    requires Size(size)
    ensures (x + Modulus(size)) % Modulus(size) == x % Modulus(size)
  {
    if size == 2 {
      assert (x + 0x1_0000) % 0x1_0000 == x % 0x1_0000;
    } else if size == 4 {
      assert (x + 0x1_0000_0000) % 0x1_0000_0000 == x % 0x1_0000_0000;
    } else {
      assert (x + 0x1_0000_0000_0000_0000) % 0x1_0000_0000_0000_0000 == x % 0x1_0000_0000_0000_0000;
    }
  }

  /** One wrapped step of the digit loop is the exact step, wrapped. */
  lemma WrappedStep(x: nat, base: nat, d: nat, size: nat)
    requires Size(size)
    ensures (x % Modulus(size) * base + d) % Modulus(size) == (x * base + d) % Modulus(size)
  {
    var m := Modulus(size);
    var q, r := x / m, x % m;
    assert x == q * m + r;
    Spread(q, m, r, base);
    WholeTurns(q * base, size, r * base + d);
  }

  lemma Spread(q: nat, m: nat, r: nat, base: nat)
    ensures (q * m + r) * base == q * base * m + r * base
  {
    Regroup(q, m, base);
    Regroup(q, base, m);
  }

  // ---------- the overflow test ----------

  function MaxDigits10(size: nat): (n: nat)
    requires Size(size)
    ensures n > 0
  {
    if size == 8 then 20 else if size == 4 then 10 else 5
  }

  function MaxLead(size: nat): char
    requires Size(size)
  {
    if size == 8 then '1' else if size == 4 then '4' else '6'
  }

  /** The test on the digits after leading zeros and on the wrapped result. */
  predicate Overflow(digits: string, base: nat, size: nat, result: nat)
    requires Size(size)
  {
    if base == 16 then |digits| > size * 2
    else
      |digits| >= MaxDigits10(size) &&
      !(|digits| == MaxDigits10(size) && (digits[0] < MaxLead(size) || (digits[0] == MaxLead(size) && result >= Modulus(size) / 2)))
  }

  lemma HexPower(size: nat)
    requires Size(size)
    ensures Pow(16, 2 * size) == Modulus(size)
  {
    assert Pow(16, 4) == 0x1_0000;
    PowSum(16, 4, 4);
    PowSum(16, 8, 8);
  }

  lemma {:induction false} PowSum(base: nat, m: nat, n: nat)
    ensures Pow(base, m + n) == Pow(base, m) * Pow(base, n)
    decreases m
  {
    if m > 0 {
      PowSum(base, m - 1, n);
      assert m + n - 1 == (m - 1) + n;
      Regroup(base, Pow(base, m - 1), Pow(base, n));
    }
  }

  lemma DecimalPowers()
    ensures Pow(10, 4) == 10_000 && Pow(10, 5) == 100_000
    ensures Pow(10, 9) == 1_000_000_000 && Pow(10, 10) == 10_000_000_000
    ensures Pow(10, 19) == 10_000_000_000_000_000_000 && Pow(10, 20) == 100_000_000_000_000_000_000
  {
    assert Pow(10, 4) == 10_000 && Pow(10, 5) == 100_000;
    PowSum(10, 4, 5);
    PowSum(10, 5, 5);
    PowSum(10, 9, 10);
    PowSum(10, 10, 10);
  }

  lemma HexOverflow(digits: string, size: nat)
    requires Size(size) && AllDigits(digits, 16) && (digits != [] ==> digits[0] != '0')
    ensures |digits| > 2 * size <==> Value(digits, 16) >= Modulus(size)
  {
    HexPower(size);
    if digits != [] {
      ValueBounds(digits, 16);
      var d, n := DigitValue(digits[0], 16), |digits|;
      if n > 2 * size {
        PowGrows(16, 2 * size, n - 1);
        Ordered(1, d, Pow(16, n - 1));
      } else {
        Ordered(d + 1, 16, Pow(16, n - 1));
        PowGrows(16, n, 2 * size);
      }
    }
  }

  lemma DecimalOverflow(digits: string, size: nat)
    requires Size(size) && AllDigits(digits, 10) && (digits != [] ==> digits[0] != '0')
    ensures Overflow(digits, 10, size, Value(digits, 10) % Modulus(size)) <==> Value(digits, 10) >= Modulus(size)
  {
    DecimalPowers();
    if digits != [] {
      ValueBounds(digits, 10);
      var d, n, k := DigitValue(digits[0], 10), |digits|, MaxDigits10(size);
      if n < k {
        Ordered(d + 1, 10, Pow(10, n - 1));
        PowGrows(10, n, k - 1);
      } else if n > k {
        PowGrows(10, k, n - 1);
        Ordered(1, d, Pow(10, n - 1));
      } else {
        LeadDecides(d, Pow(10, k - 1), Value(digits, 10), size);
      }
    }
  }

  /** With as many digits as the largest value has, the lead and the high bit tell. */
  lemma LeadDecides(d: nat, p: nat, v: nat, size: nat)
    requires Size(size) && 0 < d < 10 && d * p <= v < (d + 1) * p
    requires p == if size == 2 then 10_000 else if size == 4 then 1_000_000_000 else 10_000_000_000_000_000_000
    ensures v >= Modulus(size) <==> !(d < (MaxLead(size) - '0') as nat || (d == (MaxLead(size) - '0') as nat && v % Modulus(size) >= Modulus(size) / 2))
  {
  }

  // ---------- parsing ----------

  /** The character at `i`; the text ends in a NUL. */
  function CharAt(s: string, i: nat): char {
    if i < |s| then s[i] else '\0'
  }

  method SkipWhitespace(value: string) returns (i: nat)
    ensures i <= |value| && value[i..] == SkipSpaces(value)
  {
    i := 0;
    assert value[0..] == value;
    while IsSpace(CharAt(value, i))
      invariant i <= |value| && SkipSpaces(value[i..]) == SkipSpaces(value)
      decreases |value| - i
    {
      assert value[i..][1..] == value[i + 1..];
      i := i + 1;
    }
  }

  /** Leading zeros are worth nothing. */
  lemma {:induction false} ZerosAreWorthless(s: string, base: nat)
    requires Base(base)
    ensures Value(Run(s, base), base) == Value(Run(SkipZeros(s), base), base)
  {
    if s != [] && s[0] == '0' {
      ZerosAreWorthless(s[1..], base);
      ZeroFirst(Run(s[1..], base), base);
    }
  }

  lemma {:induction false} ZeroFirst(r: string, base: nat)
    requires Base(base) && AllDigits(r, base)
    ensures AllDigits(['0'] + r, base) && Value(['0'] + r, base) == Value(r, base)
  {
    var z := ['0'] + r;
    if r == [] {
      assert z[..0] == [];
    } else {
      ZeroFirst(r[..|r| - 1], base);
      assert z[..|z| - 1] == ['0'] + r[..|r| - 1];
    }
  }

  method SkipLeadingZeros(value: string, from: nat) returns (start: nat)
    requires from <= |value|
    ensures from <= start <= |value| && value[start..] == SkipZeros(value[from..])
    ensures CharAt(value, start) != '0'
  {
    start := from;
    while CharAt(value, start) == '0'
      invariant from <= start <= |value| && SkipZeros(value[start..]) == SkipZeros(value[from..])
      decreases |value| - start
    {
      assert value[start..][1..] == value[start + 1..];
      start := start + 1;
    }
  }

  /** One step of a digit loop, in the arithmetic of the type. */
  function Step(result: nat, base: nat, d: nat, size: nat): nat
    requires Size(size)
  {
    (result * base + d) % Modulus(size)
  }

  /** What the digits between two positions are worth in the type. */
  function Wrapped(value: string, start: nat, end: nat, base: nat, size: nat): nat
    requires Size(size) && Base(base) && start <= end <= |value| && AllDigits(value[start..end], base)
  {
    Value(value[start..end], base) % Modulus(size)
  }

  lemma DigitsGrow(value: string, start: nat, end: nat, base: nat)
    requires start <= end < |value| && AllDigits(value[start..end], base) && IsDigit(value[end], base)
    ensures AllDigits(value[start..end + 1], base) && value[start..end + 1] == value[start..end] + [value[end]]
    ensures value[start..end] + Run(value[end..], base) == value[start..end + 1] + Run(value[end + 1..], base)
  {
    assert value[end..][1..] == value[end + 1..];
    assert value[start..end + 1] == value[start..end] + [value[end]];
  }

  lemma ValueGrows(front: string, c: char, base: nat)
    requires Base(base) && AllDigits(front, base) && IsDigit(c, base)
    ensures AllDigits(front + [c], base) && Value(front + [c], base) == Value(front, base) * base + DigitValue(c, base)
  {
    var s := front + [c];
    assert s[..|s| - 1] == front;
  }

  lemma DigitStep(value: string, start: nat, end: nat, base: nat, size: nat)
    requires Base(base) && Size(size) && start <= end < |value| && AllDigits(value[start..end], base) && IsDigit(value[end], base)
    ensures AllDigits(value[start..end + 1], base)
    ensures Wrapped(value, start, end + 1, base, size) == Step(Wrapped(value, start, end, base, size), base, DigitValue(value[end], base), size)
    ensures value[start..end] + Run(value[end..], base) == value[start..end + 1] + Run(value[end + 1..], base)
  {
    DigitsGrow(value, start, end, base);
    ValueGrows(value[start..end], value[end], base);
    WrappedStep(Value(value[start..end], base), base, DigitValue(value[end], base), size);
  }

  /** The two digit loops: the digits are read modulo the type's range. */
  method ReadDigits(value: string, start: nat, base: nat, size: nat) returns (end: nat, result: nat)
    requires Base(base) && Size(size) && start <= |value|
    ensures start <= end <= |value| && value[start..end] == Run(value[start..], base)
    ensures result == Value(Run(value[start..], base), base) % Modulus(size)
  {
    end, result := start, 0;
    assert value[start..start] == [];
    WrapSmall(0, size);
    while IsDigit(CharAt(value, end), base)
      invariant start <= end <= |value| && AllDigits(value[start..end], base)
      invariant Run(value[start..], base) == value[start..end] + Run(value[end..], base)
      invariant result == Wrapped(value, start, end, base, size)
      decreases |value| - end
    {
      DigitStep(value, start, end, base, size);
      result := Step(result, base, DigitValue(value[end], base), size);
      end := end + 1;
    }
  }

  /** The sign and the base. */
  method ReadPrefix(value: string) returns (i: nat, negative: bool, base: nat)
    ensures Base(base) && i <= |value|
    ensures Denoted(value) == var n := Value(Run(value[i..], base), base); if negative then 0 - n else n
  {
    i := SkipWhitespace(value);
    ghost var s := value[i..];
    negative := CharAt(value, i) == '-';
    if CharAt(value, i) == '+' || CharAt(value, i) == '-' {
      i := i + 1;
    }
    ghost var u := value[i..];
    assert u == if Signed(s) then s[1..] else s;
    base := 10;
    if CharAt(value, i) == '0' && (CharAt(value, i + 1) == 'x' || CharAt(value, i + 1) == 'X') {
      base := 16;
      i := i + 2;
    }
    assert base == 16 ==> value[i..] == u[2..];
  }

  lemma WrapSmall(x: nat, size: nat)
    requires Size(size) && x < Modulus(size)
    ensures x % Modulus(size) == x
  {
    if size == 2 {
      assert x % 0x1_0000 == x;
    } else if size == 4 {
      assert x % 0x1_0000_0000 == x;
    } else {
      assert x % 0x1_0000_0000_0000_0000 == x;
    }
  }

  /** Negating twice, and negating by two's complement. */
  lemma WrapNegative(x: nat, size: nat)
    requires Size(size) && x < Modulus(size)
    ensures (0 - x) % Modulus(size) == (Modulus(size) - x) % Modulus(size)
    ensures (Modulus(size) - (Modulus(size) - x) % Modulus(size)) % Modulus(size) == x
    ensures (Modulus(size) - x) % Modulus(size) == if x == 0 then 0 else Modulus(size) - x
  {
    var m := Modulus(size);
    if size == 2 {
      assert (0 - x) % 0x1_0000 == (0x1_0000 - x) % 0x1_0000;
    } else if size == 4 {
      assert (0 - x) % 0x1_0000_0000 == (0x1_0000_0000 - x) % 0x1_0000_0000;
    } else {
      assert (0 - x) % 0x1_0000_0000_0000_0000 == (0x1_0000_0000_0000_0000 - x) % 0x1_0000_0000_0000_0000;
    }
    if x > 0 {
      WrapSmall(m - x, size);
    }
    WrapSmall(x, size);
  }

  /** The last step: two's complement and saturation. */
  method Saturate(negative: bool, overflow: bool, result: nat, size: nat, minv: nat, maxv: nat, ghost n: nat) returns (r: nat)
    requires Size(size) && minv < Modulus(size) && maxv < Modulus(size)
    requires (overflow <==> n >= Modulus(size)) && result == n % Modulus(size)
    ensures r < Modulus(size)
    ensures r == Clamp(if negative then 0 - n else n, 0 - (Modulus(size) - minv) % Modulus(size), maxv) % Modulus(size)
  {
    ghost var limit := (Modulus(size) - minv) % Modulus(size);
    WrapNegative(minv, size);
    WrapNegative(limit, size);
    WrapNegative(result, size);
    WrapSmall(maxv, size);
    if n < Modulus(size) { WrapSmall(n, size); }
    if negative {
      r := if overflow || result > (Modulus(size) - minv) % Modulus(size) then minv
           else (Modulus(size) - result) % Modulus(size);
    } else {
      r := if overflow || result > maxv then maxv else result;
    }
  }

  lemma OverflowExact(digits: string, base: nat, size: nat)
    requires Base(base) && Size(size) && AllDigits(digits, base) && (digits != [] ==> digits[0] != '0')
    ensures Overflow(digits, base, size, Value(digits, base) % Modulus(size)) <==> Value(digits, base) >= Modulus(size)
  {
    if base == 16 { HexOverflow(digits, size); } else { DecimalOverflow(digits, size); }
  }

  /** string_to_integer: whatever the length of the digits, the written integer clamped to the range of
      the type, as that type represents it. */
  method StringToInteger(value: string, size: nat, minv: nat, maxv: nat) returns (r: nat)
    requires Size(size) && minv < Modulus(size) && maxv < Modulus(size)
    ensures r < Modulus(size)
    ensures r == Clamp(Denoted(value), 0 - (Modulus(size) - minv) % Modulus(size), maxv) % Modulus(size)
  {
    var i, negative, base := ReadPrefix(value);
    var start := SkipLeadingZeros(value, i);
    ZerosAreWorthless(value[i..], base);
    var end, result := ReadDigits(value, start, base, size);
    OverflowExact(value[start..end], base, size);
    var overflow := Overflow(value[start..end], base, size, result);
    r := Saturate(negative, overflow, result, size, minv, maxv, Value(value[start..end], base));
  }

  // ---------- printing ----------

  /** What integer_to_string writes: it negates in the arithmetic of the type. */
  function Printed(value: nat, negative: bool, size: nat): string
    requires Size(size) && value < Modulus(size)
  {
    if negative then ['-'] + Decimal((Modulus(size) - value) % Modulus(size)) else Decimal(value)
  }

  lemma {:induction false} DecimalLength(n: nat, k: nat)
    requires k > 0 && n < Pow(10, k)
    ensures |Decimal(n)| <= k
  {
    if n >= 10 {
      assert k > 1;
      DecimalLength(n / 10, k - 1);
    }
  }

  lemma TwentyDigits(n: nat, size: nat)
    requires Size(size) && n < Modulus(size)
    ensures |Decimal(n)| <= 20
  {
    DecimalPowers();
    DecimalLength(n, 20);
  }

  /** The digits still to be written: none once the number is used up. */
  function Ahead(rest: nat): string {
    if rest == 0 then [] else Decimal(rest)
  }

  lemma FirstDigit(n: nat)
    ensures Ahead(n / 10) + [DigitChar(n % 10)] == Decimal(n)
  {
    if n < 10 {
      assert n / 10 == 0 && n % 10 == n;
      assert [] + [DigitChar(n)] == [DigitChar(n)];
    } else {
      assert n / 10 != 0;
    }
  }

  lemma MoreDigits(rest: nat, tail: string, n: nat)
    requires rest != 0 && Ahead(rest) + tail == Decimal(n)
    ensures Ahead(rest / 10) + ([DigitChar(rest % 10)] + tail) == Decimal(n)
    ensures |tail| < |Decimal(n)|
  {
    FirstDigit(rest);
    var front, digit := Ahead(rest / 10), [DigitChar(rest % 10)];
    assert (front + digit) + tail == front + (digit + tail);
    assert |front + digit| > 0;
  }

  /** The digits, from the end of the buffer backwards. */
  method WriteDigits(buf: array<char>, n: nat) returns (result: nat)
    requires buf.Length == 64 && |Decimal(n)| <= 20
    modifies buf
    ensures 42 <= result < 63 && buf[result + 1..] == Decimal(n)
  {
    var rest := n;
    result := 63;
    buf[result] := DigitChar(rest % 10);
    FirstDigit(n);
    assert buf[63..] == [DigitChar(n % 10)];
    result := result - 1;
    rest := rest / 10;
    while rest != 0
      invariant 42 <= result < 63
      invariant Ahead(rest) + buf[result + 1..] == Decimal(n)
      decreases rest
    {
      ghost var tail := buf[result + 1..];
      MoreDigits(rest, tail, n);
      buf[result] := DigitChar(rest % 10);
      assert buf[result..] == [DigitChar(rest % 10)] + tail;
      result := result - 1;
      rest := rest / 10;
    }
    assert [] + buf[result + 1..] == buf[result + 1..];
  }

  /** integer_to_string: the text ends where the buffer does. */
  method IntegerToString(buf: array<char>, value: nat, negative: bool, size: nat) returns (begin: nat)
    requires Size(size) && value < Modulus(size) && buf.Length == 64
    modifies buf
    ensures begin <= buf.Length && buf[begin..] == Printed(value, negative, size)
  {
    var rest: nat := if negative then (Modulus(size) - value) % Modulus(size) else value;
    TwentyDigits(rest, size);
    var result := WriteDigits(buf, rest);
    buf[result] := '-';
    begin := if negative then result else result + 1;
    assert buf[result..] == ['-'] + buf[result + 1..];
  }

  lemma {:induction false} DecimalValue(n: nat)
    ensures Value(Decimal(n), 10) == n
    ensures |Decimal(n)| > 1 ==> Decimal(n)[0] != '0'
  {
    if n < 10 {
      assert Decimal(n)[..0] == [];
    } else {
      DecimalValue(n / 10);
      assert Decimal(n)[..|Decimal(n)| - 1] == Decimal(n / 10);
      if n / 10 < 10 {
        assert Decimal(n)[0] == DigitChar(n / 10);
      }
    }
  }

  lemma {:induction false} RunWhole(s: string, base: nat)
    requires AllDigits(s, base)
    ensures Run(s, base) == s
  {
    if s != [] {
      RunWhole(s[1..], base);
    }
  }

  lemma NoPrefix(t: string)
    requires AllDigits(t, 10) && t != []
    ensures SkipSpaces(t) == t && !Signed(t) && !HexPrefix(t)
  {
    assert IsDigit(t[0], 10);
    assert |t| > 1 ==> IsDigit(t[1], 10);
  }

  /** A printed magnitude denotes what was printed, and a minus sign before it negates that. */
  lemma DenotesPrinted(n: nat)
    ensures Denoted(Decimal(n)) == n && Denoted(['-'] + Decimal(n)) == 0 - n
  {
    var t := Decimal(n);
    DecimalValue(n);
    RunWhole(t, 10);
    NoPrefix(t);
    var s := ['-'] + t;
    assert SkipSpaces(s) == s && s[1..] == t;
  }

  // ---------- what counts as a number ----------

  /** The number of values is what the bytes of the type allow. */
  lemma ModulusIs(size: nat)
    requires Size(size)
    ensures Modulus(size) == Pow(256, size)
  {
    assert Pow(256, 2) == 256 * Pow(256, 1) == 256 * 256;
    assert Pow(256, 4) == 256 * (256 * Pow(256, 2));
    assert Pow(256, 8) == 256 * (256 * (256 * (256 * Pow(256, 4))));
  }

  lemma {:induction false} SpacesSkipped(w: string, t: string)
    requires Blank(w)
    ensures SkipSpaces(w + t) == SkipSpaces(t)
  {
    if w == [] {
      assert w + t == t;
    } else {
      assert (w + t)[1..] == w[1..] + t;
      SpacesSkipped(w[1..], t);
    }
  }

  /** White space in front of a number changes nothing. */
  lemma BlankInFront(w: string, t: string)
    requires Blank(w)
    ensures Denoted(w + t) == Denoted(t)
  {
    SpacesSkipped(w, t);
  }

  lemma {:induction false} RunStops(s: string, rest: string, base: nat)
    requires AllDigits(s, base) && (rest == [] || !IsDigit(rest[0], base))
    ensures Run(s + rest, base) == s
  {
    if s == [] {
      assert s + rest == rest;
    } else {
      assert (s + rest)[1..] == s[1..] + rest;
      RunStops(s[1..], rest, base);
    }
  }

  lemma ValueAppend(front: string, c: char, base: nat, m: nat, d: nat, n: nat)
    requires Base(base) && AllDigits(front, base) && IsDigit(c, base) && Value(front, base) == m && DigitValue(c, base) == d && n == base * m + d
    ensures AllDigits(front + [c], base) && Value(front + [c], base) == n
  {
    ValueGrows(front, c, base);
  }

  lemma {:induction false} NumeralValue(n: nat, alphabet: string)
    requires IsAlphabet(alphabet)
    ensures AllDigits(Numeral(n, alphabet), Radix(alphabet)) && Value(Numeral(n, alphabet), Radix(alphabet)) == n
    decreases n
  {
    if n < Radix(alphabet) {
      DigitsWorth(alphabet, n);
      ValueGrows([], alphabet[n], Radix(alphabet));
      assert [] + [alphabet[n]] == Numeral(n, alphabet);
    } else {
      var m, d := NumeralSplit(n, alphabet);
      NumeralValue(m, alphabet);
      DigitsWorth(alphabet, d);
      ValueAppend(Numeral(m, alphabet), alphabet[d], Radix(alphabet), m, d, n);
    }
  }

  lemma PrefixDenotes(t: string, d: string, n: nat, x: char)
    requires (x == 'x' || x == 'X') && |t| >= 2 && t[0] == '0' && t[1] == x && Run(t[2..], 16) == d && AllDigits(d, 16) && Value(d, 16) == n
    ensures Denoted(t) == n && Denoted(['-'] + t) == 0 - n
  {
    var m := ['-'] + t;
    assert m[1..] == t;
    assert SkipSpaces(t) == t && SkipSpaces(m) == m;
  }

  /** Hexadecimal digits in either case, after 0x or 0X and perhaps a minus sign, denote their number,
      whatever follows that is no such digit. */
  lemma HexDenotes(n: nat, alphabet: string, x: char, rest: string)
    requires (alphabet == LOWER || alphabet == UPPER) && (x == 'x' || x == 'X')
    requires rest == [] || !(rest[0] in LOWER || rest[0] in UPPER)
    ensures var t := ['0', x] + (Numeral(n, alphabet) + rest); Denoted(t) == n && Denoted(['-'] + t) == 0 - n
  {
    Sizes();
    var d := Numeral(n, alphabet);
    var t := ['0', x] + (d + rest);
    if rest != [] { DigitsAre(rest[0]); }
    NumeralValue(n, alphabet);
    RunStops(d, rest, 16);
    assert t[2..] == d + rest;
    PrefixDenotes(t, d, n, x);
  }

  /** The same for decimal digits, without the prefix. */
  lemma DecimalDenotes(n: nat, rest: string)
    requires rest == [] || (rest[0] !in DECIMAL && rest[0] != 'x' && rest[0] != 'X')
    ensures Denoted(Decimal(n) + rest) == n && Denoted(['-'] + (Decimal(n) + rest)) == 0 - n
  {
    var t := Decimal(n) + rest;
    if rest != [] { DigitsAre(rest[0]); }
    DecimalValue(n);
    RunStops(Decimal(n), rest, 10);
    NoSign(Decimal(n), rest);
    var m := ['-'] + t;
    assert SkipSpaces(m) == m && m[1..] == t;
  }

  lemma NoSign(d: string, rest: string)
    requires AllDigits(d, 10) && d != [] && (rest == [] || (rest[0] != 'x' && rest[0] != 'X'))
    ensures var t := d + rest; SkipSpaces(t) == t && !Signed(t) && !HexPrefix(t)
  {
    var t := d + rest;
    assert t[0] == d[0] && IsDigit(d[0], 10);
    if |d| > 1 {
      assert t[1] == d[1] && IsDigit(d[1], 10);
    } else if rest != [] {
      assert t[1] == rest[0];
    }
  }

  /** Every value of a signed or an unsigned type is read back from what is printed for it. */
  lemma ReadsBack(v: int, size: nat, minv: nat, maxv: nat)
    requires Size(size)
    requires (minv == Modulus(size) / 2 && maxv == Modulus(size) / 2 - 1) || (minv == 0 && maxv == Modulus(size) - 1)
    requires 0 - (Modulus(size) - minv) % Modulus(size) <= v <= maxv
    ensures Denoted(Printed(v % Modulus(size), v < 0, size)) == v
    ensures Clamp(v, 0 - (Modulus(size) - minv) % Modulus(size), maxv) % Modulus(size) == v % Modulus(size)
  {
    var m := Modulus(size);
    WrapNegative(minv, size);
    if v < 0 {
      WrapNegative(0 - v, size);
      DenotesPrinted(0 - v);
    } else {
      WrapSmall(v, size);
      DenotesPrinted(v);
    }
  }
}
