/** Text and attribute values in a parsed buffer: they are unescaped in place, and escaped again when
    they are printed. A char stands for a byte of UTF-8. */
module Strconv {
  import opened Chars

  /** The character at `i`; a buffer ends in a NUL, and so does the model's text. */
  function Peek(text: string, i: nat): char {
    if i < |text| then text[i] else '\0'
  }

  // ---------- references, out of place ----------

  /** Where reading goes on, and what is put out for what was read. */
  datatype Piece = Piece(next: nat, out: string)

  /** utf8_writer::any, on 32-bit codes. */
  function Utf8Bytes(code: nat): (r: string)
    ensures 1 <= |r| <= 4
    ensures |r| == if code < 0x80 then 1 else if code < 0x800 then 2 else if code < 0x1_0000 then 3 else 4
  {
    if code < 0x80 then [code as char]
    else if code < 0x800 then [(0xC0 + code / 64) as char, (128 + code % 64) as char]
    else if code < 0x1_0000 then [(0xE0 + code / 4096) as char, (128 + code / 64 % 64) as char, (128 + code % 64) as char]
    else [(0xF0 + code / 262144 % 16) as char, (128 + code / 4096 % 64) as char, (128 + code / 64 % 64) as char, (128 + code % 64) as char]
  }

  /** What is no reference stays as it is. */
  function Raw(text: string, i: nat, j: nat): Piece
    requires i <= j
  {
    Piece(j, if j <= |text| then text[i..j] else [])
  }

  /** The digits of a character reference from `j` on, worth `code` so far. */
  function CharRef(text: string, i: nat, j: nat, base: nat, code: nat): (r: Piece)
    requires i < j <= |text|
    ensures j <= r.next <= |text|
    decreases |text| - j
  {
    if IsDigit(Peek(text, j), base) then
      CharRef(text, i, j + 1, base, (base * code + DigitValue(Peek(text, j), base)) % 0x1_0000_0000)
    else if Peek(text, j) == ';' then Piece(j + 1, Utf8Bytes(code))
    else Raw(text, i, j)
  }

  /** The characters `name` follow at `j`, one by one: the first position where they do not. */
  function Follow(text: string, j: nat, name: string): (k: nat)
    ensures j <= k <= j + |name| && (j <= |text| && '\0' !in name ==> k <= |text|)
    ensures k == j + |name| ==> forall q :: 0 <= q < |name| ==> Peek(text, j + q) == name[q]
    decreases |name|
  {
    if name == [] then j
    else if Peek(text, j) == name[0] then Follow(text, j + 1, name[1..])
    else j
  }

  function Named(text: string, i: nat, name: string, c: char): (r: Piece)
    requires i < |text| && '\0' !in name
    ensures i < r.next <= |text|
  {
    var k := Follow(text, i + 1, name);
    if k == i + 1 + |name| then Piece(k, [c]) else Raw(text, i, k)
  }

  /** strconv_escape: what stands for the text from the `&` at `i`. */
  function Reference(text: string, i: nat): (r: Piece)
    requires i < |text|
    ensures i < r.next <= |text|
  {
    var c := Peek(text, i + 1);
    if c == '#' then
      if Peek(text, i + 2) == 'x' then
        if Peek(text, i + 3) == ';' then Raw(text, i, i + 3) else CharRef(text, i, i + 3, 16, 0)
      else
        if Peek(text, i + 2) == ';' then Raw(text, i, i + 2) else CharRef(text, i, i + 2, 10, 0)
    else if c == 'a' then
      if Peek(text, i + 2) == 'm' then Named(text, i, "amp;", '&')
      else if Peek(text, i + 2) == 'p' then Named(text, i, "apos;", '\'')
      else Raw(text, i, i + 2)
    else if c == 'g' then Named(text, i, "gt;", '>')
    else if c == 'l' then Named(text, i, "lt;", '<')
    else if c == 'q' then Named(text, i, "quot;", '"')
    else Raw(text, i, i + 1)
  }

  lemma {:induction false} CharRefStops(text: string, i: nat, j: nat, base: nat, code: nat, n: nat)
    requires i < j <= n < |text| && text[n] == '\0'
    ensures CharRef(text, i, j, base, code).next <= n
    decreases n - j
  {
    if IsDigit(Peek(text, j), base) {
      CharRefStops(text, i, j + 1, base, (base * code + DigitValue(Peek(text, j), base)) % 0x1_0000_0000, n);
    }
  }

  lemma {:induction false} FollowStops(text: string, j: nat, name: string, n: nat)
    requires j <= n < |text| && text[n] == '\0' && '\0' !in name
    ensures Follow(text, j, name) <= n
    decreases |name|
  {
    if name != [] && Peek(text, j) == name[0] {
      FollowStops(text, j + 1, name[1..], n);
    }
  }

  /** No reference reaches past the end of the text. */
  lemma ReferenceStops(text: string, i: nat, n: nat)
    requires i < n < |text| && text[n] == '\0'
    ensures Reference(text, i).next <= n
  {
    if Peek(text, i + 1) == '#' {
      if Peek(text, i + 2) == 'x' && Peek(text, i + 3) != ';' {
        CharRefStops(text, i, i + 3, 16, 0, n);
      } else if Peek(text, i + 2) != 'x' && Peek(text, i + 2) != ';' {
        CharRefStops(text, i, i + 2, 10, 0, n);
      }
    } else {
      FollowStops(text, i + 1, "amp;", n);
      FollowStops(text, i + 1, "apos;", n);
      FollowStops(text, i + 1, "gt;", n);
      FollowStops(text, i + 1, "lt;", n);
      FollowStops(text, i + 1, "quot;", n);
    }
  }

  // ---------- conversions, out of place ----------

  /** The converted text and where the rest begins, or nothing if the text is not closed. */
  datatype Conversion = Done(next: nat, out: string) | Unclosed

  function Prepend(out: string, r: Conversion): Conversion {
    if r.Done? then Done(r.next, out + r.out) else r
  }

  /** parse_wconv: an attribute value from `i` up to its quote. White space becomes blanks. */
  function AttributeValue(text: string, i: nat, quote: char): (r: Conversion)
    requires quote == '"' || quote == '\''
    ensures r.Done? ==> i < r.next <= |text|
    decreases |text| - i
  {
    var c := Peek(text, i);
    if c == '\0' then Unclosed
    else if c == quote then Done(i + 1, [])
    else if c == '&' then
      var p := Reference(text, i);
      Prepend(p.out, AttributeValue(text, p.next, quote))
    else if IsSpace(c) then
      Prepend(" ", AttributeValue(text, if c == '\r' && Peek(text, i + 1) == '\n' then i + 2 else i + 1, quote))
    else Prepend([c], AttributeValue(text, i + 1, quote))
  }

  /** strconv_pcdata with references and line ends converted: text up to the next tag, whose `<` is read
      too, or to the end. */
  function TextValue(text: string, i: nat): (r: Conversion)
    requires i <= |text|
    ensures r.Done? && i <= r.next <= |text|
    decreases |text| - i
  {
    var c := Peek(text, i);
    if c == '\0' then Done(i, [])
    else if c == '<' then Done(i + 1, [])
    else if c == '&' then
      var p := Reference(text, i);
      Prepend(p.out, TextValue(text, p.next))
    else if c == '\r' then Prepend("\n", TextValue(text, if Peek(text, i + 1) == '\n' then i + 2 else i + 1))
    else Prepend([c], TextValue(text, i + 1))
  }

  // ---------- escaping ----------

  /** ctx_special_attr and ctx_special_pcdata */
  predicate Special(c: char, attribute: bool) {
    if attribute then (c < ' ' && c != '\t') || c == '&' || c == '<' || c == '>' || c == '"'
    else (c < ' ' && c != '\t' && c != '\n' && c != '\r') || c == '&' || c == '<' || c == '>'
  }

  function EscapedChar(c: char, attribute: bool): (r: string)
    ensures r != []
  {
    if !Special(c, attribute) then [c]
    else if c == '&' then "&amp;"
    else if c == '<' then "&lt;"
    else if c == '>' then "&gt;"
    else if c == '"' then "&quot;"
    else ['&', '#', DigitChar(c as nat / 10), DigitChar(c as nat % 10), ';']
  }

  function Escaped(s: string, attribute: bool): string {
    if s == [] then [] else EscapedChar(s[0], attribute) + Escaped(s[1..], attribute)
  }

  /** `out` is what has to be printed for `s` up to `i`. */
  ghost predicate Printed(out: string, s: string, i: nat, attribute: bool)
    requires i <= |s|
  {
    out + Escaped(s[i..], attribute) == Escaped(s, attribute)
  }

  lemma PrintedStep(out: string, s: string, i: nat, attribute: bool)
    requires i < |s| && Printed(out, s, i, attribute)
    ensures Printed(out + EscapedChar(s[i], attribute), s, i + 1, attribute)
  {
    assert s[i..][1..] == s[i + 1..];
    Regroup(out, EscapedChar(s[i], attribute), Escaped(s[i + 1..], attribute));
  }

  lemma Regroup(x: string, y: string, z: string)
    ensures x + (y + z) == (x + y) + z
  {
  }

  /** A special character. */
  method OutputSpecial(c: char, attribute: bool) returns (out: string)
    requires Special(c, attribute)
    ensures out == EscapedChar(c, attribute)
  {
    if c == '&' {
      out := "&amp;";
    } else if c == '<' {
      out := "&lt;";
    } else if c == '>' {
      out := "&gt;";
    } else if c == '"' {
      out := "&quot;";
    } else {
      out := ['&', '#', DigitChar(c as nat / 10), DigitChar(c as nat % 10), ';'];
    }
  }

  /** A run of ordinary characters goes out as it is. */
  lemma {:induction false} PrintedRun(out: string, s: string, i: nat, j: nat, attribute: bool)
    requires i <= j <= |s| && Printed(out, s, i, attribute)
    requires forall k :: i <= k < j ==> !Special(s[k], attribute)
    ensures Printed(out + s[i..j], s, j, attribute)
    decreases j - i
  {
    if i == j {
      assert out + s[i..j] == out;
    } else {
      PrintedStep(out, s, i, attribute);
      PrintedRun(out + [s[i]], s, i + 1, j, attribute);
      Regroup(out, [s[i]], s[i + 1..j]);
      assert [s[i]] + s[i + 1..j] == s[i..j];
    }
  }

  /** text_output_escaped */
  method TextOutputEscaped(s: string, attribute: bool) returns (out: string)
    requires '\0' !in s
    ensures out == Escaped(s, attribute)
  {
    out := [];
    var i := 0;
    assert s[0..] == s && [] + Escaped(s, attribute) == Escaped(s, attribute);
    while i < |s|
      invariant 0 <= i <= |s| && Printed(out, s, i, attribute)
    {
      var prev := i;
      while i < |s| && !Special(s[i], attribute)
        invariant prev <= i <= |s| && forall k :: prev <= k < i ==> !Special(s[k], attribute)
      {
        i := i + 1;
      }
      PrintedRun(out, s, prev, i, attribute);
      out := out + s[prev..i];
      if i < |s| {
        PrintedStep(out, s, i, attribute);
        var escaped := OutputSpecial(s[i], attribute);
        out := out + escaped;
        i := i + 1;
      }
    }
    assert s[i..] == [] && out + [] == out;
  }

  // ---------- escaping and unescaping ----------

  /** `e` stands in `text` at `i`. */
  predicate Stands(text: string, i: nat, e: string) {
    i + |e| <= |text| && text[i..i + |e|] == e
  }

  lemma StandsAt(text: string, i: nat, e: string, k: nat)
    requires Stands(text, i, e) && k < |e|
    ensures Peek(text, i + k) == e[k]
  {
    assert text[i..i + |e|][k] == text[i + k];
  }

  /** What an escaped special character is read back as, in the middle of any text. */
  lemma ReferenceBack(c: char, attribute: bool, text: string, i: nat)
    requires Special(c, attribute) && c != '\0' && Stands(text, i, EscapedChar(c, attribute))
    ensures Peek(text, i) == '&' && Reference(text, i) == Piece(i + |EscapedChar(c, attribute)|, [c])
  {
    var e := EscapedChar(c, attribute);
    StandsAt(text, i, e, 0);
    StandsAt(text, i, e, 1);
    StandsAt(text, i, e, 2);
    StandsAt(text, i, e, 3);
    if c == '&' {
      NamedBack(text, i, e, "amp;");
    } else if c == '<' {
      NamedBack(text, i, e, "lt;");
    } else if c == '>' {
      NamedBack(text, i, e, "gt;");
    } else if c == '"' {
      NamedBack(text, i, e, "quot;");
    } else {
      StandsAt(text, i, e, 4);
      DecimalBack(c as nat, text, i);
    }
  }

  lemma NamedBack(text: string, i: nat, e: string, name: string)
    requires Stands(text, i, e) && e == ['&'] + name
    ensures Follow(text, i + 1, name) == i + 1 + |name|
  {
    StandsSplit(text, i, ['&'], name);
    StandsThrough(text, i + 1, name);
  }

  lemma StandsThrough(text: string, j: nat, name: string)
    requires Stands(text, j, name)
    ensures Follow(text, j, name) == j + |name|
  {
    forall q | 0 <= q < |name|
      ensures Peek(text, j + q) == name[q]
    {
      StandsAt(text, j, name, q);
    }
    FollowsThrough(text, j, name);
  }

  lemma {:induction false} FollowsThrough(text: string, j: nat, name: string)
    requires forall q :: 0 <= q < |name| ==> Peek(text, j + q) == name[q]
    ensures Follow(text, j, name) == j + |name|
    decreases |name|
  {
    if name != [] {
      FollowsThrough(text, j + 1, name[1..]);
    }
  }

  lemma DecimalBack(n: nat, text: string, i: nat)
    requires 0 < n < 32 && i + 5 <= |text|
    requires Peek(text, i + 1) == '#' && Peek(text, i + 2) == DigitChar(n / 10) && Peek(text, i + 3) == DigitChar(n % 10) && Peek(text, i + 4) == ';'
    ensures Reference(text, i) == Piece(i + 5, [n as char])
  {
    var d, e := n / 10, n % 10;
    assert DigitValue(DigitChar(d), 10) == d && DigitValue(DigitChar(e), 10) == e;
    assert CharRef(text, i, i + 4, 10, n) == Piece(i + 5, Utf8Bytes(n));
    assert CharRef(text, i, i + 3, 10, d) == CharRef(text, i, i + 4, 10, n);
    assert CharRef(text, i, i + 2, 10, 0) == CharRef(text, i, i + 3, 10, d);
  }

  lemma StandsSplit(text: string, i: nat, a: string, b: string)
    requires Stands(text, i, a + b)
    ensures Stands(text, i, a) && Stands(text, i + |a|, b)
  {
    var t := text[i..i + |a + b|];
    assert text[i..i + |a|] == t[..|a|] == a;
    assert text[i + |a|..i + |a| + |b|] == t[|a|..] == b;
  }

  /** Tabs are the one thing attribute values lose. */
  function Blanks(v: string): (r: string)
    ensures |r| == |v| && (r == v <==> '\t' !in v)
  {
    if v == [] then []
    else
      assert v == [v[0]] + v[1..];
      [if v[0] == '\t' then ' ' else v[0]] + Blanks(v[1..])
  }

  /** One escaped character of an attribute value. */
  lemma AttributeStep(c: char, text: string, i: nat)
    requires c != '\0' && Stands(text, i, EscapedChar(c, true))
    ensures AttributeValue(text, i, '"') ==
      Prepend([if c == '\t' then ' ' else c], AttributeValue(text, i + |EscapedChar(c, true)|, '"'))
  {
    if Special(c, true) {
      ReferenceBack(c, true, text, i);
    } else {
      StandsAt(text, i, [c], 0);
    }
  }

  /** Unescaping undoes escaping: an attribute value, escaped and closed by its quote, is read back with
      blanks for tabs, so exactly when it holds no tab. */
  lemma {:induction false} AttributeBack(v: string, text: string, i: nat)
    requires '\0' !in v && Stands(text, i, Escaped(v, true)) && Peek(text, i + |Escaped(v, true)|) == '"'
    ensures AttributeValue(text, i, '"') == Done(i + |Escaped(v, true)| + 1, Blanks(v))
    decreases |v|
  {
    if v != [] {
      var e := EscapedChar(v[0], true);
      StandsSplit(text, i, e, Escaped(v[1..], true));
      AttributeBack(v[1..], text, i + |e|);
      AttributeStep(v[0], text, i);
    }
  }

  /** Line ends are the one thing texts lose: CR LF and CR become LF. */
  function LineEnds(v: string): string {
    if v == [] then []
    else if v[0] == '\r' then ['\n'] + LineEnds(v[if |v| > 1 && v[1] == '\n' then 2 else 1..])
    else [v[0]] + LineEnds(v[1..])
  }

  lemma {:induction false} LineEndsKeep(v: string)
    ensures |LineEnds(v)| <= |v| && (LineEnds(v) == v <==> '\r' !in v)
    decreases |v|
  {
    if v != [] {
      assert v == [v[0]] + v[1..];
      LineEndsKeep(v[if v[0] == '\r' && |v| > 1 && v[1] == '\n' then 2 else 1..]);
    }
  }

  /** One escaped character of a text, CR and what follows it apart. */
  lemma TextStep(c: char, e: string, text: string, i: nat, j: nat)
    requires c != '\0' && c != '\r' && e == EscapedChar(c, false) && Stands(text, i, e) && j == i + |e|
    ensures TextValue(text, i) == Prepend([c], TextValue(text, j))
  {
    if Special(c, false) {
      ReferenceBack(c, false, text, i);
    } else {
      StandsAt(text, i, [c], 0);
    }
  }

  /** How many characters are read as one: two for CR LF. */
  function Taken(v: string): (n: nat)
    requires v != []
    ensures 1 <= n <= |v|
  {
    if v[0] == '\r' && |v| > 1 && v[1] == '\n' then 2 else 1
  }

  lemma CarriageReturn(v: string, text: string, i: nat)
    requires v != [] && v[0] == '\r' && Stands(text, i, Escaped(v, false)) && Peek(text, i + |Escaped(v, false)|) == '<'
    ensures var n := Taken(v); var rest := Escaped(v[n..], false);
      && Stands(text, i + n, rest) && i + n + |rest| == i + |Escaped(v, false)|
      && TextValue(text, i) == Prepend("\n", TextValue(text, i + n))
  {
    var w := v[1..];
    StandsSplit(text, i, [v[0]], Escaped(w, false));
    StandsAt(text, i, [v[0]], 0);
    if Taken(v) == 2 {
      assert w[1..] == v[2..];
      StandsSplit(text, i + 1, [w[0]], Escaped(w[1..], false));
      StandsAt(text, i + 1, [w[0]], 0);
    } else {
      NoLineFeed(w, text, i + 1);
    }
  }

  /** The front of an escaped text: the character it is read as, and where the rest begins. */
  lemma TextNext(v: string, text: string, i: nat, end: nat) returns (n: nat, j: nat, c: char)
    requires v != [] && '\0' !in v && Stands(text, i, Escaped(v, false)) && end == i + |Escaped(v, false)| && Peek(text, end) == '<'
    ensures 1 <= n <= |v| && Stands(text, j, Escaped(v[n..], false)) && end == j + |Escaped(v[n..], false)|
    ensures TextValue(text, i) == Prepend([c], TextValue(text, j)) && LineEnds(v) == [c] + LineEnds(v[n..])
  {
    n := Taken(v);
    if v[0] == '\r' {
      CarriageReturn(v, text, i);
      j, c := i + n, '\n';
    } else {
      j, c := i + |EscapedChar(v[0], false)|, v[0];
      EscapedParts(v, v[1..]);
      PlainNext(c, EscapedChar(c, false), Escaped(v[1..], false), Escaped(v, false), text, i, j);
    }
  }

  lemma PlainNext(c: char, e: string, rest: string, all: string, text: string, i: nat, j: nat)
    requires c != '\0' && c != '\r' && e == EscapedChar(c, false) && all == e + rest && Stands(text, i, all) && j == i + |e|
    ensures Stands(text, j, rest) && j + |rest| == i + |all| && TextValue(text, i) == Prepend([c], TextValue(text, j))
  {
    FrontStands(text, i, e, rest, all, j);
    TextStep(c, e, text, i, j);
  }

  lemma EscapedParts(v: string, w: string)
    requires v != [] && w == v[1..]
    ensures Escaped(v, false) == EscapedChar(v[0], false) + Escaped(w, false)
  {
  }

  lemma FrontStands(text: string, i: nat, front: string, rest: string, all: string, j: nat)
    requires Stands(text, i, all) && all == front + rest && j == i + |front|
    ensures Stands(text, i, front) && Stands(text, j, rest) && j + |rest| == i + |all|
  {
    StandsSplit(text, i, front, rest);
  }

  /** A text, escaped and followed by a tag, is read back with its line ends converted, so exactly when
      it holds no CR. */
  lemma {:induction false} TextBack(v: string, text: string, i: nat, end: nat)
    requires '\0' !in v && Stands(text, i, Escaped(v, false)) && end == i + |Escaped(v, false)| && Peek(text, end) == '<'
    ensures TextValue(text, i) == Done(end + 1, LineEnds(v))
    decreases |v|
  {
    if v != [] {
      var n, j, c := TextNext(v, text, i, end);
      TextBack(v[n..], text, j, end);
    }
  }

  /** A text that does not begin with LF does not do so when it is escaped. */
  lemma NoLineFeed(w: string, text: string, i: nat)
    requires Stands(text, i, Escaped(w, false)) && Peek(text, i + |Escaped(w, false)|) == '<' && (w != [] ==> w[0] != '\n')
    ensures Peek(text, i) != '\n'
  {
    if w != [] {
      assert EscapedChar(w[0], false)[0] != '\n';
      StandsAt(text, i, Escaped(w, false), 0);
    }
  }

  // ---------- only what lies ahead matters ----------

  /** Two texts that agree from `i` on. */
  predicate Agree(a: string, b: string, i: nat) {
    |a| == |b| && i <= |a| && a[i..] == b[i..]
  }

  lemma AgreeAt(a: string, b: string, i: nat, k: nat)
    requires Agree(a, b, i) && i <= k
    ensures Peek(a, k) == Peek(b, k) && (k <= |a| ==> Agree(a, b, k))
  {
    if k < |a| {
      assert a[i..][k - i] == b[i..][k - i];
    }
    if k <= |a| {
      assert a[k..] == a[i..][k - i..] == b[i..][k - i..] == b[k..];
    }
  }

  lemma RawAgrees(a: string, b: string, i: nat, j: nat)
    requires Agree(a, b, i) && i <= j
    ensures Raw(a, i, j) == Raw(b, i, j)
  {
    if j <= |a| {
      assert a[i..j] == a[i..][..j - i] == b[i..][..j - i] == b[i..j];
    }
  }

  lemma {:induction false} CharRefAgrees(a: string, b: string, i: nat, j: nat, base: nat, code: nat)
    requires Agree(a, b, i) && i < j <= |a|
    ensures CharRef(a, i, j, base, code) == CharRef(b, i, j, base, code)
    decreases |a| - j
  {
    AgreeAt(a, b, i, j);
    RawAgrees(a, b, i, j);
    if IsDigit(Peek(a, j), base) {
      CharRefAgrees(a, b, i, j + 1, base, (base * code + DigitValue(Peek(a, j), base)) % 0x1_0000_0000);
    }
  }

  lemma {:induction false} FollowAgrees(a: string, b: string, i: nat, j: nat, name: string)
    requires Agree(a, b, i) && i <= j
    ensures Follow(a, j, name) == Follow(b, j, name)
    decreases |name|
  {
    AgreeAt(a, b, i, j);
    if name != [] {
      FollowAgrees(a, b, i, j + 1, name[1..]);
    }
  }

  lemma NamedAgrees(a: string, b: string, i: nat, name: string, c: char)
    requires Agree(a, b, i) && i < |a| && '\0' !in name
    ensures Named(a, i, name, c) == Named(b, i, name, c)
  {
    FollowAgrees(a, b, i, i + 1, name);
    RawAgrees(a, b, i, Follow(a, i + 1, name));
  }

  lemma ReferenceAgrees(a: string, b: string, i: nat)
    requires Agree(a, b, i) && i < |a|
    ensures Reference(a, i) == Reference(b, i)
  {
    AgreeAt(a, b, i, i + 1);
    AgreeAt(a, b, i, i + 2);
    AgreeAt(a, b, i, i + 3);
    RawAgrees(a, b, i, i + 1);
    RawAgrees(a, b, i, i + 2);
    RawAgrees(a, b, i, i + 3);
    if Peek(a, i + 1) == '#' {
      if Peek(a, i + 2) == 'x' {
        if Peek(a, i + 3) != ';' { CharRefAgrees(a, b, i, i + 3, 16, 0); }
      } else if Peek(a, i + 2) != ';' {
        CharRefAgrees(a, b, i, i + 2, 10, 0);
      }
    } else if Peek(a, i + 1) == 'a' {
      NamedAgrees(a, b, i, "amp;", '&');
      NamedAgrees(a, b, i, "apos;", '\'');
    } else if Peek(a, i + 1) == 'g' {
      NamedAgrees(a, b, i, "gt;", '>');
    } else if Peek(a, i + 1) == 'l' {
      NamedAgrees(a, b, i, "lt;", '<');
    } else {
      NamedAgrees(a, b, i, "quot;", '"');
    }
  }

  lemma {:induction false} AttributeAgrees(a: string, b: string, i: nat, quote: char)
    requires Agree(a, b, i) && (quote == '"' || quote == '\'')
    ensures AttributeValue(a, i, quote) == AttributeValue(b, i, quote)
    decreases |a| - i
  {
    AgreeAt(a, b, i, i);
    AgreeAt(a, b, i, i + 1);
    var c := Peek(a, i);
    if c != '\0' && c != quote {
      if c == '&' {
        ReferenceAgrees(a, b, i);
        AgreeAt(a, b, i, Reference(a, i).next);
        AttributeAgrees(a, b, Reference(a, i).next, quote);
      } else if c == '\r' && Peek(a, i + 1) == '\n' {
        AgreeAt(a, b, i, i + 2);
        AttributeAgrees(a, b, i + 2, quote);
      } else {
        AttributeAgrees(a, b, i + 1, quote);
      }
    }
  }

  lemma {:induction false} TextAgrees(a: string, b: string, i: nat)
    requires Agree(a, b, i)
    ensures TextValue(a, i) == TextValue(b, i)
    decreases |a| - i
  {
    AgreeAt(a, b, i, i);
    AgreeAt(a, b, i, i + 1);
    var c := Peek(a, i);
    if c != '\0' && c != '<' {
      if c == '&' {
        ReferenceAgrees(a, b, i);
        AgreeAt(a, b, i, Reference(a, i).next);
        TextAgrees(a, b, Reference(a, i).next);
      } else if c == '\r' && Peek(a, i + 1) == '\n' {
        AgreeAt(a, b, i, i + 2);
        TextAgrees(a, b, i + 2);
      } else {
        TextAgrees(a, b, i + 1);
      }
    }
  }

  // ---------- what is printed ----------

  predicate CleanChar(c: char, attribute: bool) {
    && c != '<' && c != '>' && (attribute ==> c != '"')
    && (c as nat < 32 ==> c == '\t' || (!attribute && (c == '\n' || c == '\r')))
  }

  predicate CleanText(e: string, attribute: bool) {
    forall k :: 0 <= k < |e| ==> CleanChar(e[k], attribute)
  }

  /** Printed text holds no `<` or `>`, printed values no quote either, and neither holds control characters other
      than tabs and, in text, line ends. */
  lemma {:induction false} EscapedClean(s: string, attribute: bool)
    ensures CleanText(Escaped(s, attribute), attribute)
  {
    if s != [] {
      EscapedClean(s[1..], attribute);
      CharClean(s[0], attribute);
    }
  }

  lemma CharClean(c: char, attribute: bool)
    ensures CleanText(EscapedChar(c, attribute), attribute)
  {
    if Special(c, attribute) && c < ' ' {
      assert '0' <= DigitChar(c as nat / 10) <= '9' && '0' <= DigitChar(c as nat % 10) <= '9';
    }
  }

  /** What needs no reference is printed as it is. */
  lemma {:induction false} EscapedPlainly(s: string, attribute: bool)
    requires forall k :: 0 <= k < |s| ==> s[k] as nat >= 32 && s[k] != '&' && s[k] != '<' && s[k] != '>' && s[k] != '"'
    ensures Escaped(s, attribute) == s
  {
    if s != [] {
      EscapedPlainly(s[1..], attribute);
      assert s == [s[0]] + s[1..];
    }
  }
}
