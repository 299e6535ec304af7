/** Unescaping in place: a gap moves through the buffer and collects what is dropped, and the parsed
    value closes up behind it. */
module Gap {
  import opened Chars
  import opened Strconv

  function Moved(buf: string, dst: nat, src: nat, n: nat): string
    requires dst <= src && src + n <= |buf|
  {
    buf[..dst] + buf[src..src + n] + buf[dst + n..]
  }

  /** memmove to the left. */
  method MoveDown(buf: array<char>, dst: nat, src: nat, n: nat)
    requires dst <= src && src + n <= buf.Length
    modifies buf
    ensures buf[..] == Moved(old(buf[..]), dst, src, n)
  {
    ghost var was := buf[..];
    var i := 0;
    MovedNone(was, dst, src);
    while i < n
      invariant i <= n && buf[..] == Moved(was, dst, src, i)
    {
      MovedOne(was, dst, src, i);
      assert buf[..][src + i] == buf[src + i];
      buf[dst + i] := buf[src + i];
      i := i + 1;
    }
  }

  lemma MovedNone(was: string, dst: nat, src: nat)
    requires dst <= src <= |was|
    ensures Moved(was, dst, src, 0) == was
  {
  }

  lemma MovedOne(was: string, dst: nat, src: nat, i: nat)
    requires dst <= src && src + i < |was|
    ensures Moved(was, dst, src, i)[src + i] == was[src + i]
    ensures Moved(was, dst, src, i)[dst + i := was[src + i]] == Moved(was, dst, src, i + 1)
  {
    var a, b, c := was[..dst], was[src..src + i], was[dst + i..];
    assert Moved(was, dst, src, i) == a + b + c;
    assert c == [was[dst + i]] + was[dst + i + 1..];
    assert was[src..src + i + 1] == b + [was[src + i]];
  }

  /** The gap: `size` characters before `end` are dropped; -1 if there is none yet. */
  class TextGap {
    var end: int
    var size: nat

    constructor ()
      ensures end == -1 && size == 0
    {
      end, size := -1, 0;
    }

    /** Moves what follows the gap down over it. */
    method Collapse(buf: array<char>, s: nat)
      requires s <= buf.Length && Fits(0, s, end, size)
      modifies buf
      ensures buf[..] == Slid(old(buf[..]), s, end, size)
    {
      if end != -1 {
        MoveDown(buf, end - size, end, s - end);
      }
    }

    /** Collapses the gap there is, and starts the next `count` characters further on. */
    method Push(buf: array<char>, s: nat, count: nat, ghost text: string, ghost begin: nat, ghost done: string) returns (next: nat)
      requires Converting(buf[..], text, begin, s, end, size, done) && s + count <= |text|
      modifies this, buf
      ensures next == s + count && Converting(buf[..], text, begin, next, end, size, done)
    {
      Collapsed(buf[..], text, begin, s, end, size, done, count);
      Collapse(buf, s);
      next := s + count;
      end := next;
      size := size + count;
    }

    /** Collapses the gap: the value now lies in one piece, up to the result. */
    method Flush(buf: array<char>, s: nat, ghost text: string, ghost begin: nat, ghost done: string) returns (past: nat)
      requires Converting(buf[..], text, begin, s, end, size, done)
      modifies buf
      ensures begin <= past <= s && buf[begin..past] == done
      ensures buf[..begin] == text[..begin] && buf[s..] == text[s..]
    {
      Collapsed(buf[..], text, begin, s, end, size, done, 0);
      Collapse(buf, s);
      past := if end != -1 then s - size else s;
    }
  }

  function Slid(buf: string, s: nat, end: int, size: nat): string
    requires s <= |buf| && Fits(0, s, end, size)
  {
    if end == -1 then buf else Moved(buf, end - size, end, s - end)
  }

  predicate Fits(begin: nat, s: nat, end: int, size: nat) {
    if end == -1 then size == 0 else begin + size <= end <= s
  }

  /** What has been put out so far: the buffer from `begin` to `s` without the gap. */
  ghost function Output(buf: string, begin: nat, s: nat, end: int, size: nat): string
    requires begin <= s <= |buf| && Fits(begin, s, end, size)
  {
    if end == -1 then buf[begin..s] else buf[begin..end - size] + buf[end..s]
  }

  /** In the middle of a conversion of `text` from `begin`: up to `s` it is read and `done` put out; from
      there on, and before `begin`, the buffer is as it was. */
  ghost predicate Converting(buf: string, text: string, begin: nat, s: nat, end: int, size: nat, done: string) {
    && |buf| == |text| && begin <= s <= |text| && Fits(begin, s, end, size)
    && Output(buf, begin, s, end, size) == done
    && buf[..begin] == text[..begin] && buf[s..] == text[s..]
  }

  /** After the collapse, all that was put out is in one piece, `size` characters further down. */
  lemma Collapsed(was: string, text: string, begin: nat, s: nat, end: int, size: nat, done: string, count: nat)
    requires Converting(was, text, begin, s, end, size, done) && s + count <= |text|
    ensures var buf := Slid(was, s, end, size);
      && begin <= s - size && buf[begin..s - size] == done && buf[..begin] == text[..begin] && buf[s..] == text[s..]
      && Converting(buf, text, begin, s + count, s + count, size + count, done)
  {
    var buf := Slid(was, s, end, size);
    if end != -1 {
      var head, mid, tail := was[..end - size], was[end..s], was[s - size..];
      assert buf == head + mid + tail;
      assert buf[..begin] == head[..begin] == was[..begin];
      assert buf[s..] == tail[size..] == was[s..];
      assert buf[begin..s - size] == head[begin..] + mid;
    }
    var rest := s + count;
    assert buf[rest..] == buf[s..][count..] == text[s..][count..] == text[rest..];
    assert buf[rest..rest] == [];
  }

  /** A character that stays. */
  lemma Kept(buf: string, text: string, begin: nat, s: nat, end: int, size: nat, done: string)
    requires Converting(buf, text, begin, s, end, size, done) && s < |text|
    ensures Converting(buf, text, begin, s + 1, end, size, done + [text[s]])
  {
    assert buf[s] == buf[s..][0] == text[s..][0] == text[s];
    Put(buf, text, begin, s, end, size, done, text[s]);
    assert buf[s := text[s]] == buf;
  }

  /** A character that is overwritten. */
  lemma Put(buf: string, text: string, begin: nat, s: nat, end: int, size: nat, done: string, c: char)
    requires Converting(buf, text, begin, s, end, size, done) && s < |text|
    ensures Converting(buf[s := c], text, begin, s + 1, end, size, done + [c])
  {
    var t := buf[s := c];
    assert t[..begin] == buf[..begin];
    assert t[s + 1..] == buf[s..][1..] == text[s..][1..] == text[s + 1..];
    if end == -1 {
      assert t[begin..s + 1] == buf[begin..s] + [c];
    } else {
      assert t[begin..end - size] == buf[begin..end - size];
      assert t[end..s + 1] == buf[end..s] + [c];
    }
  }

  // ---------- references, in place ----------

  /** From `s` on the buffer still holds the text. */
  ghost predicate Unread(buf: array<char>, text: string, s: nat)
    reads buf
  {
    buf.Length == |text| && s <= |text| && buf[s..] == text[s..]
  }

  function CharAt(buf: array<char>, i: nat): char
    reads buf
  {
    if i < buf.Length then buf[i] else '\0'
  }

  lemma Reads(buf: array<char>, text: string, s: nat, i: nat)
    requires Unread(buf, text, s) && s <= i
    ensures CharAt(buf, i) == Peek(text, i)
  {
    if i < |text| {
      assert buf[s..][i - s] == text[s..][i - s];
    }
  }

  /** The digits of a character reference. */
  method ReadDigits(buf: array<char>, from: nat, base: nat, ghost text: string, ghost i: nat) returns (closed: bool, code: nat, j: nat)
    requires i < from <= |text| && Unread(buf, text, i)
    ensures from <= j <= |text| && code < 0x1_0000_0000
    ensures CharRef(text, i, from, base, 0) == if closed then Piece(j, Utf8Bytes(code)) else Raw(text, i, j)
    ensures closed ==> from < j
  {
    j, code := from, 0;
    Reads(buf, text, i, j);
    while IsDigit(CharAt(buf, j), base)
      invariant from <= j <= |text| && code < 0x1_0000_0000 && CharAt(buf, j) == Peek(text, j)
      invariant CharRef(text, i, from, base, 0) == CharRef(text, i, j, base, code)
      decreases |text| - j
    {
      code := (base * code + DigitValue(CharAt(buf, j), base)) % 0x1_0000_0000;
      j := j + 1;
      Reads(buf, text, i, j);
    }
    closed := CharAt(buf, j) == ';';
    if closed {
      j := j + 1;
    }
  }

  /** The rest of the name of a reference, as far as it is there. */
  method ReadName(buf: array<char>, from: nat, name: string, ghost text: string, ghost i: nat) returns (k: nat)
    requires i <= from && Unread(buf, text, i)
    ensures k == Follow(text, from, name)
  {
    k := from;
    var q := 0;
    assert name[0..] == name;
    while q < |name| && CharAt(buf, k) == name[q]
      invariant q <= |name| && k == from + q && Follow(text, from, name) == Follow(text, k, name[q..])
    {
      Reads(buf, text, i, k);
      assert name[q..][1..] == name[q + 1..];
      k, q := k + 1, q + 1;
    }
    Reads(buf, text, i, k);
  }

  method ReadNamed(buf: array<char>, s: nat, name: string, c: char, ghost text: string) returns (found: bool, out: string, next: nat)
    requires s < |text| && Unread(buf, text, s) && '\0' !in name && |name| > 0
    ensures s < next <= |text|
    ensures Named(text, s, name, c) == Piece(next, if found then out else text[s..next])
    ensures found ==> |out| == 1 < next - s
  {
    next := ReadName(buf, s + 1, name, text, s);
    found, out := next == s + 1 + |name|, [c];
  }

  /** The decision part of strconv_escape: what the `&` at `s` begins, if it begins a reference. */
  method ReadReference(buf: array<char>, s: nat, ghost text: string) returns (found: bool, out: string, next: nat)
    requires s < |text| && Unread(buf, text, s)
    ensures s < next <= |text|
    ensures Reference(text, s) == Piece(next, if found then out else text[s..next])
    ensures found ==> |out| <= next - s
  {
    Reads(buf, text, s, s + 1);
    Reads(buf, text, s, s + 2);
    Reads(buf, text, s, s + 3);
    found, out := false, [];
    var c, d := CharAt(buf, s + 1), CharAt(buf, s + 2);
    if c == '#' {
      var base := if d == 'x' then 16 else 10;
      next := if d == 'x' then s + 3 else s + 2;
      if CharAt(buf, next) != ';' {
        ghost var from := next;
        var code;
        found, code, next := ReadDigits(buf, next, base, text, s);
        out := Utf8Bytes(code);
      }
    } else if c == 'a' && d == 'm' {
      found, out, next := ReadNamed(buf, s, "amp;", '&', text);
    } else if c == 'a' && d == 'p' {
      found, out, next := ReadNamed(buf, s, "apos;", '\'', text);
    } else if c == 'g' {
      found, out, next := ReadNamed(buf, s, "gt;", '>', text);
    } else if c == 'l' {
      found, out, next := ReadNamed(buf, s, "lt;", '<', text);
    } else if c == 'q' {
      found, out, next := ReadNamed(buf, s, "quot;", '"', text);
    } else {
      next := if c == 'a' then s + 2 else s + 1;
    }
  }

  /** Several characters that stay. */
  lemma {:induction false} KeptAll(buf: string, text: string, begin: nat, s: nat, end: int, size: nat, done: string, next: nat)
    requires Converting(buf, text, begin, s, end, size, done) && s <= next <= |text|
    ensures Converting(buf, text, begin, next, end, size, done + text[s..next])
    decreases next - s
  {
    if s == next {
      assert done + text[s..next] == done;
    } else {
      Kept(buf, text, begin, s, end, size, done);
      KeptAll(buf, text, begin, s + 1, end, size, done + [text[s]], next);
      assert done + [text[s]] + text[s + 1..next] == done + text[s..next];
    }
  }

  /** Characters written over what was read. */
  method Write(buf: array<char>, g: TextGap, s: nat, out: string, ghost text: string, ghost begin: nat, ghost done: string) returns (next: nat)
    requires Converting(buf[..], text, begin, s, g.end, g.size, done) && s + |out| <= |text|
    modifies buf
    ensures next == s + |out| && Converting(buf[..], text, begin, next, g.end, g.size, done + out)
  {
    var k := 0;
    next := s;
    assert done + out[..0] == done;
    while k < |out|
      invariant k <= |out| && next == s + k
      invariant Converting(buf[..], text, begin, next, g.end, g.size, done + out[..k])
    {
      Put(buf[..], text, begin, next, g.end, g.size, done + out[..k], out[k]);
      assert done + out[..k] + [out[k]] == done + out[..k + 1];
      buf[next] := out[k];
      k, next := k + 1, next + 1;
    }
    assert out[..k] == out;
  }

  /** strconv_escape: a reference is overwritten by what it stands for, and the rest of it falls into the gap. */
  method StrconvEscape(buf: array<char>, g: TextGap, s: nat, ghost text: string, ghost begin: nat, ghost done: string) returns (next: nat)
    requires Converting(buf[..], text, begin, s, g.end, g.size, done) && s < |text|
    modifies buf, g
    ensures next == Reference(text, s).next
    ensures Converting(buf[..], text, begin, next, g.end, g.size, done + Reference(text, s).out)
  {
    var found, out;
    found, out, next := ReadReference(buf, s, text);
    if found {
      var past := Write(buf, g, s, out, text, begin, done);
      next := g.Push(buf, past, next - past, text, begin, done + out);
    } else {
      KeptAll(buf[..], text, begin, s, g.end, g.size, done, next);
    }
  }

  // ---------- values, in place ----------

  /** A value from `begin` to `past`, closed by a NUL; from `next` on the buffer is as it was. */
  ghost predicate Converted(buf: string, text: string, begin: nat, past: nat, next: nat, value: string) {
    && |buf| == |text| && begin <= past <= next <= |text| && past < |text|
    && buf[begin..past] == value && buf[past] == '\0'
    && buf[..begin] == text[..begin] && buf[next..] == text[next..]
  }

  /** The NUL after a value. */
  method Terminate(buf: array<char>, g: TextGap, s: nat, next: nat, ghost text: string, ghost begin: nat, ghost done: string) returns (past: nat)
    requires Converting(buf[..], text, begin, s, g.end, g.size, done) && s < |text| && s <= next <= |text|
    requires next == s ==> text[s] == '\0'
    modifies buf
    ensures past <= s && Converted(buf[..], text, begin, past, next, done)
  {
    past := g.Flush(buf, s, text, begin, done);
    ghost var t := buf[..];
    assert t[next..] == t[s..][next - s..] == text[s..][next - s..] == text[next..];
    buf[past] := '\0';
    assert buf[..] == t[past := '\0'];
    assert buf[..begin] == t[..begin];
    assert buf[begin..past] == t[begin..past];
    if past < next {
      assert buf[next..] == t[next..];
    } else {
      assert t[past] == t[s..][0] == text[s..][0];
      assert t[past := '\0'] == t;
    }
  }

  /** White space becomes a blank; LF after CR falls into the gap. */
  method BlankInPlace(buf: array<char>, g: TextGap, s: nat, c: char, ghost text: string, ghost begin: nat, ghost done: string, to: char)
    returns (next: nat)
    requires Converting(buf[..], text, begin, s, g.end, g.size, done) && s < |text| && buf.Length == |text|
    modifies buf, g
    ensures next == (if c == '\r' && Peek(text, s + 1) == '\n' then s + 2 else s + 1)
    ensures Converting(buf[..], text, begin, next, g.end, g.size, done + [to])
  {
    Reads(buf, text, s, s + 1);
    var pair := c == '\r' && CharAt(buf, s + 1) == '\n';
    next := Write(buf, g, s, [to], text, begin, done);
    if pair {
      next := g.Push(buf, next, 1, text, begin, done + [to]);
    }
  }

  /** One turn of the loop of parse_wconv, inside the value. */
  method WconvTurn(buf: array<char>, g: TextGap, s: nat, c: char, quote: char, ghost text: string, ghost begin: nat, ghost done: string)
    returns (next: nat, ghost out: string)
    requires Converting(buf[..], text, begin, s, g.end, g.size, done) && buf.Length == |text|
    requires c == Peek(text, s) != '\0' && c != quote && (quote == '"' || quote == '\'')
    modifies buf, g
    ensures s < next <= |text|
    ensures Converting(buf[..], text, begin, next, g.end, g.size, done + out)
    ensures AttributeValue(text, s, quote) == Prepend(out, AttributeValue(text, next, quote))
  {
    if c == '&' {
      out := Reference(text, s).out;
      next := StrconvEscape(buf, g, s, text, begin, done);
    } else if IsSpace(c) {
      out := " ";
      next := BlankInPlace(buf, g, s, c, text, begin, done, ' ');
    } else {
      out := [c];
      Kept(buf[..], text, begin, s, g.end, g.size, done);
      next := s + 1;
    }
  }

  /** parse_wconv, in place: the same value as out of place, or nothing if it is not closed. */
  method ParseWconv(buf: array<char>, begin: nat, quote: char) returns (next: nat, ghost past: nat, ok: bool)
    requires begin <= buf.Length && (quote == '"' || quote == '\'')
    modifies buf
    ensures var r := AttributeValue(old(buf[..]), begin, quote);
      ok == r.Done? && (ok ==> next == r.next && past < next && Converted(buf[..], old(buf[..]), begin, past, next, r.out))
  {
    ghost var text := buf[..];
    ghost var done := "";
    var g := new TextGap();
    var s := begin;
    past := 0;
    assert buf[begin..begin] == [];
    PrependNothing(AttributeValue(text, begin, quote));
    while true
      invariant Converting(buf[..], text, begin, s, g.end, g.size, done) && buf.Length == |text|
      invariant AttributeValue(text, begin, quote) == Prepend(done, AttributeValue(text, s, quote))
      invariant fresh(g)
      decreases |text| - s
    {
      Reads(buf, text, s, s);
      var c := CharAt(buf, s);
      if c == '\0' {
        return s, 0, false;
      } else if c == quote {
        past := Terminate(buf, g, s, s + 1, text, begin, done);
        return s + 1, past, true;
      }
      ghost var out;
      s, out := WconvTurn(buf, g, s, c, quote, text, begin, done);
      PrependTwice(done, out, AttributeValue(text, s, quote));
      done := done + out;
    }
  }

  /** One turn of the loop of strconv_pcdata, inside the text. */
  method PcdataTurn(buf: array<char>, g: TextGap, s: nat, c: char, ghost text: string, ghost begin: nat, ghost done: string, ghost n: nat)
    returns (next: nat, ghost out: string)
    requires Converting(buf[..], text, begin, s, g.end, g.size, done) && buf.Length == |text|
    requires c == Peek(text, s) != '\0' && c != '<' && s < n < |text| && text[n] == '\0'
    modifies buf, g
    ensures s < next <= n
    ensures Converting(buf[..], text, begin, next, g.end, g.size, done + out)
    ensures TextValue(text, s) == Prepend(out, TextValue(text, next))
  {
    if c == '&' {
      out := Reference(text, s).out;
      ReferenceStops(text, s, n);
      next := StrconvEscape(buf, g, s, text, begin, done);
    } else if c == '\r' {
      out := "\n";
      next := BlankInPlace(buf, g, s, c, text, begin, done, '\n');
    } else {
      out := [c];
      Kept(buf[..], text, begin, s, g.end, g.size, done);
      next := s + 1;
    }
  }

  /** strconv_pcdata with references and line ends converted, in place: the same text as out of place. */
  method ParsePcdata(buf: array<char>, begin: nat) returns (next: nat, ghost past: nat)
    requires begin < buf.Length && buf[buf.Length - 1] == '\0'
    modifies buf
    ensures var r := TextValue(old(buf[..]), begin);
      next == r.next && Converted(buf[..], old(buf[..]), begin, past, next, r.out)
      && next < buf.Length + 1 && past < buf.Length && (past < next || Peek(old(buf[..]), next) == '\0')
  {
    ghost var text := buf[..];
    ghost var done := "";
    var g := new TextGap();
    var s := begin;
    past := 0;
    assert buf[begin..begin] == [];
    PrependNothing(TextValue(text, begin));
    while true
      invariant Converting(buf[..], text, begin, s, g.end, g.size, done) && buf.Length == |text|
      invariant TextValue(text, begin) == Prepend(done, TextValue(text, s))
      invariant fresh(g) && s < |text|
      decreases |text| - s
    {
      Reads(buf, text, s, s);
      var c := CharAt(buf, s);
      if c == '\0' {
        past := Terminate(buf, g, s, s, text, begin, done);
        return s, past;
      } else if c == '<' {
        past := Terminate(buf, g, s, s + 1, text, begin, done);
        return s + 1, past;
      }
      ghost var out;
      s, out := PcdataTurn(buf, g, s, c, text, begin, done, |text| - 1);
      PrependTwice(done, out, TextValue(text, s));
      done := done + out;
    }
  }

  lemma PrependNothing(r: Conversion)
    ensures Prepend("", r) == r
  {
    if r.Done? {
      assert "" + r.out == r.out;
    }
  }

  lemma PrependTwice(a: string, b: string, r: Conversion)
    ensures Prepend(a, Prepend(b, r)) == Prepend(a + b, r)
  {
    if r.Done? {
      Regroup(a, b, r.out);
    }
  }
}
