/** The parser as it runs: it reads a zero-terminated buffer, closes names and values with a NUL in that
    buffer, and keeps only their positions. What the positions denote at the end is what the parser
    specification says. */
module ParserInPlace {
  import opened Chars
  import opened Wrappers
  import opened Tree
  import opened Strconv
  import opened Printer
  import opened XmlParser
  import G = Gap

  // ---------- strings in the buffer ----------

  /** The zero-terminated string `v` lies at `o`, and ends before `low`. */
  predicate StringAt(buf: string, o: nat, v: string, low: nat) {
    o + |v| < low <= |buf| && buf[o..o + |v|] == v && buf[o + |v|] == '\0'
  }

  /** A node while it is parsed: its strings are positions in the buffer. */
  datatype Slot = Slot(parent: int, kind: Kind, name: Option<nat>, value: Option<nat>, attributes: seq<(nat, nat)>)

  predicate MaybeString(buf: string, o: Option<nat>, v: Option<string>, low: nat) {
    if v.None? then o.None? else o.Some? && StringAt(buf, o.value, v.value, low)
  }

  predicate AttributeAt(buf: string, p: (nat, nat), a: Attr, low: nat) {
    a.name.Some? && StringAt(buf, p.0, a.name.value, low) && StringAt(buf, p.1, a.value, low)
  }

  predicate SlotHolds(buf: string, slot: Slot, x: Item, low: nat) {
    && slot.parent == x.parent && slot.kind == x.kind
    && MaybeString(buf, slot.name, x.name, low) && MaybeString(buf, slot.value, x.value, low)
    && (x.name.Some? ==> '\0' !in x.name.value)
    && |slot.attributes| == |x.attributes|
    && forall k {:trigger x.attributes[k]} :: 0 <= k < |x.attributes| ==> AttributeAt(buf, slot.attributes[k], x.attributes[k], low)
  }

  ghost predicate Held(buf: string, slots: seq<Slot>, items: seq<Item>, low: nat) {
    |slots| == |items| && forall k {:trigger items[k]} :: 0 <= k < |items| ==> SlotHolds(buf, slots[k], items[k], low)
  }

  /** What happens to the buffer further on leaves the strings alone. */
  lemma StringStays(buf: string, now: string, o: nat, v: string, low: nat, later: nat)
    requires StringAt(buf, o, v, low) && |now| == |buf| && low <= later <= |buf| && now[..low] == buf[..low]
    ensures StringAt(now, o, v, later)
  {
    assert now[o..o + |v|] == now[..low][o..o + |v|];
    assert buf[o..o + |v|] == buf[..low][o..o + |v|];
    assert now[o + |v|] == now[..low][o + |v|] == buf[..low][o + |v|];
  }

  lemma SlotStays(buf: string, now: string, slot: Slot, x: Item, low: nat, later: nat)
    requires SlotHolds(buf, slot, x, low) && |now| == |buf| && low <= later <= |buf| && now[..low] == buf[..low]
    ensures SlotHolds(now, slot, x, later)
  {
    if x.name.Some? { StringStays(buf, now, slot.name.value, x.name.value, low, later); }
    if x.value.Some? { StringStays(buf, now, slot.value.value, x.value.value, low, later); }
    forall k | 0 <= k < |x.attributes|
      ensures AttributeAt(now, slot.attributes[k], x.attributes[k], later)
    {
      var a := x.attributes[k];
      StringStays(buf, now, slot.attributes[k].0, a.name.value, low, later);
      StringStays(buf, now, slot.attributes[k].1, a.value, low, later);
    }
  }

  lemma HeldStays(buf: string, now: string, slots: seq<Slot>, items: seq<Item>, low: nat, later: nat)
    requires Held(buf, slots, items, low) && |now| == |buf| && low <= later <= |buf| && now[..low] == buf[..low]
    ensures Held(now, slots, items, later)
  {
    forall k | 0 <= k < |items|
      ensures SlotHolds(now, slots[k], items[k], later)
    {
      SlotStays(buf, now, slots[k], items[k], low, later);
    }
  }

  // ---------- the parser's state ----------

  datatype Mode = InContent | InTag | InAttributes | Finished | Stopped(failure: Outcome)

  class TreeParser {
    const buf: array<char>
    var s: nat
    var cursor: nat
    var slots: seq<Slot>
    var mode: Mode
    /** The buffer as it was, and the nodes with their strings. */
    ghost const text: string
    ghost var items: seq<Item>

    constructor (buf: array<char>)
      requires buf.Length > 0 && buf[buf.Length - 1] == '\0'
      ensures Valid() && this.buf == buf && text == buf[..]
      ensures s == 0 && cursor == 0 && items == [ROOT] && mode == InContent
    {
      this.buf := buf;
      s, cursor, mode := 0, 0, InContent;
      slots, items := [Slot(-1, Document, None, None, [])], [ROOT];
      text := buf[..];
    }

    ghost predicate Valid()
      reads this, buf
    {
      && |text| == buf.Length > 0 && text[|text| - 1] == '\0' && s <= |text| && Cursor(items, cursor)
      && (mode == InTag ==> s > 0)
      && if mode.Stopped? then !mode.failure.Parsed?
         else if mode == Finished then Held(buf[..], slots, items, |text|)
         else Reading()
    }

    /** What lies behind is held; what lies ahead is unread. */
    ghost predicate Reading()
      reads this, buf
      requires s <= |text|
    {
      |text| == buf.Length > 0 && text[|text| - 1] == '\0' && Agree(buf[..], text, s) && Held(buf[..], slots, items, s)
    }

    predicate Running()
      reads this
    {
      mode != Finished && !mode.Stopped?
    }

    /** What the specification makes of the rest. */
    ghost function Rest(): Outcome
      reads this, buf
      requires Valid()
    {
      match mode
      case InContent => Content(text, s, items, cursor)
      case InTag => Tag(text, s, items, cursor)
      case InAttributes => Attributes(text, s, items, cursor)
      case Finished => Finish(items, cursor)
      case Stopped(failure) => failure
    }

    function At(i: nat): char
      reads this, buf
    {
      if i < buf.Length then buf[i] else '\0'
    }

    lemma Reads(i: nat)
      requires s <= |text| && Agree(buf[..], text, s) && s <= i
      ensures At(i) == Peek(text, i)
    {
      AgreeAt(buf[..], text, s, i);
    }

    // ---------- scanning ----------

    method ScanSymbols(from: nat) returns (j: nat)
      requires s <= |text| && Agree(buf[..], text, s) && s <= from <= |text|
      ensures j == SymbolEnd(text, from)
    {
      j := from;
      Reads(j);
      while IsSymbol(At(j))
        invariant from <= j <= |text| && SymbolEnd(text, j) == SymbolEnd(text, from) && At(j) == Peek(text, j)
        decreases |text| - j
      {
        j := j + 1;
        Reads(j);
      }
    }

    method SkipSpaces(from: nat) returns (j: nat)
      requires s <= |text| && Agree(buf[..], text, s) && s <= from <= |text|
      ensures j == SkipWs(text, from)
    {
      j := from;
      Reads(j);
      while IsSpace(At(j))
        invariant from <= j <= |text| && SkipWs(text, j) == SkipWs(text, from) && At(j) == Peek(text, j)
        decreases |text| - j
      {
        j := j + 1;
        Reads(j);
      }
    }

    method ScanForTag(from: nat) returns (j: nat)
      requires s <= |text| && Agree(buf[..], text, s) && s <= from <= |text|
      ensures j == FindTag(text, from)
    {
      j := from;
      Reads(j);
      while At(j) != '\0' && At(j) != '<'
        invariant from <= j <= |text| && FindTag(text, j) == FindTag(text, from) && At(j) == Peek(text, j)
        decreases |text| - j
      {
        j := j + 1;
        Reads(j);
      }
    }

    // ---------- names ----------

    /** PUGI__ENDSEG: the character at `j` gives way to a NUL, and reading goes on after it. */
    method EndSegment(j: nat) returns (ch: char)
      requires s <= j < |text| && Reading()
      modifies buf, this`s
      ensures s == j + 1 && Reading() && ch == Peek(text, j)
      ensures buf[j] == '\0' && buf[..j] == old(buf[..j])
    {
      Reads(j);
      ch := buf[j];
      ghost var was := buf[..];
      buf[j] := '\0';
      assert buf[..] == was[j := '\0'];
      assert buf[..s] == was[..s];
      HeldStays(was, buf[..], slots, items, s, j + 1);
      AgreeAt(was, text, s, j + 1);
      assert buf[j + 1..] == was[j + 1..];
      s := j + 1;
    }

    /** A name from `a` to `j` is closed; it now is a string of its own. */
    method CloseName(a: nat, j: nat) returns (ch: char)
      requires s <= a < |text| && Reading() && j == SymbolEnd(text, a)
      modifies buf, this`s
      ensures s == j + 1 <= |text| && Reading() && ch == Peek(text, j)
      ensures StringAt(buf[..], a, text[a..j], s) && '\0' !in text[a..j]
    {
      NameInText(text, a);
      AgreeAt(buf[..], text, s, a);
      assert buf[a..j] == buf[a..][..j - a] == text[a..][..j - a] == text[a..j];
      ghost var was := buf[..];
      ch := EndSegment(j);
      assert buf[a..j] == buf[..j][a..] == was[..j][a..] == was[a..j];
    }

    /** The comparison of an end tag with the name of the open element. */
    method CompareName(from: nat, o: nat, ghost v: string) returns (same: bool, j: nat)
      requires s <= from <= |text| && Reading() && StringAt(buf[..], o, v, s) && '\0' !in v
      ensures same == (text[from..SymbolEnd(text, from)] == v) && (same ==> j == SymbolEnd(text, from))
    {
      j := from;
      var k := o;
      ghost var end := SymbolEnd(text, from);
      Reads(j);
      while IsSymbol(At(j))
        invariant from <= j <= end <= |text| && SymbolEnd(text, j) == end && At(j) == Peek(text, j)
        invariant o <= k <= o + |v| && k - o == j - from && text[from..j] == v[..k - o]
        decreases |text| - j
      {
        assert k < o + |v| ==> buf[k] == buf[..][o..o + |v|][k - o] == v[k - o];
        assert text[from..end][j - from] == text[j];
        if At(j) != buf[k] {
          return false, j;
        }
        j, k := j + 1, k + 1;
        assert text[from..j] == text[from..j - 1] + [text[j - 1]];
        Reads(j);
      }
      assert k < o + |v| ==> buf[k] == buf[..][o..o + |v|][k - o] == v[k - o];
      same := buf[k] == '\0';
      assert v[..|v|] == v;
    }

    // ---------- parse_tree, one turn at a time ----------

    method Stop(status: Status)
      requires |text| == buf.Length > 0 && text[|text| - 1] == '\0' && s <= |text| && Cursor(items, cursor)
      modifies this`mode
      ensures Valid() && mode == Stopped(Failed(status))
    {
      mode := Stopped(Failed(status));
    }

    /** The end of the buffer. */
    method Close()
      requires |text| == buf.Length > 0 && text[|text| - 1] == '\0' && s <= |text| && Cursor(items, cursor) && Held(buf[..], slots, items, |text|)
      modifies this`mode
      ensures Valid() && mode == Finished
    {
      mode := Finished;
    }

    /** The text from `s` on is converted in place. */
    method ConvertText() returns (next: nat)
      requires s < |text| && Reading()
      modifies buf
      ensures next == TextValue(text, s).next && s <= next <= |text| && next <= buf.Length && Agree(buf[..], text, next)
      ensures Held(buf[..], slots, items, next)
      ensures StringAt(buf[..], s, TextValue(text, s).out, if Peek(text, next) == '\0' then |text| else next)
    {
      ghost var was := buf[..];
      TextAgrees(was, text, s);
      ghost var past;
      next, past := G.ParsePcdata(buf, s);
      Reconverted(was, buf[..], text, s, s, past, next, TextValue(text, s).out, slots, items);
      AgreeAt(was, text, s, next);
    }

    /** A text from `s` on: it is converted in place and becomes a node. */
    method TakeText()
      requires Valid() && mode == InContent && cursor != 0 && s < |text|
      modifies this, buf
      ensures Valid()
      ensures var r := TextValue(text, old(s)); var more := old(items) + [NewText(old(cursor), r.out)];
        items == more && cursor == old(cursor) && old(s) <= s &&
        if Peek(text, r.next) == '\0' then mode == Finished else mode == InTag && s == r.next
    {
      var value := s;
      ghost var x := NewText(cursor, TextValue(text, s).out);
      MoreText(items, cursor, TextValue(text, s).out);
      var next := ConvertText();
      s := next;
      AgreeAt(buf[..], text, s, s);
      ghost var low := if Peek(text, next) == '\0' then |text| else next;
      HeldStays(buf[..], buf[..], slots, items, next, low);
      slots := slots + [Slot(cursor, Pcdata, None, Some(value), [])];
      items := items + [x];
      if At(s) == '\0' {
        mode := Finished;
      } else {
        mode := InTag;
      }
    }

    /** Outside tags. */
    method ContentTurn()
      requires Valid() && mode == InContent
      modifies this, buf
      ensures Valid() && Rest() == old(Rest()) && (Running() ==> s > old(s))
    {
      Reads(s);
      var c := At(s);
      if c == '\0' {
        HeldStays(buf[..], buf[..], slots, items, s, |text|);
        Close();
      } else if c == '<' {
        Advance(s + 1);
        mode := InTag;
      } else {
        var j := SkipSpaces(s);
        Reads(j);
        if At(j) == '<' || At(j) == '\0' {
          Advance(j);
        } else if cursor != 0 {
          TextIs(text, s, items, cursor);
          TakeText();
        } else {
          TopTextTurn(j);
        }
      }
    }

    /** Text at the top of the document is skipped. */
    method TopTextTurn(j: nat)
      requires Valid() && mode == InContent && cursor == 0 && Peek(text, s) != '<' && Peek(text, s) != '\0'
      requires j == SkipWs(text, s) && Peek(text, j) != '<' && Peek(text, j) != '\0'
      modifies this
      ensures Valid() && Rest() == old(Rest()) && (Running() ==> s > old(s))
    {
      var k := ScanForTag(s);
      Reads(k);
      if At(k) == '\0' {
        HeldStays(buf[..], buf[..], slots, items, s, |text|);
        Close();
      } else {
        Advance(k + 1);
        mode := InTag;
      }
    }

    /** Reading goes on at `j`. */
    method Advance(j: nat)
      requires s <= j <= |text| && Reading()
      modifies this`s
      ensures s == j && Reading()
    {
      AgreeAt(buf[..], text, s, j);
      HeldStays(buf[..], buf[..], slots, items, s, j);
      s := j;
    }

    /** The name of a start tag: its element is appended below the cursor. */
    method TakeElement() returns (ch: char, j: nat)
      requires Valid() && mode == InTag && IsStartSymbol(Peek(text, s))
      modifies this, buf
      ensures j == SymbolEnd(text, old(s)) && ch == Peek(text, j) && s == j + 1 <= |text| && Reading() && mode == old(mode)
      ensures items == old(items) + [NewElement(old(cursor), text[old(s)..j])] && cursor == old(|items|)
      ensures Cursor(items, cursor)
    {
      var a := s;
      assert IsSymbol(Peek(text, a));
      j := ScanSymbols(a);
      ch := CloseName(a, j);
      slots := slots + [Slot(cursor, Element, Some(a), None, [])];
      MoreElement(items, cursor, text[a..j]);
      items := items + [NewElement(cursor, text[a..j])];
      cursor := |slots| - 1;
    }

    /** After a `<`: a start tag. */
    method StartTagTurn()
      requires Valid() && mode == InTag && IsStartSymbol(Peek(text, s))
      modifies this, buf
      ensures Valid() && Rest() == old(Rest()) && (Running() ==> s > old(s))
    {
      ghost var from := s;
      var parent := cursor;
      var ch, j := TakeElement();
      if ch == '>' {
        mode := InContent;
      } else if IsSpace(ch) {
        mode := InAttributes;
      } else if ch == '/' {
        Reads(s);
        if At(s) == '>' {
          Advance(s + 1);
          cursor, mode := parent, InContent;
        } else {
          Stop(BadStartElement);
        }
      } else {
        Stop(BadStartElement);
      }
    }

    /** Whether the name from `from` on is that of the open element. */
    method MatchName(from: nat) returns (same: bool, j: nat)
      requires Valid() && mode == InTag && s <= from <= |text|
      ensures same == (items[cursor].name != None && text[from..SymbolEnd(text, from)] == items[cursor].name.value)
      ensures same ==> j == SymbolEnd(text, from)
    {
      assert SlotHolds(buf[..], slots[cursor], items[cursor], s);
      var name := slots[cursor].name;
      if name.None? {
        return false, from;
      }
      same, j := CompareName(from, name.value, items[cursor].name.value);
    }

    /** After `</`. */
    method EndTagTurn()
      requires Valid() && mode == InTag && Peek(text, s) == '/'
      modifies this, buf
      ensures Valid() && Rest() == old(Rest()) && (Running() ==> s > old(s))
    {
      TagEnds(text, s, items, cursor);
      EndTagIs(text, s + 1, items, cursor);
      var same, j := MatchName(s + 1);
      if same {
        PopTurn(j);
      } else {
        Stop(EndElementMismatch);
      }
    }

    /** The rest of an end tag whose name ends at `j`. */
    method PopTurn(j: nat)
      requires Valid() && mode == InTag && s < j <= |text|
      modifies this
      ensures Valid() && s >= old(s)
      ensures items == old(items)
      ensures var k := SkipWs(text, j);
        if Peek(text, k) == '>' then mode == InContent && s == k + 1 && cursor == Pop(old(items), old(cursor))
        else mode == Stopped(Failed(BadEndElement))
    {
      var k := SkipSpaces(j);
      Reads(k);
      if At(k) == '>' {
        Advance(k + 1);
        assert SlotHolds(buf[..], slots[cursor], items[cursor], s);
        cursor := if cursor == 0 then 0 else slots[cursor].parent;
        mode := InContent;
      } else {
        Stop(BadEndElement);
      }
    }

    /** From the end of an attribute's name at `j` to its value: the quote and where the value starts. */
    method FindValue(j: nat, ch: char) returns (ok: bool, quote: char, begin: nat)
      requires j < |text| && s == j + 1 && Reading() && ch == Peek(text, j)
      ensures ok == ValueStart(text, j).Some?
      ensures ok ==> s <= begin <= |text| && (quote == '"' || quote == '\'') && ValueStart(text, j) == Some((quote, begin))
    {
      ok, quote, begin := false, ' ', 0;
      var k, c := j, ch;
      if IsSpace(ch) {
        k := SkipSpaces(s);
        Reads(k);
        c := At(k);
      }
      if c == '=' {
        var q := SkipSpaces(k + 1);
        Reads(q);
        quote, begin := At(q), q + 1;
        ok := quote == '"' || quote == '\'';
      }
    }

    /** The value from `begin` on is converted in place. */
    method ConvertValue(begin: nat, quote: char) returns (ok: bool)
      requires s <= begin <= |text| && Reading() && (quote == '"' || quote == '\'')
      modifies buf, this`s
      ensures ok == AttributeValue(text, begin, quote).Done?
      ensures var r := AttributeValue(text, begin, quote);
        ok ==> s == r.next && s <= |text| && Reading() && StringAt(buf[..], begin, r.out, s) && begin <= s
      ensures ok ==> buf[..begin] == old(buf[..begin])
      ensures !ok ==> s == old(s)
    {
      ghost var was := buf[..];
      AgreeAt(was, text, s, begin);
      AttributeAgrees(was, text, begin, quote);
      var next;
      ghost var past;
      next, past, ok := G.ParseWconv(buf, begin, quote);
      if ok {
        Reconverted(was, buf[..], text, s, begin, past, next, AttributeValue(text, begin, quote).out, slots, items);
        s := next;
      }
    }

    /** The same, which leaves a string further back alone. */
    method ConvertBehind(ghost a: nat, ghost name: string, begin: nat, quote: char) returns (ok: bool)
      requires s <= begin <= |text| && Reading() && (quote == '"' || quote == '\'') && StringAt(buf[..], a, name, s)
      modifies buf, this`s
      ensures ok == AttributeValue(text, begin, quote).Done?
      ensures var r := AttributeValue(text, begin, quote);
        ok ==> s == r.next && old(s) <= s <= |text| && Reading() && StringAt(buf[..], begin, r.out, s) && StringAt(buf[..], a, name, s)
      ensures !ok ==> s == old(s)
    {
      ghost var was, low := buf[..], s;
      ok := ConvertValue(begin, quote);
      if ok {
        assert buf[..low] == buf[..begin][..low] == was[..begin][..low] == was[..low];
        StringStays(was, buf[..], a, name, low, s);
      }
    }

    /** One attribute: its name and its value become strings of the open element. */
    method TakeAttribute() returns (ok: bool)
      requires Valid() && mode == InAttributes && s < |text| && IsStartSymbol(Peek(text, s))
      modifies this`s, this`slots, this`items, buf
      ensures ok == ReadAttribute(text, old(s)).Read? && s >= old(s) && Cursor(items, cursor) && s <= |text|
      ensures var r := ReadAttribute(text, old(s));
        ok ==> s == r.next && items == WithAttribute(old(items), cursor, r.name, r.value) && Reading()
    {
      var a := s;
      assert IsSymbol(Peek(text, a));
      var j := ScanSymbols(a);
      ReadAttributeIs(text, a, j);
      var ch := CloseName(a, j);
      var quote, begin;
      ok, quote, begin := FindValue(j, ch);
      if !ok {
        return;
      }
      ghost var name := text[a..j];
      ok := ConvertBehind(a, name, begin, quote);
      if !ok {
        return;
      }
      AgreeAt(buf[..], text, s, s);
      ok := !IsStartSymbol(At(s));
      if ok {
        KeepAttribute(a, begin, name, AttributeValue(text, begin, quote).out);
      }
    }

    /** The attribute joins the open element. */
    method KeepAttribute(a: nat, begin: nat, ghost name: string, ghost value: string)
      requires s <= |text| && Reading() && Cursor(items, cursor)
      requires StringAt(buf[..], a, name, s) && StringAt(buf[..], begin, value, s)
      modifies this`slots, this`items
      ensures Reading() && items == WithAttribute(old(items), cursor, name, value)
    {
      HeldWith(buf[..], slots, items, cursor, s, a, begin, name, value);
      items := WithAttribute(items, cursor, name, value);
      slots := slots[cursor := slots[cursor].(attributes := slots[cursor].attributes + [(a, begin)])];
    }

    /** The `/` of an element without children. */
    method EmptyTagTurn()
      requires Valid() && mode == InAttributes && Peek(text, s) == '/'
      modifies this
      ensures Valid() && Rest() == old(Rest()) && (Running() ==> s > old(s))
    {
      Reads(s + 1);
      if At(s + 1) == '>' {
        Advance(s + 2);
        assert SlotHolds(buf[..], slots[cursor], items[cursor], s);
        cursor := if cursor == 0 then 0 else slots[cursor].parent;
        mode := InContent;
      } else {
        Stop(BadStartElement);
      }
    }

    /** Inside a start tag. */
    method AttributeTurn()
      requires Valid() && mode == InAttributes
      modifies this, buf
      ensures Valid() && Rest() == old(Rest()) && (Running() ==> s > old(s))
    {
      var t := SkipSpaces(s);
      AttributesIs(text, s, items, cursor);
      Advance(t);
      Reads(s);
      if IsStartSymbol(At(s)) {
        var ok := TakeAttribute();
        if !ok {
          Stop(BadAttribute);
        }
      } else if At(s) == '/' {
        EmptyTagTurn();
      } else if At(s) == '>' {
        Advance(s + 1);
        mode := InContent;
      } else {
        Stop(BadStartElement);
      }
    }

    /** After a `<`. */
    method TagTurn()
      requires Valid() && mode == InTag
      modifies this, buf
      ensures Valid() && Rest() == old(Rest()) && (Running() ==> s > old(s))
    {
      Reads(s);
      var c := At(s);
      if IsStartSymbol(c) {
        StartTagTurn();
      } else if c == '/' {
        EndTagTurn();
      } else if c == '?' || c == '!' {
        mode := Stopped(Beyond);
      } else {
        Stop(UnrecognizedTag);
      }
    }

    /** parse_tree */
    method ParseTree()
      requires Valid()
      modifies this, buf
      ensures Valid() && !Running() && Rest() == old(Rest())
    {
      while Running()
        invariant Valid() && Rest() == old(Rest())
        decreases if Running() then |text| + 1 - s else 0
      {
        match mode
        case InContent => ContentTurn();
        case InTag => TagTurn();
        case InAttributes => AttributeTurn();
      }
    }
  }

  /** A value was converted in place, from `begin` to `past`. */
  lemma Reconverted(was: string, now: string, text: string, s: nat, begin: nat, past: nat, next: nat, value: string,
                    slots: seq<Slot>, items: seq<Item>)
    requires Agree(was, text, s) && Held(was, slots, items, s) && s <= begin && G.Converted(now, was, begin, past, next, value)
    ensures Agree(now, text, next) && Held(now, slots, items, next)
    ensures StringAt(now, begin, value, |text|) && (past < next ==> StringAt(now, begin, value, next))
  {
    AgreeOn(now, was, text, s, next);
    assert now[..s] == now[..begin][..s] == was[..begin][..s] == was[..s];
    HeldStays(was, now, slots, items, s, next);
    assert |now[begin..past]| == past - begin;
  }

  /** Where the value of an attribute starts whose name ends at `j`. */
  function ValueStart(text: string, j: nat): (r: Option<(char, nat)>)
    requires j < |text|
    ensures r.Some? ==> j < r.value.1 <= |text| && (r.value.0 == '"' || r.value.0 == '\'')
  {
    var k := if IsSpace(Peek(text, j)) then SkipWs(text, j + 1) else j;
    if Peek(text, k) != '=' then None
    else
      var q := SkipWs(text, k + 1);
      if Peek(text, q) == '"' || Peek(text, q) == '\'' then Some((Peek(text, q), q + 1)) else None
  }

  /** An attribute, piece by piece. */
  lemma ReadAttributeIs(text: string, a: nat, j: nat)
    requires a < |text| && text[|text| - 1] == '\0' && j == SymbolEnd(text, a) && IsStartSymbol(Peek(text, a))
    ensures j < |text|
    ensures ReadAttribute(text, a) ==
      match ValueStart(text, j) case None => Malformed case Some(p) => Valued(text, text[a..j], AttributeValue(text, p.1, p.0))
  {
    NameInText(text, a);
    BlankEnds(text, j);
  }

  /** What an attribute comes to once its value is read. */
  function Valued(text: string, name: string, r: Conversion): Read {
    if r.Unclosed? || IsStartSymbol(Peek(text, r.next)) then Malformed else Read(name, r.out, r.next)
  }

  lemma BlankEnds(text: string, j: nat)
    requires j < |text|
    ensures IsSpace(Peek(text, j)) ==> SkipWs(text, j) == SkipWs(text, j + 1)
  {
  }

  lemma HeldWith(buf: string, slots: seq<Slot>, items: seq<Item>, cursor: nat, low: nat, a: nat, b: nat, name: string, value: string)
    requires Held(buf, slots, items, low) && Cursor(items, cursor) && StringAt(buf, a, name, low) && StringAt(buf, b, value, low)
    ensures Held(buf, slots[cursor := slots[cursor].(attributes := slots[cursor].attributes + [(a, b)])],
                 WithAttribute(items, cursor, name, value), low)
  {
    assert SlotHolds(buf, slots[cursor], items[cursor], low);
  }

  lemma TagEnds(text: string, s: nat, items: seq<Item>, cursor: nat)
    requires 0 < s <= |text| && Cursor(items, cursor) && Peek(text, s) == '/'
    ensures s < |text| && Tag(text, s, items, cursor) == EndTag(text, s + 1, items, cursor)
  {
  }

  lemma EndTagIs(text: string, i: nat, items: seq<Item>, cursor: nat)
    requires 0 < i <= |text| && Cursor(items, cursor)
    ensures var j := SymbolEnd(text, i); var k := SkipWs(text, j);
      if items[cursor].name == None || text[i..j] != items[cursor].name.value then EndTag(text, i, items, cursor) == Failed(EndElementMismatch)
      else if Peek(text, k) == '>' then k < |text| && EndTag(text, i, items, cursor) == Content(text, k + 1, items, Pop(items, cursor))
      else EndTag(text, i, items, cursor) == Failed(BadEndElement)
  {
  }

  /** What the specification does with a text inside an element. */
  lemma TextIs(text: string, s: nat, items: seq<Item>, cursor: nat)
    requires s <= |text| && Cursor(items, cursor) && cursor != 0 && Peek(text, s) != '<' && Peek(text, s) != '\0'
    requires Peek(text, SkipWs(text, s)) != '<' && Peek(text, SkipWs(text, s)) != '\0'
    ensures s < |text| && s < TextValue(text, s).next
    ensures var r := TextValue(text, s); var more := items + [NewText(cursor, r.out)];
      Cursor(more, cursor) &&
      Content(text, s, items, cursor) == if Peek(text, r.next) == '\0' then Finish(more, cursor) else Tag(text, r.next, more, cursor)
  {
    MoreText(items, cursor, TextValue(text, s).out);
  }

  lemma MoreElement(items: seq<Item>, cursor: nat, name: string)
    requires Cursor(items, cursor)
    ensures Cursor(items + [NewElement(cursor, name)], |items|)
  {
  }

  lemma MoreText(items: seq<Item>, cursor: nat, v: string)
    requires Cursor(items, cursor)
    ensures Cursor(items + [NewText(cursor, v)], cursor)
  {
  }

  lemma AgreeOn(now: string, was: string, text: string, s: nat, next: nat)
    requires Agree(was, text, s) && s <= next <= |text| && |now| == |was| && now[next..] == was[next..]
    ensures Agree(now, text, next)
  {
    AgreeAt(was, text, s, next);
  }

  lemma {:induction false} NameInText(text: string, a: nat)
    requires a < |text| && text[|text| - 1] == '\0'
    ensures SymbolEnd(text, a) < |text| && '\0' !in text[a..SymbolEnd(text, a)]
    decreases |text| - a
  {
    if IsSymbol(Peek(text, a)) {
      NameInText(text, a + 1);
      var j := SymbolEnd(text, a);
      assert text[a..j] == [text[a]] + text[a + 1..j];
    }
  }

  lemma AttributesIs(text: string, i: nat, items: seq<Item>, cursor: nat)
    requires i <= |text| && Cursor(items, cursor)
    ensures Attributes(text, i, items, cursor) == Attributes(text, SkipWs(text, i), items, cursor)
  {
    assert SkipWs(text, SkipWs(text, i)) == SkipWs(text, i);
  }

  // ---------- parse ----------

  datatype Answer = Tree(slots: seq<Slot>) | Error(status: Status) | Unfollowed

  method HasElementSlot(slots: seq<Slot>) returns (r: bool)
    ensures r <==> exists k {:trigger slots[k]} :: 0 <= k < |slots| && slots[k].parent == 0 && slots[k].kind == Element
  {
    var k := 0;
    while k < |slots|
      invariant 0 <= k <= |slots| && forall q {:trigger slots[q]} :: 0 <= q < k ==> !(slots[q].parent == 0 && slots[q].kind == Element)
    {
      if slots[k].parent == 0 && slots[k].kind == Element {
        return true;
      }
      k := k + 1;
    }
    return false;
  }

  lemma SameElements(buf: string, slots: seq<Slot>, items: seq<Item>, low: nat)
    requires Held(buf, slots, items, low)
    ensures HasElement(items) <==> exists k {:trigger slots[k]} :: 0 <= k < |slots| && slots[k].parent == 0 && slots[k].kind == Element
  {
    forall k | 0 <= k < |items|
      ensures slots[k].parent == items[k].parent && slots[k].kind == items[k].kind
    {
      assert SlotHolds(buf, slots[k], items[k], low);
    }
  }

  /** parse, on a zero-terminated buffer: it answers as the specification does, and on success the strings
      its nodes point to, in the buffer as it has become, are those of the specification's nodes. */
  method Parse(buf: array<char>) returns (answer: Answer, ghost items: seq<Item>)
    requires buf.Length > 0 && buf[buf.Length - 1] == '\0'
    modifies buf
    ensures match XmlParser.Parse(old(buf[..]))
      case Parsed(nodes) => answer.Tree? && items == nodes && Held(buf[..], answer.slots, nodes, buf.Length)
      case Failed(status) => answer == Error(status)
      case Beyond => answer == Unfollowed
  {
    var parser := new TreeParser(buf);
    items := [];
    if buf.Length > 3 && buf[0] as nat == 0xEF && buf[1] as nat == 0xBB && buf[2] as nat == 0xBF {
      parser.Advance(3);
    }
    parser.ParseTree();
    match parser.mode
    case Stopped(failure) =>
      answer := match failure case Failed(status) => Error(status) case Beyond => Unfollowed;
    case Finished =>
      items := parser.items;
      SameElements(buf[..], parser.slots, items, buf.Length);
      var found := HasElementSlot(parser.slots);
      if parser.cursor != 0 {
        answer := Error(EndElementMismatch);
      } else if !found {
        answer := Error(NoDocumentElement);
      } else {
        answer := Tree(parser.slots);
      }
  }
}
