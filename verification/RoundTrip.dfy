/** What is printed in raw format parses back to the same document. */
module RoundTrip {
  import opened Chars
  import opened Wrappers
  import opened Tree
  import opened Strconv
  import opened Printer
  import opened XmlParser

  // ---------- the documents ----------

  predicate LegalName(n: string) {
    n != [] && IsStartSymbol(n[0]) && forall k :: 0 <= k < |n| ==> IsSymbol(n[k])
  }

  predicate LegalAttribute(a: Attr) {
    a.name.Some? && LegalName(a.name.value) && '\0' !in a.value && '\t' !in a.value
  }

  /** Elements with legal names and attribute values without tab or NUL; non-blank texts without CR or NUL. */
  predicate LegalItem(x: Item) {
    if x.kind == Element then x.name.Some? && LegalName(x.name.value) && x.value == None && forall a <- x.attributes :: LegalAttribute(a)
    else x.kind == Pcdata && x.name == None && x.attributes == [] && x.value.Some? &&
         '\0' !in x.value.value && '\r' !in x.value.value && !Blank(x.value.value)
  }

  ghost predicate Legal(s: Shape, items: seq<Item>) {
    && IsDocument(s, items) && |items| > 1 && items[0] == ROOT
    && (forall i {:trigger LegalItem(items[i])} :: 1 <= i < |items| ==> LegalItem(items[i]))
    && (forall i {:trigger InPlace(s, items, i)} :: 1 <= i < |items| ==> InPlace(s, items, i))
  }

  /** Texts stand inside elements, and no two of them side by side. */
  ghost predicate InPlace(s: Shape, items: seq<Item>, i: int)
    requires IsDocument(s, items) && 1 <= i < |items|
  {
    && items[s.par[i]].kind != Pcdata
    && (items[i].kind == Pcdata ==> s.par[i] > 0 && (s.prev[i] != -1 ==> items[s.prev[i]].kind != Pcdata))
  }

  // ---------- names and tags ----------

  lemma {:induction false} NameEnds(text: string, i: nat, name: string)
    requires Stands(text, i, name) && !IsSymbol(Peek(text, i + |name|))
    requires forall k :: 0 <= k < |name| ==> IsSymbol(name[k])
    ensures SymbolEnd(text, i) == i + |name|
    decreases |name|
  {
    if name != [] {
      StandsAt(text, i, name, 0);
      assert name == [name[0]] + name[1..];
      StandsSplit(text, i, [name[0]], name[1..]);
      NameEnds(text, i + 1, name[1..]);
    }
  }

  /** The end tag of the open element. */
  lemma EndTagBack(text: string, i: nat, items: seq<Item>, cursor: nat, name: string)
    requires Cursor(items, cursor) && items[cursor].name == Some(name) && LegalName(name) && Stands(text, i, ElementEnd(name))
    ensures i + |ElementEnd(name)| <= |text|
    ensures Content(text, i, items, cursor) == Content(text, i + |ElementEnd(name)|, items, Pop(items, cursor))
  {
    StandsSplit(text, i, ['<', '/'], name + ['>']);
    StandsAt(text, i, ['<', '/'], 0);
    StandsAt(text, i, ['<', '/'], 1);
    StandsSplit(text, i + 2, name, ['>']);
    StandsAt(text, i + 2 + |name|, ['>'], 0);
    NameEnds(text, i + 2, name);
    assert Content(text, i, items, cursor) == Tag(text, i + 1, items, cursor);
    assert Tag(text, i + 1, items, cursor) == EndTag(text, i + 2, items, cursor);
  }

  // ---------- attributes ----------

  function WithAttributes(items: seq<Item>, cursor: nat, attributes: seq<Attr>): (r: seq<Item>)
    requires Cursor(items, cursor)
    ensures Cursor(r, cursor) && |r| == |items|
  {
    var x := items[cursor];
    items[cursor := x.(attributes := x.attributes + attributes)]
  }

  function Pieces(name: string, e: string): string {
    [' '] + (name + (['=', '"'] + (e + ['"'])))
  }

  /** The parts of a printed attribute: the name ends at `j`, the escaped value begins at `j + 2`. */
  lemma AttributeParts(text: string, i: nat, name: string, e: string) returns (j: nat)
    requires Stands(text, i, Pieces(name, e))
    ensures Peek(text, i) == ' ' && Stands(text, i + 1, name)
    ensures j == i + 1 + |name| && Peek(text, j) == '=' && Peek(text, j + 1) == '"'
    ensures Stands(text, j + 2, e) && Peek(text, j + 2 + |e|) == '"'
    ensures j + 3 + |e| == i + |Pieces(name, e)| <= |text|
  {
    StandsSplit(text, i, [' '], name + (['=', '"'] + (e + ['"'])));
    StandsAt(text, i, [' '], 0);
    StandsSplit(text, i + 1, name, ['=', '"'] + (e + ['"']));
    j := i + 1 + |name|;
    StandsSplit(text, j, ['=', '"'], e + ['"']);
    StandsAt(text, j, ['=', '"'], 0);
    StandsAt(text, j, ['=', '"'], 1);
    StandsSplit(text, j + 2, e, ['"']);
    StandsAt(text, j + 2 + |e|, ['"'], 0);
  }

  lemma ReadAttributeIs(text: string, s: nat, j: nat, out: string, next: nat)
    requires s <= j <= |text| && SymbolEnd(text, s) == j && Peek(text, j) == '=' && Peek(text, j + 1) == '"'
    requires AttributeValue(text, j + 2, '"') == Done(next, out) && !IsStartSymbol(Peek(text, next))
    ensures ReadAttribute(text, s) == Read(text[s..j], out, next)
  {
    assert SkipWs(text, j + 1) == j + 1;
  }

  lemma NameAndValue(text: string, i: nat, name: string, value: string, j: nat, next: nat)
    requires LegalName(name) && Stands(text, i, name) && j == i + |name|
    requires Peek(text, j) == '=' && Peek(text, j + 1) == '"'
    requires AttributeValue(text, j + 2, '"') == Done(next, value) && !IsStartSymbol(Peek(text, next))
    ensures IsStartSymbol(Peek(text, i)) && ReadAttribute(text, i) == Read(name, value, next)
  {
    StandsAt(text, i, name, 0);
    NameEnds(text, i, name);
    ReadAttributeIs(text, i, j, value, next);
  }

  /** The value of a printed attribute, from behind its opening quote. */
  lemma ValueMet(text: string, k: nat, value: string, e: string, next: nat)
    requires '\0' !in value && '\t' !in value && e == Escaped(value, true)
    requires Stands(text, k, e) && Peek(text, k + |e|) == '"' && next == k + |e| + 1
    ensures AttributeValue(text, k, '"') == Done(next, value)
  {
    AttributeBack(value, text, k);
  }

  lemma AttributeRead(text: string, i: nat, a: Attr, next: nat)
    requires LegalAttribute(a) && Stands(text, i, AttributeText(a))
    requires next == i + |AttributeText(a)| && !IsStartSymbol(Peek(text, next))
    ensures Peek(text, i) == ' ' && next <= |text| && IsStartSymbol(Peek(text, i + 1))
    ensures ReadAttribute(text, i + 1) == Read(a.name.value, a.value, next)
  {
    PiecesRead(text, i, a.name.value, a.value, Escaped(a.value, true), next);
  }

  lemma PiecesRead(text: string, i: nat, name: string, value: string, e: string, next: nat)
    requires LegalName(name) && '\0' !in value && '\t' !in value && e == Escaped(value, true)
    requires Stands(text, i, Pieces(name, e))
    requires next == i + |Pieces(name, e)| && !IsStartSymbol(Peek(text, next))
    ensures Peek(text, i) == ' ' && next <= |text| && IsStartSymbol(Peek(text, i + 1))
    ensures ReadAttribute(text, i + 1) == Read(name, value, next)
  {
    var j := AttributeParts(text, i, name, e);
    ValueMet(text, j + 2, value, e, next);
    NameAndValue(text, i + 1, name, value, j, next);
  }

  lemma AttributesStep(text: string, i: nat, items: seq<Item>, cursor: nat, name: string, value: string, next: nat)
    requires Cursor(items, cursor) && Peek(text, i) == ' ' && i < |text| && next <= |text|
    requires IsStartSymbol(Peek(text, i + 1)) && ReadAttribute(text, i + 1) == Read(name, value, next)
    ensures Attributes(text, i, items, cursor) == Attributes(text, next, WithAttribute(items, cursor, name, value), cursor)
  {
    assert SkipWs(text, i + 1) == i + 1;
    assert SkipWs(text, i) == i + 1;
  }

  /** A printed attribute takes the loop one turn further. */
  lemma OneAttribute(text: string, i: nat, items: seq<Item>, cursor: nat, a: Attr, j: nat)
    requires Cursor(items, cursor) && LegalAttribute(a) && Stands(text, i, AttributeText(a))
    requires j == i + |AttributeText(a)| && !IsStartSymbol(Peek(text, j))
    ensures i <= j <= |text|
    ensures Attributes(text, i, items, cursor) == Attributes(text, j, WithAttribute(items, cursor, a.name.value, a.value), cursor)
  {
    AttributeRead(text, i, a, j);
    AttributesStep(text, i, items, cursor, a.name.value, a.value, j);
  }

  lemma {:induction false} AttributesBack(text: string, i: nat, items: seq<Item>, cursor: nat, attributes: seq<Attr>)
    requires Cursor(items, cursor) && (forall a <- attributes :: LegalAttribute(a)) && Stands(text, i, AttributesText(attributes))
    requires !IsStartSymbol(Peek(text, i + |AttributesText(attributes)|))
    ensures Attributes(text, i, items, cursor)
      == Attributes(text, i + |AttributesText(attributes)|, WithAttributes(items, cursor, attributes), cursor)
    decreases |attributes|
  {
    if attributes == [] {
      WithNone(items, cursor);
    } else {
      var a, rest := attributes[0], attributes[1..];
      StandsSplit(text, i, AttributeText(a), AttributesText(rest));
      var j := i + |AttributeText(a)|;
      BlankFirst(text, j, rest);
      OneAttribute(text, i, items, cursor, a, j);
      AttributesBack(text, j, WithAttribute(items, cursor, a.name.value, a.value), cursor, rest);
      WithOneMore(items, cursor, attributes);
    }
  }

  lemma BlankFirst(text: string, j: nat, attributes: seq<Attr>)
    requires Stands(text, j, AttributesText(attributes)) && !IsStartSymbol(Peek(text, j + |AttributesText(attributes)|))
    ensures !IsStartSymbol(Peek(text, j))
  {
    if attributes != [] {
      StandsAt(text, j, AttributesText(attributes), 0);
    }
  }

  lemma WithNone(items: seq<Item>, cursor: nat)
    requires Cursor(items, cursor)
    ensures WithAttributes(items, cursor, []) == items
  {
    assert items[cursor].attributes + [] == items[cursor].attributes;
  }

  lemma WithOneMore(items: seq<Item>, cursor: nat, attributes: seq<Attr>)
    requires Cursor(items, cursor) && attributes != [] && attributes[0].name.Some?
    ensures WithAttributes(WithAttribute(items, cursor, attributes[0].name.value, attributes[0].value), cursor, attributes[1..])
      == WithAttributes(items, cursor, attributes)
  {
    assert items[cursor].attributes + [attributes[0]] + attributes[1..] == items[cursor].attributes + attributes;
  }

  // ---------- elements ----------

  /** The end of a start tag at `k`. */
  predicate Closes(text: string, k: nat, hasChildren: bool) {
    if hasChildren then Peek(text, k) == '>' else Peek(text, k) == '/' && Peek(text, k + 1) == '>'
  }

  function Past(k: nat, hasChildren: bool): nat {
    if hasChildren then k + 1 else k + 2
  }

  lemma TailCloses(text: string, k: nat, hasChildren: bool)
    requires Stands(text, k, if hasChildren then ['>'] else ['/', '>'])
    ensures Closes(text, k, hasChildren)
  {
    if hasChildren {
      StandsAt(text, k, ['>'], 0);
    } else {
      StandsAt(text, k, ['/', '>'], 0);
      StandsAt(text, k, ['/', '>'], 1);
    }
  }

  /** The parts of a printed start tag: the name ends at `j`, the attributes at `k`. */
  lemma TagParts(text: string, i: nat, name: string, attributes: seq<Attr>, hasChildren: bool) returns (j: nat, k: nat)
    requires Stands(text, i, ElementStart(name, None, attributes, hasChildren))
    ensures Peek(text, i) == '<' && Stands(text, i + 1, name) && j == i + 1 + |name|
    ensures Stands(text, j, AttributesText(attributes)) && k == j + |AttributesText(attributes)|
    ensures Closes(text, k, hasChildren) && Past(k, hasChildren) == i + |ElementStart(name, None, attributes, hasChildren)| <= |text|
  {
    var tail := if hasChildren then ['>'] else ['/', '>'];
    var rest := AttributesText(attributes);
    assert ElementStart(name, None, attributes, hasChildren) == ['<'] + (name + (rest + tail));
    StandsSplit(text, i, ['<'], name + (rest + tail));
    StandsAt(text, i, ['<'], 0);
    StandsSplit(text, i + 1, name, rest + tail);
    j := i + 1 + |name|;
    StandsSplit(text, j, rest, tail);
    k := j + |rest|;
    TailCloses(text, k, hasChildren);
  }

  lemma SkipBlank(text: string, j: nat, items: seq<Item>, cursor: nat)
    requires Cursor(items, cursor) && IsSpace(Peek(text, j)) && j < |text|
    ensures Attributes(text, j, items, cursor) == Attributes(text, j + 1, items, cursor)
  {
    assert SkipWs(text, j) == SkipWs(text, j + 1);
  }

  /** The attributes, from the blank at the end of the name on. */
  lemma AfterName(text: string, j: nat, items: seq<Item>, cursor: nat, attributes: seq<Attr>, k: nat)
    requires Cursor(items, cursor) && (forall a <- attributes :: LegalAttribute(a)) && attributes != []
    requires Stands(text, j, AttributesText(attributes)) && k == j + |AttributesText(attributes)|
    requires !IsStartSymbol(Peek(text, k))
    ensures Peek(text, j) == ' ' && j < |text| && k <= |text|
    ensures Attributes(text, j + 1, items, cursor) == Attributes(text, k, WithAttributes(items, cursor, attributes), cursor)
  {
    StandsAt(text, j, AttributesText(attributes), 0);
    AttributesBack(text, j, items, cursor, attributes);
    SkipBlank(text, j, items, cursor);
  }

  lemma AttributesEnd(text: string, k: nat, items: seq<Item>, cursor: nat, hasChildren: bool)
    requires Cursor(items, cursor) && k <= |text| && Closes(text, k, hasChildren)
    ensures Past(k, hasChildren) <= |text|
    ensures Attributes(text, k, items, cursor) == Content(text, Past(k, hasChildren), items, if hasChildren then cursor else Pop(items, cursor))
  {
    assert SkipWs(text, k) == k;
  }

  lemma MoreItems(items: seq<Item>, cursor: nat, x: Item)
    requires Cursor(items, cursor) && x.parent == cursor
    ensures Cursor(items + [x], cursor) && Cursor(items + [x], |items|) && Pop(items + [x], |items|) == cursor
  {
  }

  /** What Tag does once the name is read. */
  lemma TagOpens(text: string, s: nat, items: seq<Item>, cursor: nat, j: nat, more: seq<Item>)
    requires Cursor(items, cursor) && 0 < s <= |text| && IsStartSymbol(Peek(text, s)) && SymbolEnd(text, s) == j
    requires more == items + [NewElement(cursor, text[s..j])]
    ensures Cursor(more, cursor) && Cursor(more, |items|) && j <= |text|
    ensures Peek(text, j) == '>' ==> j < |text| && Tag(text, s, items, cursor) == Content(text, j + 1, more, |items|)
    ensures IsSpace(Peek(text, j)) ==> j < |text| && Tag(text, s, items, cursor) == Attributes(text, j + 1, more, |items|)
    ensures Peek(text, j) == '/' && Peek(text, j + 1) == '>' ==> j + 1 < |text| && Tag(text, s, items, cursor) == Content(text, j + 2, more, cursor)
  {
    MoreItems(items, cursor, NewElement(cursor, text[s..j]));
  }

  /** The name of a printed start tag at `i` ends at `j`. */
  lemma NameRead(text: string, i: nat, name: string, j: nat)
    requires LegalName(name) && Stands(text, i, name) && j == i + |name| && !IsSymbol(Peek(text, j))
    ensures i <= j <= |text| && IsStartSymbol(Peek(text, i)) && SymbolEnd(text, i) == j && text[i..j] == name
  {
    StandsAt(text, i, name, 0);
    NameEnds(text, i, name);
  }

  /** A start tag without attributes. */
  lemma BareTag(text: string, i: nat, items: seq<Item>, cursor: nat, name: string, j: nat, hasChildren: bool)
    requires Cursor(items, cursor) && LegalName(name) && Peek(text, i) == '<' && Stands(text, i + 1, name) && j == i + 1 + |name|
    requires Closes(text, j, hasChildren)
    ensures Cursor(items + [NewElement(cursor, name)], cursor) && Past(j, hasChildren) <= |text|
    ensures Content(text, i, items, cursor)
      == Content(text, Past(j, hasChildren), items + [NewElement(cursor, name)], if hasChildren then |items| else cursor)
  {
    TagRead(text, i, items, cursor, name, j, items + [NewElement(cursor, name)]);
  }

  lemma TagRead(text: string, i: nat, items: seq<Item>, cursor: nat, name: string, j: nat, more: seq<Item>)
    requires Cursor(items, cursor) && LegalName(name) && Peek(text, i) == '<' && Stands(text, i + 1, name) && j == i + 1 + |name|
    requires !IsSymbol(Peek(text, j)) && more == items + [NewElement(cursor, name)]
    ensures Cursor(more, cursor) && Cursor(more, |items|) && j <= |text|
    ensures Peek(text, j) == '>' ==> j < |text| && Content(text, i, items, cursor) == Content(text, j + 1, more, |items|)
    ensures Peek(text, j) == ' ' ==> j < |text| && Content(text, i, items, cursor) == Attributes(text, j + 1, more, |items|)
    ensures Peek(text, j) == '/' && Peek(text, j + 1) == '>' ==> j + 1 < |text| && Content(text, i, items, cursor) == Content(text, j + 2, more, cursor)
  {
    NameRead(text, i + 1, name, j);
    TagOpens(text, i + 1, items, cursor, j, more);
    ContentTag(text, i, items, cursor);
  }

  lemma ContentTag(text: string, i: nat, items: seq<Item>, cursor: nat)
    requires Cursor(items, cursor) && Peek(text, i) == '<'
    ensures i < |text| && Content(text, i, items, cursor) == Tag(text, i + 1, items, cursor)
  {
  }

  lemma NameThenAttributes(text: string, i: nat, items: seq<Item>, cursor: nat, name: string, j: nat)
    requires Cursor(items, cursor) && LegalName(name) && Peek(text, i) == '<' && Stands(text, i + 1, name) && j == i + 1 + |name|
    requires Peek(text, j) == ' '
    ensures Cursor(items + [NewElement(cursor, name)], |items|) && j < |text|
    ensures Content(text, i, items, cursor) == Attributes(text, j + 1, items + [NewElement(cursor, name)], |items|)
  {
    TagRead(text, i, items, cursor, name, j, items + [NewElement(cursor, name)]);
  }

  lemma WithAll(items: seq<Item>, cursor: nat, name: string, attributes: seq<Attr>)
    requires Cursor(items, cursor)
    ensures var more := items + [NewElement(cursor, name)];
      && Cursor(more, |items|)
      && WithAttributes(more, |items|, attributes) == items + [NewElement(cursor, name).(attributes := attributes)]
  {
    assert [] + attributes == attributes;
  }

  /** A start tag with attributes. */
  lemma FullTag(text: string, i: nat, items: seq<Item>, cursor: nat, x: Item, j: nat, k: nat, hasChildren: bool)
    requires Cursor(items, cursor) && LegalItem(x) && x.kind == Element && x.parent == cursor && x.attributes != []
    requires Peek(text, i) == '<' && Stands(text, i + 1, x.name.value) && j == i + 1 + |x.name.value|
    requires Stands(text, j, AttributesText(x.attributes)) && k == j + |AttributesText(x.attributes)| && Closes(text, k, hasChildren)
    ensures Cursor(items + [x], |items|) && Past(k, hasChildren) <= |text|
    ensures Content(text, i, items, cursor) == Content(text, Past(k, hasChildren), items + [x], if hasChildren then |items| else cursor)
  {
    var name, n := x.name.value, |items|;
    var more := items + [NewElement(cursor, name)];
    WithAll(items, cursor, name, x.attributes);
    assert x == NewElement(cursor, name).(attributes := x.attributes);
    AfterName(text, j, more, n, x.attributes, k);
    NameThenAttributes(text, i, items, cursor, name, j);
    AttributesEnd(text, k, items + [x], n, hasChildren);
  }

  /** A start tag, or a whole element without children, adds its element to the tree. */
  lemma ElementBack(text: string, i: nat, items: seq<Item>, cursor: nat, x: Item, hasChildren: bool, next: nat)
    requires Cursor(items, cursor) && LegalItem(x) && x.kind == Element && x.parent == cursor
    requires Stands(text, i, StartText(x, hasChildren)) && next == i + |StartText(x, hasChildren)|
    ensures next <= |text| && Cursor(items + [x], cursor)
    ensures Content(text, i, items, cursor) == Content(text, next, items + [x], if hasChildren then |items| else cursor)
  {
    var name := x.name.value;
    var j, k := TagParts(text, i, name, x.attributes, hasChildren);
    assert x == NewElement(cursor, name).(attributes := x.attributes);
    if x.attributes == [] {
      BareTag(text, i, items, cursor, name, j, hasChildren);
    } else {
      FullTag(text, i, items, cursor, x, j, k, hasChildren);
    }
  }

  // ---------- texts ----------

  /** Nothing in an escaped text looks like a tag or the end. */
  predicate Plain(e: string) {
    forall k :: 0 <= k < |e| ==> e[k] != '<' && e[k] != '\0'
  }

  lemma EscapedCharPlain(c: char)
    requires c != '\0'
    ensures var e := EscapedChar(c, false);
      Plain(e) && (IsSpace(e[0]) ==> e == [c])
  {
    if Special(c, false) && c != '&' && c != '>' && c != '<' {
      assert '0' <= DigitChar(c as nat / 10) <= '9' && '0' <= DigitChar(c as nat % 10) <= '9';
    }
  }

  lemma {:induction false} EscapedPlain(v: string)
    requires '\0' !in v
    ensures Plain(Escaped(v, false)) && (Blank(Escaped(v, false)) ==> Blank(v))
  {
    if v != [] {
      EscapedPlain(v[1..]);
      EscapedCharPlain(v[0]);
      Parts(EscapedChar(v[0], false), Escaped(v[1..], false));
      assert v == [v[0]] + v[1..];
    }
  }

  lemma Parts(e: string, r: string)
    ensures Plain(e) && Plain(r) ==> Plain(e + r)
    ensures Blank(e + r) ==> Blank(e) && Blank(r)
  {
    if Blank(e + r) {
      forall k | 0 <= k < |e| ensures IsSpace(e[k]) { assert IsSpace((e + r)[k]); }
      forall k | 0 <= k < |r| ensures IsSpace(r[k]) { assert IsSpace((e + r)[|e| + k]); }
    }
  }

  lemma HeadAndTail(e: string)
    requires e != []
    ensures e == [e[0]] + e[1..]
  {
  }

  /** White space is skipped up to a character of the text itself. */
  lemma {:induction false} SkipStops(text: string, i: nat, e: string)
    requires Stands(text, i, e) && Plain(e) && !Blank(e)
    ensures Peek(text, SkipWs(text, i)) != '<' && Peek(text, SkipWs(text, i)) != '\0'
    ensures Peek(text, i) != '<' && Peek(text, i) != '\0'
    decreases |e|
  {
    StandsAt(text, i, e, 0);
    if IsSpace(e[0]) {
      HeadAndTail(e);
      StandsSplit(text, i, [e[0]], e[1..]);
      SkipStops(text, i + 1, e[1..]);
    }
  }

  lemma LegalTextBack(text: string, i: nat, v: string, next: nat)
    requires '\0' !in v && '\r' !in v && Stands(text, i, Escaped(v, false)) && next == i + |Escaped(v, false)| && Peek(text, next) == '<'
    ensures TextValue(text, i) == Done(next + 1, v)
  {
    TextBack(v, text, i, next);
    LineEndsKeep(v);
  }

  lemma TextRead(text: string, i: nat, items: seq<Item>, cursor: nat, v: string, next: nat)
    requires Cursor(items, cursor) && cursor > 0 && i <= |text|
    requires Peek(text, i) != '<' && Peek(text, i) != '\0'
    requires Peek(text, SkipWs(text, i)) != '<' && Peek(text, SkipWs(text, i)) != '\0'
    requires TextValue(text, i) == Done(next + 1, v) && Peek(text, next) == '<' && Peek(text, next + 1) != '\0'
    ensures Cursor(items + [NewText(cursor, v)], cursor)
    ensures Content(text, i, items, cursor) == Tag(text, next + 1, items + [NewText(cursor, v)], cursor)
  {
    MoreItems(items, cursor, NewText(cursor, v));
  }

  /** A text and the tag after it. */
  lemma TextNodeBack(text: string, i: nat, items: seq<Item>, cursor: nat, x: Item, next: nat)
    requires Cursor(items, cursor) && cursor > 0 && LegalItem(x) && x.kind == Pcdata && x.parent == cursor
    requires Stands(text, i, Escaped(x.value.value, false)) && next == i + |Escaped(x.value.value, false)|
    requires Peek(text, next) == '<' && Peek(text, next + 1) != '\0'
    ensures Cursor(items + [x], cursor) && next < |text|
    ensures Content(text, i, items, cursor) == Content(text, next, items + [x], cursor)
  {
    var v := x.value.value;
    assert x == NewText(cursor, v);
    EscapedPlain(v);
    SkipStops(text, i, Escaped(v, false));
    LegalTextBack(text, i, v, next);
    TextRead(text, i, items, cursor, v, next);
    ContentTag(text, next, items + [x], cursor);
  }

  // ---------- end tags ----------

  /** The open element after the end tags that follow node `j`. */
  ghost function After(s: Shape, j: int): (c: nat)
    requires s.Valid() && s.Has(j)
    ensures c <= j
    decreases j
  {
    if j == 0 then 0 else if s.NextSibling(j) != -1 then s.par[j] else After(s, s.par[j])
  }

  /** After the last node of its subtree the parser stands where the next node goes. */
  lemma {:induction false} AfterIsNext(s: Shape, j: int, k: nat)
    requires s.Valid() && s.Has(j) && s.end[j] == k
    ensures After(s, j) == if k < s.Size() then s.par[k] else 0
    decreases j
  {
    if j > 0 {
      s.SiblingLinks(j);
      if s.NextSibling(j) == -1 {
        AfterIsNext(s, s.par[j], k);
      }
    }
  }

  lemma PrefixCursor(s: Shape, items: seq<Item>, k: nat, c: nat)
    requires IsDocument(s, items) && c < k <= |items|
    ensures Cursor(items[..k], c)
  {
    forall i | 1 <= i < k
      ensures 0 <= items[..k][i].parent < i
    {
      assert items[..k][i] == items[i];
      assert s.par[i] < i;
    }
    assert items[..k][0] == items[0];
  }

  /** Parents are the document or elements. */
  lemma ParentIs(s: Shape, items: seq<Item>, j: int)
    requires Legal(s, items) && 1 <= j < |items|
    ensures 0 <= s.par[j] < j && items[s.par[j]].parent == s.par[s.par[j]]
    ensures s.par[j] == 0 ==> EndText(items[s.par[j]]) == []
    ensures s.par[j] > 0 ==> items[s.par[j]].name.Some? && LegalName(items[s.par[j]].name.value) && EndText(items[s.par[j]]) == ElementEnd(items[s.par[j]].name.value)
  {
    var p := s.par[j];
    assert InPlace(s, items, j);
    assert items[p] == items[p];
    assert p > 0 ==> LegalItem(items[p]);
  }

  /** The end tag of element `c`. */
  lemma OneUp(text: string, p: nat, s: Shape, items: seq<Item>, k: nat, j: int, q: nat)
    requires Legal(s, items) && 0 < j < k <= |items| && s.par[j] > 0 && s.par[s.par[j]] >= 0
    requires Stands(text, p, EndText(items[s.par[j]])) && q == p + |EndText(items[s.par[j]])|
    ensures Cursor(items[..k], s.par[j]) && Cursor(items[..k], s.par[s.par[j]]) && q <= |text|
    ensures Content(text, p, items[..k], s.par[j]) == Content(text, q, items[..k], s.par[s.par[j]])
  {
    var c := s.par[j];
    ParentIs(s, items, j);
    ParentIs(s, items, c);
    PrefixCursor(s, items, k, c);
    PrefixCursor(s, items, k, s.par[c]);
    var open := items[..k];
    assert open[c] == items[c];
    EndTagBack(text, p, open, c, items[c].name.value);
  }

  /** The text of one level of the climb. */
  lemma ClimbText(text: string, p: nat, s: Shape, items: seq<Item>, j: int, q: nat) returns (m: nat)
    requires Legal(s, items) && 0 < j < |items| && Stands(text, p, Climb(s, items, j)) && q == p + |Climb(s, items, j)|
    ensures s.NextSibling(j) != -1 || s.par[j] == 0 ==> q == p && q <= |text| && After(s, j) == s.par[j]
    ensures s.NextSibling(j) == -1 && s.par[j] > 0 ==>
      Stands(text, p, EndText(items[s.par[j]])) && m == p + |EndText(items[s.par[j]])| &&
      Stands(text, m, Climb(s, items, s.par[j])) && q == m + |Climb(s, items, s.par[j])| && After(s, j) == After(s, s.par[j])
  {
    ParentIs(s, items, j);
    m := p;
    if s.NextSibling(j) == -1 {
      var e := EndText(items[s.par[j]]);
      StandsSplit(text, p, e, Climb(s, items, s.par[j]));
      m := p + |e|;
    }
  }

  lemma {:induction false} ClimbBack(text: string, p: nat, s: Shape, items: seq<Item>, k: nat, j: int, q: nat)
    requires Legal(s, items) && 0 < j < k <= |items| && Stands(text, p, Climb(s, items, j)) && q == p + |Climb(s, items, j)|
    ensures Cursor(items[..k], s.par[j]) && Cursor(items[..k], After(s, j)) && q <= |text|
    ensures Content(text, p, items[..k], s.par[j]) == Content(text, q, items[..k], After(s, j))
    decreases j
  {
    var c := s.par[j];
    var m := ClimbText(text, p, s, items, j, q);
    PrefixCursor(s, items, k, c);
    if s.NextSibling(j) == -1 && c > 0 {
      OneUp(text, p, s, items, k, j, m);
      ClimbBack(text, m, s, items, k, c, q);
    }
  }

  // ---------- documents ----------

  lemma PrintedParts(s: Shape, items: seq<Item>, k: nat, all: string) returns (own: string, ends: string, rest: string)
    requires IsDocument(s, items) && k < |items| && all == PrintedFrom(s, items, k)
    ensures own == StartText(items[k], HasChildren(s, k)) && rest == PrintedFrom(s, items, k + 1)
    ensures ends == if HasChildren(s, k) then [] else Climb(s, items, k)
    ensures all == own + (ends + rest)
  {
    own, rest := StartText(items[k], HasChildren(s, k)), PrintedFrom(s, items, k + 1);
    ends := if HasChildren(s, k) then [] else Climb(s, items, k);
  }

  lemma ThreeParts(text: string, i: nat, a: string, b: string, c: string, all: string, m: nat, q: nat)
    requires Stands(text, i, all) && all == a + (b + c) && m == i + |a| && q == m + |b|
    ensures Stands(text, i, a) && Stands(text, m, b) && Stands(text, q, c) && q + |c| == i + |all|
  {
    StandsSplit(text, i, a, b + c);
    StandsSplit(text, m, b, c);
  }

  /** The parts of what is printed from node `k` on: its own text up to `m`, end tags up to `q`. */
  lemma NodeText(text: string, i: nat, s: Shape, items: seq<Item>, k: nat, all: string)
    returns (own: string, m: nat, ends: string, q: nat, rest: string)
    requires IsDocument(s, items) && k < |items| && all == PrintedFrom(s, items, k) && Stands(text, i, all)
    ensures own == StartText(items[k], HasChildren(s, k)) && Stands(text, i, own) && m == i + |own|
    ensures ends == (if HasChildren(s, k) then [] else Climb(s, items, k)) && Stands(text, m, ends) && q == m + |ends|
    ensures rest == PrintedFrom(s, items, k + 1) && Stands(text, q, rest) && q + |rest| == i + |all|
  {
    own, ends, rest := PrintedParts(s, items, k, all);
    m := i + |own|;
    q := m + |ends|;
    ThreeParts(text, i, own, ends, rest, all, m, q);
  }

  /** A text has no children, and the next node in document order, if it is a sibling, is an element. */
  lemma TextPlace(s: Shape, items: seq<Item>, k: nat)
    requires Legal(s, items) && 1 <= k < |items| && items[k].kind == Pcdata
    ensures !HasChildren(s, k) && s.par[k] > 0
    ensures s.NextSibling(k) != -1 ==> k + 1 < |items| && items[k + 1].kind == Element && LegalItem(items[k + 1]) && s.NextSibling(k) == k + 1
  {
    assert InPlace(s, items, k);
    NoChildren(s, items, k);
    SiblingOfText(s, items, k);
  }

  lemma NoChildren(s: Shape, items: seq<Item>, k: nat)
    requires Legal(s, items) && 1 <= k < |items| && items[k].kind == Pcdata
    ensures !HasChildren(s, k) && s.end[k] == k + 1
  {
    FirstChildBelow(s, k);
    if k + 1 < |items| {
      assert InPlace(s, items, k + 1);
    }
  }

  lemma FirstChildBelow(s: Shape, k: nat)
    requires s.Valid() && s.Has(k)
    ensures HasChildren(s, k) <==> k + 1 < s.Size() && s.par[k + 1] == k
  {
    if HasChildren(s, k) {
      assert k <= s.par[k + 1];
    }
  }

  lemma SiblingOfText(s: Shape, items: seq<Item>, k: nat)
    requires Legal(s, items) && 1 <= k < |items| && items[k].kind == Pcdata && s.end[k] == k + 1
    ensures s.NextSibling(k) != -1 ==> k + 1 < |items| && items[k + 1].kind == Element && LegalItem(items[k + 1]) && s.NextSibling(k) == k + 1
  {
    s.SiblingLinks(k);
    if k + 1 < |items| {
      assert InPlace(s, items, k + 1);
      assert LegalItem(items[k + 1]);
    }
  }

  lemma StartOpens(text: string, i: nat, x: Item, hasChildren: bool)
    requires LegalItem(x) && x.kind == Element && Stands(text, i, StartText(x, hasChildren))
    ensures Peek(text, i) == '<' && Peek(text, i + 1) != '\0'
  {
    var e := StartText(x, hasChildren);
    assert e[0] == '<' && e[1] == x.name.value[0];
    StandsAt(text, i, e, 0);
    StandsAt(text, i, e, 1);
  }

  lemma EndOpens(text: string, i: nat, name: string)
    requires Stands(text, i, ElementEnd(name))
    ensures Peek(text, i) == '<' && Peek(text, i + 1) != '\0'
  {
    var e := ElementEnd(name);
    assert e[0] == '<' && e[1] == '/';
    StandsAt(text, i, e, 0);
    StandsAt(text, i, e, 1);
  }

  lemma SiblingOpens(text: string, q: nat, s: Shape, items: seq<Item>, k: nat)
    requires IsDocument(s, items) && k < |items| && items[k].kind == Element && LegalItem(items[k]) && Stands(text, q, PrintedFrom(s, items, k))
    ensures Peek(text, q) == '<' && Peek(text, q + 1) != '\0'
  {
    var own, m, ends, q1, rest := NodeText(text, q, s, items, k, PrintedFrom(s, items, k));
    StartOpens(text, q, items[k], HasChildren(s, k));
  }

  lemma NoClimb(s: Shape, items: seq<Item>, k: nat)
    requires IsDocument(s, items) && k < |items| && s.NextSibling(k) != -1
    ensures Climb(s, items, k) == []
  {
  }

  lemma ClimbOpens(text: string, m: nat, s: Shape, items: seq<Item>, k: nat, q: nat)
    requires Legal(s, items) && 1 <= k < |items| && s.par[k] > 0 && s.NextSibling(k) == -1
    requires Stands(text, m, Climb(s, items, k)) && q == m + |Climb(s, items, k)|
    ensures Peek(text, m) == '<' && Peek(text, m + 1) != '\0'
  {
    var m2 := ClimbText(text, m, s, items, k, q);
    ParentIs(s, items, k);
    EndOpens(text, m, items[s.par[k]].name.value);
  }

  /** A text is followed by a tag. */
  lemma TagFollows(text: string, m: nat, s: Shape, items: seq<Item>, k: nat, q: nat)
    requires Legal(s, items) && 1 <= k < |items| && items[k].kind == Pcdata
    requires Stands(text, m, Climb(s, items, k)) && q == m + |Climb(s, items, k)| && Stands(text, q, PrintedFrom(s, items, k + 1))
    ensures Peek(text, m) == '<' && Peek(text, m + 1) != '\0'
  {
    TextPlace(s, items, k);
    if s.NextSibling(k) == -1 {
      ClimbOpens(text, m, s, items, k, q);
    } else {
      SiblingFollows(text, m, s, items, k, q);
    }
  }

  lemma SiblingFollows(text: string, m: nat, s: Shape, items: seq<Item>, k: nat, q: nat)
    requires IsDocument(s, items) && k + 1 < |items| && items[k + 1].kind == Element && LegalItem(items[k + 1]) && s.NextSibling(k) != -1
    requires q == m + |Climb(s, items, k)| && Stands(text, q, PrintedFrom(s, items, k + 1))
    ensures Peek(text, m) == '<' && Peek(text, m + 1) != '\0'
  {
    NoClimb(s, items, k);
    SiblingOpens(text, q, s, items, k + 1);
  }

  lemma Snoc(items: seq<Item>, k: nat)
    requires k < |items|
    ensures items[..k + 1] == items[..k] + [items[k]]
  {
  }

  lemma Known(s: Shape, items: seq<Item>, k: nat)
    requires Legal(s, items) && 1 <= k < |items|
    ensures LegalItem(items[k]) && 0 <= s.par[k] < k && items[k].parent == s.par[k] && (items[k].kind == Pcdata ==> s.par[k] > 0)
    ensures Cursor(items[..k], s.par[k])
  {
    assert LegalItem(items[k]) && InPlace(s, items, k);
    PrefixCursor(s, items, k, s.par[k]);
  }

  /** Node `k` itself: its start tag or its text. */
  lemma NodeBack(text: string, i: nat, s: Shape, items: seq<Item>, k: nat, own: string, m: nat, ends: string, q: nat, rest: string)
    requires Legal(s, items) && 1 <= k < |items|
    requires own == StartText(items[k], HasChildren(s, k)) && Stands(text, i, own) && m == i + |own|
    requires ends == (if HasChildren(s, k) then [] else Climb(s, items, k)) && Stands(text, m, ends) && q == m + |ends|
    requires rest == PrintedFrom(s, items, k + 1) && Stands(text, q, rest)
    ensures m <= |text| && Cursor(items[..k], s.par[k]) && Cursor(items[..k + 1], if HasChildren(s, k) then k else s.par[k])
    ensures Content(text, i, items[..k], s.par[k]) == Content(text, m, items[..k + 1], if HasChildren(s, k) then k else s.par[k])
  {
    var x := items[k];
    Known(s, items, k);
    Snoc(items, k);
    if x.kind == Element {
      MoreItems(items[..k], s.par[k], x);
      ElementBack(text, i, items[..k], s.par[k], x, HasChildren(s, k), m);
    } else {
      NoChildren(s, items, k);
      TagFollows(text, m, s, items, k, q);
      TextNodeBack(text, i, items[..k], s.par[k], x, m);
    }
  }

  ghost function Next(s: Shape, k: nat): (c: nat)
    requires s.Valid() && 1 <= k <= s.Size()
    ensures c < k
  {
    if k < s.Size() then s.par[k] else 0
  }

  /** The end tags after node `k`. */
  lemma EndsBack(text: string, s: Shape, items: seq<Item>, k: nat, m: nat, ends: string, q: nat)
    requires Legal(s, items) && 1 <= k < |items| && Cursor(items[..k + 1], if HasChildren(s, k) then k else s.par[k]) && m <= |text|
    requires ends == (if HasChildren(s, k) then [] else Climb(s, items, k)) && Stands(text, m, ends) && q == m + |ends|
    ensures Cursor(items[..k + 1], Next(s, k + 1)) && q <= |text|
    ensures Content(text, m, items[..k + 1], if HasChildren(s, k) then k else s.par[k]) == Content(text, q, items[..k + 1], Next(s, k + 1))
  {
    if HasChildren(s, k) {
      assert k <= s.par[k + 1];
    } else {
      ClimbBack(text, m, s, items, k + 1, k, q);
      AfterIsNext(s, k, k + 1);
    }
  }

  /** Node `k` and the end tags after it. */
  lemma NodeAndEnds(text: string, i: nat, s: Shape, items: seq<Item>, k: nat, all: string) returns (q: nat, rest: string)
    requires Legal(s, items) && 1 <= k < |items| && all == PrintedFrom(s, items, k) && Stands(text, i, all)
    ensures rest == PrintedFrom(s, items, k + 1) && Stands(text, q, rest) && q + |rest| == i + |all|
    ensures Cursor(items[..k], Next(s, k)) && Cursor(items[..k + 1], Next(s, k + 1)) && q <= |text|
    ensures Content(text, i, items[..k], Next(s, k)) == Content(text, q, items[..k + 1], Next(s, k + 1))
  {
    var own, m, ends;
    own, m, ends, q, rest := NodeText(text, i, s, items, k, all);
    NodeBack(text, i, s, items, k, own, m, ends, q, rest);
    EndsBack(text, s, items, k, m, ends, q);
  }

  lemma {:induction false} NodesBack(text: string, i: nat, s: Shape, items: seq<Item>, k: nat, end: nat)
    requires Legal(s, items) && 1 <= k <= |items| && Stands(text, i, PrintedFrom(s, items, k))
    requires end == i + |PrintedFrom(s, items, k)| && Peek(text, end) == '\0'
    ensures Cursor(items[..k], Next(s, k))
    ensures Content(text, i, items[..k], Next(s, k)) == Parsed(items)
    decreases |items| - k
  {
    if k == |items| {
      PrefixCursor(s, items, k, 0);
      assert items[..k] == items;
    } else {
      var q, rest := NodeAndEnds(text, i, s, items, k, PrintedFrom(s, items, k));
      NodesBack(text, q, s, items, k + 1, end);
    }
  }

  /** Text that begins with such a character has no byte order mark. */
  lemma ParseIs(text: string, items: seq<Item>, k: nat)
    requires |text| > 0 && text[0] as nat < 128 && Content(text, 0, [ROOT], 0) == Parsed(items)
    requires k < |items| && items[k].parent == 0 && items[k].kind == Element
    ensures Parse(text) == Parsed(items)
  {
    assert HasElement(items);
  }

  /** Printing in raw format and parsing the zero-terminated result gives back the same document: the
      same nodes in the same order under the same parents, with the same contents. */
  lemma PrintedParses(s: Shape, items: seq<Item>)
    requires Legal(s, items)
    ensures Parse(PrintedFrom(s, items, 0) + ['\0']) == Parsed(items)
  {
    var printed := PrintedFrom(s, items, 0);
    var text := printed + ['\0'];
    RootPrints(s, items);
    assert Stands(text, 0, printed);
    NodesBack(text, 0, s, items, 1, |printed|);
    assert items[..1] == [ROOT];
    FirstIsElement(s, items);
    NoMark(text, s, items);
    ParseIs(text, items, 1);
  }

  /** The document node itself prints nothing. */
  lemma RootPrints(s: Shape, items: seq<Item>)
    requires Legal(s, items)
    ensures PrintedFrom(s, items, 0) == PrintedFrom(s, items, 1)
  {
    var own, ends, rest := PrintedParts(s, items, 0, PrintedFrom(s, items, 0));
    assert HasChildren(s, 0);
    assert own == [] && ends == [];
    assert [] + ([] + rest) == rest;
  }

  lemma FirstIsElement(s: Shape, items: seq<Item>)
    requires Legal(s, items)
    ensures items[1].kind == Element && items[1].parent == 0 && s.par[1] == 0
  {
    assert s.par[1] == 0;
    assert InPlace(s, items, 1);
    assert LegalItem(items[1]);
  }

  /** Printed text begins with a tag, not with a byte order mark. */
  lemma NoMark(text: string, s: Shape, items: seq<Item>)
    requires Legal(s, items) && Stands(text, 0, PrintedFrom(s, items, 1))
    ensures Peek(text, 0) == '<'
  {
    FirstIsElement(s, items);
    var own, m, ends, q, rest := NodeText(text, 0, s, items, 1, PrintedFrom(s, items, 1));
    assert LegalItem(items[1]);
    StartOpens(text, 0, items[1], HasChildren(s, 1));
  }

  // ---------- what is refused ----------

  /** A text that ends while an element is open is refused, whatever text stands in the element. */
  lemma OpenAtEnd(text: string, i: nat, items: seq<Item>, cursor: nat)
    requires Cursor(items, cursor) && cursor != 0 && i <= |text| && forall k :: i <= k < |text| ==> text[k] != '<'
    ensures Content(text, i, items, cursor) == Failed(EndElementMismatch)
  {
    var j := SkipWs(text, i);
    assert Peek(text, j) != '<';
    if Peek(text, i) != '\0' {
      if Peek(text, j) == '\0' {
        assert Content(text, j, items, cursor) == Failed(EndElementMismatch);
      } else {
        NoTagAhead(text, i);
        MoreItems(items, cursor, NewText(cursor, TextValue(text, i).out));
      }
    }
  }

  /** Without a tag ahead a text goes on to the end. */
  lemma {:induction false} NoTagAhead(text: string, i: nat)
    requires i <= |text| && forall k :: i <= k < |text| ==> text[k] != '<'
    ensures Peek(text, TextValue(text, i).next) == '\0'
    decreases |text| - i
  {
    var c := Peek(text, i);
    if c == '\0' {
    } else if c == '&' {
      NoTagAhead(text, Reference(text, i).next);
    } else if c == '\r' {
      NoTagAhead(text, if Peek(text, i + 1) == '\n' then i + 2 else i + 1);
    } else {
      NoTagAhead(text, i + 1);
    }
  }

  /** So is an end tag with another name than that of the open element. */
  lemma OtherName(text: string, i: nat, items: seq<Item>, cursor: nat, name: string)
    requires Cursor(items, cursor) && LegalName(name) && Stands(text, i, ElementEnd(name)) && items[cursor].name != Some(name)
    ensures i <= |text| && Content(text, i, items, cursor) == Failed(EndElementMismatch)
  {
    StandsSplit(text, i, ['<', '/'], name + ['>']);
    StandsAt(text, i, ['<', '/'], 0);
    StandsAt(text, i, ['<', '/'], 1);
    StandsSplit(text, i + 2, name, ['>']);
    StandsAt(text, i + 2 + |name|, ['>'], 0);
    NameRead(text, i + 2, name, i + 2 + |name|);
    assert Content(text, i, items, cursor) == Tag(text, i + 1, items, cursor);
    assert Tag(text, i + 1, items, cursor) == EndTag(text, i + 2, items, cursor);
  }

  // ---------- names ----------

  const CAPITALS: string := "ABCDEFGHIJKLMNOPQRSTUVWXYZ"

  const SMALL: string := "abcdefghijklmnopqrstuvwxyz"

  lemma CapitalAt(k: nat)
    requires k < 26
    ensures |CAPITALS| == 26 && CAPITALS[k] as nat == 65 + k
  {
  }

  lemma SmallAt(k: nat)
    requires k < 26
    ensures |SMALL| == 26 && SMALL[k] as nat == 97 + k
  {
  }

  lemma LettersAre(c: char)
    ensures 'A' <= c <= 'Z' <==> c in CAPITALS
    ensures 'a' <= c <= 'z' <==> c in SMALL
  {
    if 'A' <= c <= 'Z' { CapitalAt(c as nat - 65); }
    if 'a' <= c <= 'z' { SmallAt(c as nat - 97); }
  }

  /** A name begins with a letter, `_`, `:` or a byte beyond ASCII; digits, `-` and `.` may follow. */
  lemma NameCharacters(c: char)
    ensures IsStartSymbol(c) <==> c in CAPITALS || c in SMALL || c == '_' || c == ':' || c as nat >= 128
    ensures IsSymbol(c) <==> IsStartSymbol(c) || c in DECIMAL || c == '-' || c == '.'
  {
    DigitsAre(c);
    LettersAre(c);
  }
}
