/** Documents as people write them: blanks, tabs and line ends between tags, and inside a tag around names,
    `=` and values, do not change what is parsed. */
module Layout {
  import opened Chars
  import opened Wrappers
  import opened Tree
  import opened Strconv
  import opened Printer
  import opened XmlParser
  import opened RoundTrip

  // ---------- layouts ----------

  /** What stands before an attribute, and around its `=`. */
  datatype AttributeLayout = AttributeLayout(lead: string, before: string, after: string)

  /** What stands before the start tag of an element, around its attributes, before its end tag and in it. */
  datatype NodeLayout = NodeLayout(lead: string, attributes: seq<AttributeLayout>, close: string, beforeEnd: string, inEnd: string)

  predicate WhiteAttribute(l: AttributeLayout) {
    Blank(l.lead) && l.lead != [] && Blank(l.before) && Blank(l.after)
  }

  predicate WhiteNode(l: NodeLayout, x: Item) {
    && Blank(l.lead) && Blank(l.close) && Blank(l.beforeEnd) && Blank(l.inEnd)
    && |l.attributes| == |x.attributes| && forall a <- l.attributes :: WhiteAttribute(a)
  }

  /** One layout for every node. Attributes need something before them; all else may be empty. */
  predicate IsLayout(layout: seq<NodeLayout>, items: seq<Item>) {
    |layout| == |items| && forall k {:trigger layout[k]} :: 0 <= k < |items| ==> WhiteNode(layout[k], items[k])
  }

  // ---------- the text ----------

  /** The `=` of an attribute and its escaped value. */
  function EqualsText(w: string, v: string, e: string): string {
    w + (['='] + (v + (['"'] + (e + ['"']))))
  }

  function LaidAttribute(name: string, e: string, l: AttributeLayout): string {
    l.lead + (name + EqualsText(l.before, l.after, e))
  }

  function LaidAttributes(attributes: seq<Attr>, ls: seq<AttributeLayout>): string
    requires |attributes| == |ls|
  {
    if attributes == [] then []
    else LaidAttribute(NameOf(attributes[0].name), Escaped(attributes[0].value, true), ls[0]) + LaidAttributes(attributes[1..], ls[1..])
  }

  function Tail(hasChildren: bool): string { if hasChildren then ['>'] else ['/', '>'] }

  function LaidStart(name: string, attributes: seq<Attr>, l: NodeLayout, hasChildren: bool): string
    requires |attributes| == |l.attributes|
  {
    ['<'] + (name + (LaidAttributes(attributes, l.attributes) + (l.close + Tail(hasChildren))))
  }

  function LaidEnd(name: string, w: string): string {
    ['<', '/'] + (name + (w + ['>']))
  }

  /** A text is directly before the start tag of `k`: anything put there would belong to the text. */
  ghost predicate AfterText(s: Shape, items: seq<Item>, k: int)
    requires IsDocument(s, items) && s.Has(k)
  {
    s.prev[k] != -1 && s.Has(s.prev[k]) && items[s.prev[k]].kind == Pcdata
  }

  ghost predicate EndsInText(s: Shape, items: seq<Item>, p: int)
    requires IsDocument(s, items) && s.Has(p)
  {
    s.last[p] != -1 && s.Has(s.last[p]) && items[s.last[p]].kind == Pcdata
  }

  /** What is written for node `k` up to its children. */
  ghost function Own(s: Shape, items: seq<Item>, layout: seq<NodeLayout>, k: int): string
    requires IsDocument(s, items) && IsLayout(layout, items) && s.Has(k)
  {
    var x := items[k];
    if x.kind == Pcdata then Escaped(Text(x.value), false)
    else if x.kind == Element then
      (if AfterText(s, items, k) then [] else layout[k].lead) + LaidStart(NameOf(x.name), x.attributes, layout[k], HasChildren(s, k))
    else []
  }

  /** The end tag of `p`. */
  ghost function EndOf(s: Shape, items: seq<Item>, layout: seq<NodeLayout>, p: int): string
    requires IsDocument(s, items) && IsLayout(layout, items) && s.Has(p)
  {
    if items[p].kind == Element then
      (if EndsInText(s, items, p) then [] else layout[p].beforeEnd) + LaidEnd(NameOf(items[p].name), layout[p].inEnd)
    else []
  }

  ghost function LaidClimb(s: Shape, items: seq<Item>, layout: seq<NodeLayout>, i: int): string
    requires IsDocument(s, items) && IsLayout(layout, items) && s.Has(i)
    decreases i
  {
    if i == 0 || s.NextSibling(i) != -1 then []
    else EndOf(s, items, layout, s.par[i]) + LaidClimb(s, items, layout, s.par[i])
  }

  /** The document from node `k` on. */
  ghost function LaidFrom(s: Shape, items: seq<Item>, layout: seq<NodeLayout>, k: nat): string
    requires IsDocument(s, items) && IsLayout(layout, items) && k <= |items|
    decreases |items| - k
  {
    if k == |items| then []
    else Own(s, items, layout, k) + ((if HasChildren(s, k) then [] else LaidClimb(s, items, layout, k)) + LaidFrom(s, items, layout, k + 1))
  }

  // ---------- white space is skipped ----------

  lemma {:induction false} RunSkipped(text: string, i: nat, w: string, j: nat)
    requires Stands(text, i, w) && Blank(w) && j == i + |w|
    ensures j <= |text| && SkipWs(text, i) == SkipWs(text, j)
    decreases |w|
  {
    if w != [] {
      StandsAt(text, i, w, 0);
      HeadAndTail(w);
      StandsSplit(text, i, [w[0]], w[1..]);
      RunSkipped(text, i + 1, w[1..], j);
    }
  }

  lemma RunEnds(text: string, i: nat, w: string, j: nat)
    requires Stands(text, i, w) && Blank(w) && j == i + |w| && !IsSpace(Peek(text, j))
    ensures j <= |text| && SkipWs(text, i) == j
    ensures w != [] ==> IsSpace(Peek(text, i)) && !IsSymbol(Peek(text, i))
    ensures w == [] ==> i == j
  {
    RunSkipped(text, i, w, j);
    if w != [] {
      StandsAt(text, i, w, 0);
    }
  }

  /** Outside tags, before a tag. */
  lemma GapSkipped(text: string, i: nat, w: string, j: nat, items: seq<Item>, cursor: nat)
    requires Cursor(items, cursor) && Stands(text, i, w) && Blank(w) && j == i + |w| && Peek(text, j) == '<'
    ensures j <= |text| && Content(text, i, items, cursor) == Content(text, j, items, cursor)
  {
    RunEnds(text, i, w, j);
  }

  /** And at the end. */
  lemma EndSkipped(text: string, i: nat, w: string, j: nat, items: seq<Item>)
    requires Cursor(items, 0) && Stands(text, i, w) && Blank(w) && j == i + |w| && Peek(text, j) == '\0'
    ensures Content(text, i, items, 0) == Parsed(items)
  {
    RunEnds(text, i, w, j);
  }

  // ---------- attributes ----------

  /** Three pieces side by side. */
  lemma SplitThree(text: string, i: nat, a: string, b: string, c: string) returns (j: nat, k: nat)
    requires Stands(text, i, a + (b + c))
    ensures Stands(text, i, a) && j == i + |a| && Stands(text, j, b) && k == j + |b| && Stands(text, k, c) && k + |c| == i + |a + (b + c)| <= |text|
  {
    StandsSplit(text, i, a, b + c);
    j := i + |a|;
    StandsSplit(text, j, b, c);
    k := j + |b|;
  }

  /** From the blanks before `=` on: `=` is at `k`, the opening quote at `q`. */
  lemma EqualsPlaces(text: string, j: nat, w: string, v: string, e: string) returns (k: nat, q: nat)
    requires Stands(text, j, EqualsText(w, v, e))
    ensures Stands(text, j, w) && k == j + |w| && k < |text| && Peek(text, k) == '='
    ensures Stands(text, k + 1, v) && q == k + 1 + |v| && Peek(text, q) == '"'
    ensures Stands(text, q + 1, e) && Peek(text, q + 1 + |e|) == '"' && q + 2 + |e| == j + |EqualsText(w, v, e)| <= |text|
  {
    var k1;
    k, k1 := SplitThree(text, j, w, ['='], v + (['"'] + (e + ['"'])));
    StandsAt(text, k, ['='], 0);
    StandsSplit(text, k1, v, ['"'] + (e + ['"']));
    q := k1 + |v|;
    ValuePlaces(text, q, e);
  }

  lemma ValuePlaces(text: string, q: nat, e: string)
    requires Stands(text, q, ['"'] + (e + ['"']))
    ensures Peek(text, q) == '"' && Stands(text, q + 1, e) && Peek(text, q + 1 + |e|) == '"' && q + 2 + |e| <= |text|
  {
    StandsSplit(text, q, ['"'], e + ['"']);
    StandsAt(text, q, ['"'], 0);
    StandsSplit(text, q + 1, e, ['"']);
    StandsAt(text, q + 1 + |e|, ['"'], 0);
  }

  /** Reading an attribute, once it is known where its parts are. */
  lemma ReadFrom(text: string, n: nat, j: nat, k: nat, q: nat)
    requires n <= j <= k < |text| && SymbolEnd(text, n) == j && (if IsSpace(Peek(text, j)) then SkipWs(text, j) else j) == k
    requires Peek(text, k) == '=' && SkipWs(text, k + 1) == q && Peek(text, q) == '"'
    ensures var r := AttributeValue(text, q + 1, '"');
      ReadAttribute(text, n) == if r.Unclosed? || IsStartSymbol(Peek(text, r.next)) then Malformed else Read(text[n..j], r.out, r.next)
  {
  }

  lemma ReadSpaced(text: string, n: nat, j: nat, k: nat, q: nat, out: string, next: nat)
    requires n <= j <= |text| && SymbolEnd(text, n) == j && SkipWs(text, j) == k && Peek(text, k) == '=' && k < |text|
    requires SkipWs(text, k + 1) == q && Peek(text, q) == '"'
    requires AttributeValue(text, q + 1, '"') == Done(next, out) && !IsStartSymbol(Peek(text, next))
    ensures ReadAttribute(text, n) == Read(text[n..j], out, next)
  {
    assert IsSpace(Peek(text, j)) || k == j;
    ReadFrom(text, n, j, k, q);
  }

  lemma NameStops(text: string, n: nat, name: string, j: nat)
    requires LegalName(name) && Stands(text, n, name) && j == n + |name| && !IsSymbol(Peek(text, j))
    ensures n < j <= |text| && IsStartSymbol(Peek(text, n)) && !IsSpace(Peek(text, n)) && SymbolEnd(text, n) == j && text[n..j] == name
  {
    NameRead(text, n, name, j);
  }

  /** The blanks around `=` are skipped. */
  lemma EqualsSkipped(text: string, j: nat, w: string, v: string, e: string) returns (k: nat, q: nat)
    requires Blank(w) && Blank(v) && Stands(text, j, EqualsText(w, v, e))
    ensures j <= k < |text| && !IsSymbol(Peek(text, j)) && SkipWs(text, j) == k && Peek(text, k) == '='
    ensures SkipWs(text, k + 1) == q && Peek(text, q) == '"' && Stands(text, q + 1, e) && Peek(text, q + 1 + |e|) == '"'
    ensures j < q + 2 + |e| == j + |EqualsText(w, v, e)| <= |text|
  {
    k, q := EqualsPlaces(text, j, w, v, e);
    RunEnds(text, j, w, k);
    RunEnds(text, k + 1, v, q);
  }

  /** Name, `=` and value, with blanks around the `=`. */
  lemma AttributeRun(text: string, n: nat, name: string, value: string, j: nat, w: string, v: string, e: string, next: nat)
    requires LegalName(name) && '\0' !in value && '\t' !in value && e == Escaped(value, true) && Blank(w) && Blank(v)
    requires Stands(text, n, name) && j == n + |name| && Stands(text, j, EqualsText(w, v, e))
    requires next == j + |EqualsText(w, v, e)| && !IsStartSymbol(Peek(text, next))
    ensures n < next <= |text| && IsStartSymbol(Peek(text, n)) && !IsSpace(Peek(text, n)) && ReadAttribute(text, n) == Read(name, value, next)
  {
    var k, q := EqualsSkipped(text, j, w, v, e);
    ValueMet(text, q + 1, value, e, next);
    NameStops(text, n, name, j);
    ReadSpaced(text, n, j, k, q, value, next);
  }

  /** A laid-out attribute takes the loop one turn further. */
  lemma AttributeTaken(text: string, i: nat, items: seq<Item>, cursor: nat, name: string, value: string, e: string, l: AttributeLayout, next: nat)
    requires Cursor(items, cursor) && LegalName(name) && '\0' !in value && '\t' !in value && e == Escaped(value, true) && WhiteAttribute(l)
    requires Stands(text, i, LaidAttribute(name, e, l)) && next == i + |LaidAttribute(name, e, l)| && !IsStartSymbol(Peek(text, next))
    ensures i <= next <= |text| && IsSpace(Peek(text, i))
    ensures Attributes(text, i, items, cursor) == Attributes(text, next, WithAttribute(items, cursor, name, value), cursor)
  {
    var n, j := SplitThree(text, i, l.lead, name, EqualsText(l.before, l.after, e));
    AttributeRun(text, n, name, value, j, l.before, l.after, e, next);
    RunEnds(text, i, l.lead, n);
    Taken(text, i, n, items, cursor, name, value, next);
  }

  lemma Taken(text: string, i: nat, n: nat, items: seq<Item>, cursor: nat, name: string, value: string, next: nat)
    requires Cursor(items, cursor) && i <= n <= |text| && SkipWs(text, i) == n && IsStartSymbol(Peek(text, n))
    requires ReadAttribute(text, n) == Read(name, value, next) && i < next <= |text|
    ensures Attributes(text, i, items, cursor) == Attributes(text, next, WithAttribute(items, cursor, name, value), cursor)
  {
  }

  lemma SpaceFirst(text: string, j: nat, attributes: seq<Attr>, ls: seq<AttributeLayout>)
    requires |attributes| == |ls| && (forall l <- ls :: WhiteAttribute(l)) && Stands(text, j, LaidAttributes(attributes, ls))
    ensures attributes != [] ==> IsSpace(Peek(text, j)) && !IsStartSymbol(Peek(text, j))
  {
    if attributes != [] {
      var w := ls[0].lead;
      assert ls[0] in ls;
      assert LaidAttributes(attributes, ls)[0] == w[0];
      StandsAt(text, j, LaidAttributes(attributes, ls), 0);
    }
  }

  lemma {:induction false} AttributesTaken(text: string, i: nat, items: seq<Item>, cursor: nat, attributes: seq<Attr>, ls: seq<AttributeLayout>, end: nat)
    requires Cursor(items, cursor) && (forall a <- attributes :: LegalAttribute(a))
    requires |attributes| == |ls| && (forall l <- ls :: WhiteAttribute(l)) && Stands(text, i, LaidAttributes(attributes, ls))
    requires end == i + |LaidAttributes(attributes, ls)| && !IsStartSymbol(Peek(text, end))
    ensures i <= end <= |text|
    ensures Attributes(text, i, items, cursor) == Attributes(text, end, WithAttributes(items, cursor, attributes), cursor)
    decreases |attributes|
  {
    if attributes == [] {
      WithNone(items, cursor);
    } else {
      var a, rest, l := attributes[0], attributes[1..], ls[0];
      assert a in attributes && l in ls;
      var piece := LaidAttribute(a.name.value, Escaped(a.value, true), l);
      StandsSplit(text, i, piece, LaidAttributes(rest, ls[1..]));
      var j := i + |piece|;
      SpaceFirst(text, j, rest, ls[1..]);
      AttributeTaken(text, i, items, cursor, a.name.value, a.value, Escaped(a.value, true), l, j);
      AttributesTaken(text, j, WithAttribute(items, cursor, a.name.value, a.value), cursor, rest, ls[1..], end);
      WithOneMore(items, cursor, attributes);
    }
  }

  // ---------- tags ----------

  lemma TagBySpace(text: string, s: nat, items: seq<Item>, cursor: nat, j: nat, more: seq<Item>)
    requires Cursor(items, cursor) && 0 < s <= |text| && IsStartSymbol(Peek(text, s)) && SymbolEnd(text, s) == j && IsSpace(Peek(text, j))
    requires more == items + [NewElement(cursor, text[s..j])] && Cursor(more, |items|)
    ensures j <= |text| && Tag(text, s, items, cursor) == Attributes(text, j, more, |items|)
  {
    TagOpens(text, s, items, cursor, j, more);
    SkipBlank(text, j, more, |items|);
  }

  lemma TagByEnd(text: string, s: nat, items: seq<Item>, cursor: nat, j: nat, more: seq<Item>, hasChildren: bool)
    requires Cursor(items, cursor) && 0 < s <= |text| && IsStartSymbol(Peek(text, s)) && SymbolEnd(text, s) == j && Closes(text, j, hasChildren)
    requires more == items + [NewElement(cursor, text[s..j])] && Cursor(more, |items|) && Pop(more, |items|) == cursor
    ensures j <= |text| && Tag(text, s, items, cursor) == Attributes(text, j, more, |items|)
  {
    TagOpens(text, s, items, cursor, j, more);
    AttributesEnd(text, j, more, |items|, hasChildren);
  }

  /** Whatever ends the name of a start tag, the tag goes on as its attributes do. */
  lemma TagGoesOn(text: string, i: nat, items: seq<Item>, cursor: nat, name: string, j: nat, more: seq<Item>, hasChildren: bool)
    requires Cursor(items, cursor) && LegalName(name) && Peek(text, i) == '<' && Stands(text, i + 1, name) && j == i + 1 + |name|
    requires IsSpace(Peek(text, j)) || Closes(text, j, hasChildren)
    requires more == items + [NewElement(cursor, name)]
    ensures Cursor(more, |items|) && j <= |text|
    ensures Content(text, i, items, cursor) == Attributes(text, j, more, |items|)
  {
    NameRead(text, i + 1, name, j);
    ContentTag(text, i, items, cursor);
    AfterTagName(text, i + 1, items, cursor, j, more, hasChildren);
  }

  lemma AfterTagName(text: string, s: nat, items: seq<Item>, cursor: nat, j: nat, more: seq<Item>, hasChildren: bool)
    requires Cursor(items, cursor) && 0 < s <= |text| && IsStartSymbol(Peek(text, s)) && SymbolEnd(text, s) == j
    requires IsSpace(Peek(text, j)) || Closes(text, j, hasChildren)
    requires more == items + [NewElement(cursor, text[s..j])]
    ensures Cursor(more, |items|) && j <= |text| && Tag(text, s, items, cursor) == Attributes(text, j, more, |items|)
  {
    MoreItems(items, cursor, NewElement(cursor, text[s..j]));
    if IsSpace(Peek(text, j)) {
      TagBySpace(text, s, items, cursor, j, more);
    } else {
      TagByEnd(text, s, items, cursor, j, more, hasChildren);
    }
  }

  /** The end of a start tag. */
  lemma TagCloses(text: string, k: nat, w: string, c: nat, items: seq<Item>, cursor: nat, hasChildren: bool)
    requires Cursor(items, cursor) && Stands(text, k, w) && Blank(w) && c == k + |w| && Closes(text, c, hasChildren)
    ensures k <= |text| && Past(c, hasChildren) <= |text| && !IsStartSymbol(Peek(text, k))
    ensures Attributes(text, k, items, cursor) == Content(text, Past(c, hasChildren), items, if hasChildren then cursor else Pop(items, cursor))
  {
    RunEnds(text, k, w, c);
  }

  /** The places in a laid-out start tag: the name ends at `j`, the attributes at `k`, `>` or `/>` is at `c`. */
  lemma StartPlaces(text: string, i: nat, name: string, attributes: seq<Attr>, l: NodeLayout, hasChildren: bool) returns (j: nat, k: nat, c: nat)
    requires |attributes| == |l.attributes| && Stands(text, i, LaidStart(name, attributes, l, hasChildren))
    ensures Peek(text, i) == '<' && Stands(text, i + 1, name) && j == i + 1 + |name|
    ensures Stands(text, j, LaidAttributes(attributes, l.attributes)) && k == j + |LaidAttributes(attributes, l.attributes)|
    ensures Stands(text, k, l.close) && c == k + |l.close| && Closes(text, c, hasChildren)
    ensures Past(c, hasChildren) == i + |LaidStart(name, attributes, l, hasChildren)| <= |text|
  {
    j, k, c := TagPlaces(text, i, name, LaidAttributes(attributes, l.attributes), l.close, Tail(hasChildren));
    TailCloses(text, c, hasChildren);
  }

  lemma TagPlaces(text: string, i: nat, name: string, inner: string, w: string, tail: string) returns (j: nat, k: nat, c: nat)
    requires Stands(text, i, ['<'] + (name + (inner + (w + tail))))
    ensures Peek(text, i) == '<' && Stands(text, i + 1, name) && j == i + 1 + |name|
    ensures Stands(text, j, inner) && k == j + |inner| && Stands(text, k, w) && c == k + |w| && Stands(text, c, tail)
    ensures c + |tail| == i + |['<'] + (name + (inner + (w + tail)))| <= |text|
  {
    var n;
    n, j := SplitThree(text, i, ['<'], name, inner + (w + tail));
    StandsAt(text, i, ['<'], 0);
    k, c := SplitThree(text, j, inner, w, tail);
  }

  /** What follows the name: a blank, or the end of the tag. */
  lemma NameFollowed(text: string, j: nat, attributes: seq<Attr>, l: NodeLayout, k: nat, c: nat, hasChildren: bool)
    requires |attributes| == |l.attributes| && (forall a <- l.attributes :: WhiteAttribute(a)) && Blank(l.close)
    requires Stands(text, j, LaidAttributes(attributes, l.attributes)) && k == j + |LaidAttributes(attributes, l.attributes)|
    requires Stands(text, k, l.close) && c == k + |l.close| && Closes(text, c, hasChildren)
    ensures IsSpace(Peek(text, j)) || Closes(text, j, hasChildren)
  {
    SpaceFirst(text, j, attributes, l.attributes);
    RunEnds(text, k, l.close, c);
  }

  /** A laid-out start tag adds its element to the tree. */
  lemma StartTaken(text: string, i: nat, items: seq<Item>, cursor: nat, x: Item, l: NodeLayout, hasChildren: bool, next: nat)
    requires Cursor(items, cursor) && LegalItem(x) && x.kind == Element && x.parent == cursor && WhiteNode(l, x)
    requires Stands(text, i, LaidStart(x.name.value, x.attributes, l, hasChildren)) && next == i + |LaidStart(x.name.value, x.attributes, l, hasChildren)|
    ensures next <= |text| && Cursor(items + [x], cursor) && Cursor(items + [x], |items|)
    ensures Content(text, i, items, cursor) == Content(text, next, items + [x], if hasChildren then |items| else cursor)
  {
    var j, k, c := StartPlaces(text, i, x.name.value, x.attributes, l, hasChildren);
    NameFollowed(text, j, x.attributes, l, k, c, hasChildren);
    StartJoined(text, i, items, cursor, x, l, hasChildren, j, k, c);
  }

  lemma StartJoined(text: string, i: nat, items: seq<Item>, cursor: nat, x: Item, l: NodeLayout, hasChildren: bool, j: nat, k: nat, c: nat)
    requires Cursor(items, cursor) && LegalItem(x) && x.kind == Element && x.parent == cursor && WhiteNode(l, x)
    requires Peek(text, i) == '<' && Stands(text, i + 1, x.name.value) && j == i + 1 + |x.name.value|
    requires IsSpace(Peek(text, j)) || Closes(text, j, hasChildren)
    requires Stands(text, j, LaidAttributes(x.attributes, l.attributes)) && k == j + |LaidAttributes(x.attributes, l.attributes)|
    requires Stands(text, k, l.close) && c == k + |l.close| && Closes(text, c, hasChildren)
    ensures Past(c, hasChildren) <= |text| && Cursor(items + [x], cursor) && Cursor(items + [x], |items|)
    ensures Content(text, i, items, cursor) == Content(text, Past(c, hasChildren), items + [x], if hasChildren then |items| else cursor)
  {
    MoreItems(items, cursor, x);
    TagCloses(text, k, l.close, c, items + [x], |items|, hasChildren);
    NameAndAttributes(text, i, items, cursor, x, l, j, k, hasChildren);
  }

  lemma NameAndAttributes(text: string, i: nat, items: seq<Item>, cursor: nat, x: Item, l: NodeLayout, j: nat, k: nat, hasChildren: bool)
    requires Cursor(items, cursor) && LegalItem(x) && x.kind == Element && x.parent == cursor && WhiteNode(l, x)
    requires Peek(text, i) == '<' && Stands(text, i + 1, x.name.value) && j == i + 1 + |x.name.value|
    requires IsSpace(Peek(text, j)) || Closes(text, j, hasChildren)
    requires Stands(text, j, LaidAttributes(x.attributes, l.attributes)) && k == j + |LaidAttributes(x.attributes, l.attributes)|
    requires !IsStartSymbol(Peek(text, k))
    ensures k <= |text| && Cursor(items + [x], |items|) && Content(text, i, items, cursor) == Attributes(text, k, items + [x], |items|)
  {
    var name := x.name.value;
    var more := items + [NewElement(cursor, name)];
    WithAll(items, cursor, name, x.attributes);
    assert x == NewElement(cursor, name).(attributes := x.attributes);
    TagGoesOn(text, i, items, cursor, name, j, more, hasChildren);
    AttributesTaken(text, j, more, |items|, x.attributes, l.attributes, k);
  }

  /** A laid-out end tag. */
  lemma EndTaken(text: string, i: nat, items: seq<Item>, cursor: nat, name: string, w: string, next: nat)
    requires Cursor(items, cursor) && items[cursor].name == Some(name) && LegalName(name) && Blank(w)
    requires Stands(text, i, LaidEnd(name, w)) && next == i + |LaidEnd(name, w)|
    ensures next <= |text| && Peek(text, i) == '<'
    ensures Content(text, i, items, cursor) == Content(text, next, items, Pop(items, cursor))
  {
    var j, k := EndPlaces(text, i, name, w);
    RunEnds(text, j, w, k);
    NameRead(text, i + 2, name, j);
    EndRead(text, i, items, cursor, j, k);
  }

  lemma EndPlaces(text: string, i: nat, name: string, w: string) returns (j: nat, k: nat)
    requires Stands(text, i, LaidEnd(name, w))
    ensures Peek(text, i) == '<' && Peek(text, i + 1) == '/' && Stands(text, i + 2, name) && j == i + 2 + |name|
    ensures Stands(text, j, w) && k == j + |w| && Peek(text, k) == '>' && k + 1 == i + |LaidEnd(name, w)| <= |text|
  {
    var n;
    n, j := SplitThree(text, i, ['<', '/'], name, w + ['>']);
    StandsAt(text, i, ['<', '/'], 0);
    StandsAt(text, i, ['<', '/'], 1);
    StandsSplit(text, j, w, ['>']);
    k := j + |w|;
    StandsAt(text, k, ['>'], 0);
  }

  lemma EndRead(text: string, i: nat, items: seq<Item>, cursor: nat, j: nat, k: nat)
    requires Cursor(items, cursor) && Peek(text, i) == '<' && Peek(text, i + 1) == '/' && i + 2 <= j <= |text| && SymbolEnd(text, i + 2) == j
    requires items[cursor].name == Some(text[i + 2..j]) && SkipWs(text, j) == k && Peek(text, k) == '>'
    ensures k < |text| && Content(text, i, items, cursor) == Content(text, k + 1, items, Pop(items, cursor))
  {
    assert Content(text, i, items, cursor) == Tag(text, i + 1, items, cursor);
    assert Tag(text, i + 1, items, cursor) == EndTag(text, i + 2, items, cursor);
  }

  // ---------- nodes ----------

  lemma EndOfIs(s: Shape, items: seq<Item>, layout: seq<NodeLayout>, c: nat) returns (gap: string, name: string, end: string)
    requires Legal(s, items) && IsLayout(layout, items) && 1 <= c < |items| && items[c].kind == Element
    ensures Blank(gap) && Blank(layout[c].inEnd) && LegalName(name) && items[c].name == Some(name)
    ensures end == LaidEnd(name, layout[c].inEnd) && EndOf(s, items, layout, c) == gap + end
    ensures EndsInText(s, items, c) ==> gap == []
  {
    assert LegalItem(items[c]) && WhiteNode(layout[c], items[c]);
    gap, name := if EndsInText(s, items, c) then [] else layout[c].beforeEnd, items[c].name.value;
    end := LaidEnd(name, layout[c].inEnd);
  }

  lemma GapAndEnd(text: string, p: nat, gap: string, name: string, w: string, end: string, items: seq<Item>, cursor: nat, q: nat)
    requires Cursor(items, cursor) && items[cursor].name == Some(name) && LegalName(name) && Blank(gap) && Blank(w) && end == LaidEnd(name, w)
    requires Stands(text, p, gap + end) && q == p + |gap + end|
    ensures p <= |text| && q <= |text| && Content(text, p, items, cursor) == Content(text, q, items, Pop(items, cursor))
  {
    StandsSplit(text, p, gap, end);
    EndTaken(text, p + |gap|, items, cursor, name, w, q);
    GapSkipped(text, p, gap, p + |gap|, items, cursor);
  }

  /** Parents of nodes before `k`, as the parser knows them. */
  lemma Above(s: Shape, items: seq<Item>, k: nat, j: int)
    requires Legal(s, items) && 0 < j < k <= |items| && s.par[j] > 0
    ensures 0 <= s.par[s.par[j]] && items[s.par[j]].kind == Element && Cursor(items[..k], s.par[j]) && Cursor(items[..k], s.par[s.par[j]])
    ensures items[..k][s.par[j]] == items[s.par[j]] && Pop(items[..k], s.par[j]) == s.par[s.par[j]]
  {
    var c := s.par[j];
    ParentIs(s, items, j);
    ParentIs(s, items, c);
    PrefixCursor(s, items, k, c);
    PrefixCursor(s, items, k, s.par[c]);
    assert InPlace(s, items, j) && LegalItem(items[c]);
  }

  /** An end tag with what stands before it. */
  lemma EndOfTaken(text: string, p: nat, s: Shape, items: seq<Item>, layout: seq<NodeLayout>, k: nat, j: int, q: nat)
    requires Legal(s, items) && IsLayout(layout, items) && 0 < j < k <= |items| && s.par[j] > 0
    requires Stands(text, p, EndOf(s, items, layout, s.par[j])) && q == p + |EndOf(s, items, layout, s.par[j])|
    ensures 0 <= s.par[s.par[j]] && Cursor(items[..k], s.par[j]) && Cursor(items[..k], s.par[s.par[j]]) && p <= |text| && q <= |text|
    ensures Content(text, p, items[..k], s.par[j]) == Content(text, q, items[..k], s.par[s.par[j]])
  {
    Above(s, items, k, j);
    var gap, name, end := EndOfIs(s, items, layout, s.par[j]);
    GapAndEnd(text, p, gap, name, layout[s.par[j]].inEnd, end, items[..k], s.par[j], q);
  }

  lemma ClimbPlaces(text: string, p: nat, s: Shape, items: seq<Item>, layout: seq<NodeLayout>, j: int, q: nat) returns (m: nat)
    requires Legal(s, items) && IsLayout(layout, items) && 0 < j < |items|
    requires Stands(text, p, LaidClimb(s, items, layout, j)) && q == p + |LaidClimb(s, items, layout, j)|
    ensures 0 <= s.par[j] < j
    ensures s.NextSibling(j) != -1 || s.par[j] == 0 ==> q == p && q <= |text| && After(s, j) == s.par[j]
    ensures s.NextSibling(j) == -1 && s.par[j] > 0 ==>
      Stands(text, p, EndOf(s, items, layout, s.par[j])) && m == p + |EndOf(s, items, layout, s.par[j])| &&
      Stands(text, m, LaidClimb(s, items, layout, s.par[j])) && q == m + |LaidClimb(s, items, layout, s.par[j])| && After(s, j) == After(s, s.par[j])
  {
    ParentIs(s, items, j);
    assert items[0].kind == Document;
    m := p;
    if s.NextSibling(j) == -1 {
      var e := EndOf(s, items, layout, s.par[j]);
      StandsSplit(text, p, e, LaidClimb(s, items, layout, s.par[j]));
      m := p + |e|;
    }
  }

  lemma {:induction false} ClimbTaken(text: string, p: nat, s: Shape, items: seq<Item>, layout: seq<NodeLayout>, k: nat, j: int, q: nat)
    requires Legal(s, items) && IsLayout(layout, items) && 0 < j < k <= |items|
    requires Stands(text, p, LaidClimb(s, items, layout, j)) && q == p + |LaidClimb(s, items, layout, j)|
    ensures 0 <= s.par[j] && Cursor(items[..k], s.par[j]) && Cursor(items[..k], After(s, j)) && p <= |text| && q <= |text|
    ensures Content(text, p, items[..k], s.par[j]) == Content(text, q, items[..k], After(s, j))
    decreases j
  {
    var m := ClimbPlaces(text, p, s, items, layout, j, q);
    var c := s.par[j];
    PrefixCursor(s, items, k, c);
    if s.NextSibling(j) == -1 && c > 0 {
      EndOfTaken(text, p, s, items, layout, k, j, m);
      ClimbTaken(text, m, s, items, layout, k, c, q);
    }
  }

  lemma OwnIsTag(s: Shape, items: seq<Item>, layout: seq<NodeLayout>, k: nat) returns (gap: string, tag: string)
    requires Legal(s, items) && IsLayout(layout, items) && 1 <= k < |items| && items[k].kind == Element
    ensures items[k].name.Some? && |items[k].attributes| == |layout[k].attributes|
    ensures gap == (if AfterText(s, items, k) then [] else layout[k].lead) && Blank(gap)
    ensures tag == LaidStart(items[k].name.value, items[k].attributes, layout[k], HasChildren(s, k)) && Own(s, items, layout, k) == gap + tag
    ensures tag[0] == '<' && |tag| > 1 && tag[1] != '\0'
  {
    assert LegalItem(items[k]) && WhiteNode(layout[k], items[k]);
    gap := if AfterText(s, items, k) then [] else layout[k].lead;
    tag := LaidStart(items[k].name.value, items[k].attributes, layout[k], HasChildren(s, k));
    assert tag[1] == items[k].name.value[0];
  }

  lemma GapAndStart(text: string, i: nat, gap: string, tag: string, items: seq<Item>, cursor: nat, x: Item, l: NodeLayout, hasChildren: bool, m: nat)
    requires Cursor(items, cursor) && LegalItem(x) && x.kind == Element && x.parent == cursor && WhiteNode(l, x) && Blank(gap)
    requires tag == LaidStart(x.name.value, x.attributes, l, hasChildren) && tag[0] == '<' && Stands(text, i, gap + tag) && m == i + |gap + tag|
    ensures i <= |text| && m <= |text| && Cursor(items + [x], cursor) && Cursor(items + [x], |items|)
    ensures Content(text, i, items, cursor) == Content(text, m, items + [x], if hasChildren then |items| else cursor)
  {
    StandsSplit(text, i, gap, tag);
    StandsAt(text, i + |gap|, tag, 0);
    StartTaken(text, i + |gap|, items, cursor, x, l, hasChildren, m);
    GapSkipped(text, i, gap, i + |gap|, items, cursor);
  }

  /** The start tag of an element, with what stands before it. */
  lemma ElementTaken(text: string, i: nat, s: Shape, items: seq<Item>, layout: seq<NodeLayout>, k: nat, m: nat)
    requires Legal(s, items) && IsLayout(layout, items) && 1 <= k < |items| && items[k].kind == Element
    requires Stands(text, i, Own(s, items, layout, k)) && m == i + |Own(s, items, layout, k)|
    ensures i <= |text| && m <= |text| && 0 <= s.par[k] < k && Cursor(items[..k], s.par[k]) && Cursor(items[..k + 1], if HasChildren(s, k) then k else s.par[k])
    ensures Content(text, i, items[..k], s.par[k]) == Content(text, m, items[..k + 1], if HasChildren(s, k) then k else s.par[k])
  {
    var gap, tag := OwnIsTag(s, items, layout, k);
    Known(s, items, k);
    Snoc(items, k);
    assert WhiteNode(layout[k], items[k]);
    GapAndStart(text, i, gap, tag, items[..k], s.par[k], items[k], layout[k], HasChildren(s, k), m);
  }

  /** The parts of what is written from node `k` on: its own text up to `m`, end tags up to `q`. */
  lemma NodePlaces(text: string, i: nat, s: Shape, items: seq<Item>, layout: seq<NodeLayout>, k: nat) returns (m: nat, ends: string, q: nat)
    requires IsDocument(s, items) && IsLayout(layout, items) && k < |items| && Stands(text, i, LaidFrom(s, items, layout, k))
    ensures Stands(text, i, Own(s, items, layout, k)) && m == i + |Own(s, items, layout, k)|
    ensures ends == (if HasChildren(s, k) then [] else LaidClimb(s, items, layout, k)) && Stands(text, m, ends) && q == m + |ends|
    ensures Stands(text, q, LaidFrom(s, items, layout, k + 1)) && q + |LaidFrom(s, items, layout, k + 1)| == i + |LaidFrom(s, items, layout, k)|
  {
    ends := if HasChildren(s, k) then [] else LaidClimb(s, items, layout, k);
    m, q := SplitThree(text, i, Own(s, items, layout, k), ends, LaidFrom(s, items, layout, k + 1));
  }

  /** A text is followed by a tag at once. */
  lemma NextIsTag(text: string, m: nat, s: Shape, items: seq<Item>, layout: seq<NodeLayout>, k: nat, q: nat)
    requires Legal(s, items) && IsLayout(layout, items) && 1 <= k < |items| && items[k].kind == Pcdata && s.NextSibling(k) != -1
    requires q == m + |LaidClimb(s, items, layout, k)| && Stands(text, q, LaidFrom(s, items, layout, k + 1))
    ensures Peek(text, m) == '<' && Peek(text, m + 1) != '\0'
  {
    TextPlace(s, items, k);
    SiblingAfterText(s, items, layout, k);
    var gap, tag := OwnIsTag(s, items, layout, k + 1);
    var m1, ends, q1 := NodePlaces(text, q, s, items, layout, k + 1);
    BareTagStands(text, q, Own(s, items, layout, k + 1), gap, tag);
  }

  /** The sibling after a text follows it at once. */
  lemma SiblingAfterText(s: Shape, items: seq<Item>, layout: seq<NodeLayout>, k: nat)
    requires Legal(s, items) && IsLayout(layout, items) && 1 <= k < |items| && items[k].kind == Pcdata && s.NextSibling(k) == k + 1 < |items|
    ensures AfterText(s, items, k + 1) && LaidClimb(s, items, layout, k) == []
  {
    s.SiblingLinks(k);
  }

  lemma BareTagStands(text: string, q: nat, own: string, gap: string, tag: string)
    requires Stands(text, q, own) && own == gap + tag && gap == [] && |tag| > 1 && tag[0] == '<' && tag[1] != '\0'
    ensures Peek(text, q) == '<' && Peek(text, q + 1) != '\0'
  {
    assert own == tag;
    StandsAt(text, q, tag, 0);
    StandsAt(text, q, tag, 1);
  }

  lemma LastIsText(s: Shape, k: int)
    requires s.Valid() && 1 <= k < s.Size() && s.NextSibling(k) == -1
    ensures 0 <= s.par[k] && s.last[s.par[k]] == k
  {
    s.SiblingLinks(k);
  }

  lemma EndIsTag(text: string, m: nat, s: Shape, items: seq<Item>, layout: seq<NodeLayout>, k: nat, q: nat)
    requires Legal(s, items) && IsLayout(layout, items) && 1 <= k < |items| && items[k].kind == Pcdata && s.NextSibling(k) == -1
    requires Stands(text, m, LaidClimb(s, items, layout, k)) && q == m + |LaidClimb(s, items, layout, k)|
    ensures Peek(text, m) == '<' && Peek(text, m + 1) != '\0'
  {
    TextPlace(s, items, k);
    var c := s.par[k];
    var m2 := ClimbPlaces(text, m, s, items, layout, k, q);
    LastIsText(s, k);
    ParentIs(s, items, k);
    assert EndsInText(s, items, c) && InPlace(s, items, k) && LegalItem(items[c]);
    var gap, name, end := EndOfIs(s, items, layout, c);
    assert EndOf(s, items, layout, c) == end;
    StandsAt(text, m, end, 0);
    StandsAt(text, m, end, 1);
  }

  lemma TagNext(text: string, m: nat, s: Shape, items: seq<Item>, layout: seq<NodeLayout>, k: nat, q: nat)
    requires Legal(s, items) && IsLayout(layout, items) && 1 <= k < |items| && items[k].kind == Pcdata
    requires Stands(text, m, LaidClimb(s, items, layout, k)) && q == m + |LaidClimb(s, items, layout, k)| && Stands(text, q, LaidFrom(s, items, layout, k + 1))
    ensures Peek(text, m) == '<' && Peek(text, m + 1) != '\0'
  {
    if s.NextSibling(k) == -1 {
      EndIsTag(text, m, s, items, layout, k, q);
    } else {
      NextIsTag(text, m, s, items, layout, k, q);
    }
  }

  lemma TextTaken(text: string, i: nat, s: Shape, items: seq<Item>, layout: seq<NodeLayout>, k: nat, m: nat, q: nat)
    requires Legal(s, items) && IsLayout(layout, items) && 1 <= k < |items| && items[k].kind == Pcdata
    requires Stands(text, i, Own(s, items, layout, k)) && m == i + |Own(s, items, layout, k)|
    requires Stands(text, m, LaidClimb(s, items, layout, k)) && q == m + |LaidClimb(s, items, layout, k)| && Stands(text, q, LaidFrom(s, items, layout, k + 1))
    ensures i <= |text| && m <= |text| && 0 <= s.par[k] < k && Cursor(items[..k], s.par[k]) && Cursor(items[..k + 1], s.par[k])
    ensures Content(text, i, items[..k], s.par[k]) == Content(text, m, items[..k + 1], s.par[k])
  {
    Known(s, items, k);
    Snoc(items, k);
    TagNext(text, m, s, items, layout, k, q);
    TextNodeBack(text, i, items[..k], s.par[k], items[k], m);
  }

  /** Node `k` and the end tags after it. */
  lemma NodeTaken(text: string, i: nat, s: Shape, items: seq<Item>, layout: seq<NodeLayout>, k: nat) returns (q: nat)
    requires Legal(s, items) && IsLayout(layout, items) && 1 <= k < |items| && Stands(text, i, LaidFrom(s, items, layout, k))
    ensures Stands(text, q, LaidFrom(s, items, layout, k + 1)) && q + |LaidFrom(s, items, layout, k + 1)| == i + |LaidFrom(s, items, layout, k)|
    ensures Cursor(items[..k], Next(s, k)) && Cursor(items[..k + 1], Next(s, k + 1)) && i <= |text| && q <= |text|
    ensures Content(text, i, items[..k], Next(s, k)) == Content(text, q, items[..k + 1], Next(s, k + 1))
  {
    var m, ends;
    m, ends, q := NodePlaces(text, i, s, items, layout, k);
    Known(s, items, k);
    if items[k].kind == Element {
      ElementTaken(text, i, s, items, layout, k, m);
    } else {
      NoChildren(s, items, k);
      TextTaken(text, i, s, items, layout, k, m, q);
    }
    EndsTaken(text, s, items, layout, k, m, ends, q);
  }

  lemma EndsTaken(text: string, s: Shape, items: seq<Item>, layout: seq<NodeLayout>, k: nat, m: nat, ends: string, q: nat)
    requires Legal(s, items) && IsLayout(layout, items) && 1 <= k < |items| && m <= |text|
    requires 0 <= s.par[k] && Cursor(items[..k + 1], if HasChildren(s, k) then k else s.par[k])
    requires ends == (if HasChildren(s, k) then [] else LaidClimb(s, items, layout, k)) && Stands(text, m, ends) && q == m + |ends|
    ensures Cursor(items[..k + 1], Next(s, k + 1)) && q <= |text|
    ensures Content(text, m, items[..k + 1], if HasChildren(s, k) then k else s.par[k]) == Content(text, q, items[..k + 1], Next(s, k + 1))
  {
    if HasChildren(s, k) {
      assert k <= s.par[k + 1];
    } else {
      ClimbTaken(text, m, s, items, layout, k + 1, k, q);
      AfterIsNext(s, k, k + 1);
    }
  }

  // ---------- documents ----------

  lemma {:induction false} NodesTaken(text: string, i: nat, s: Shape, items: seq<Item>, layout: seq<NodeLayout>, k: nat, trail: string, end: nat)
    requires Legal(s, items) && IsLayout(layout, items) && 1 <= k <= |items| && Stands(text, i, LaidFrom(s, items, layout, k))
    requires end == i + |LaidFrom(s, items, layout, k)| && Stands(text, end, trail) && Blank(trail) && Peek(text, end + |trail|) == '\0'
    ensures i <= |text| && Cursor(items[..k], Next(s, k))
    ensures Content(text, i, items[..k], Next(s, k)) == Parsed(items)
    decreases |items| - k
  {
    if k == |items| {
      PrefixCursor(s, items, k, 0);
      assert items[..k] == items;
      EndSkipped(text, end, trail, end + |trail|, items);
    } else {
      var q := NodeTaken(text, i, s, items, layout, k);
      NodesTaken(text, q, s, items, layout, k + 1, trail, end);
    }
  }

  lemma RootIsBare(s: Shape, items: seq<Item>, layout: seq<NodeLayout>)
    requires Legal(s, items) && IsLayout(layout, items)
    ensures LaidFrom(s, items, layout, 0) == LaidFrom(s, items, layout, 1)
  {
    assert HasChildren(s, 0);
    var rest := LaidFrom(s, items, layout, 1);
    assert Own(s, items, layout, 0) == [];
    assert [] + ([] + rest) == rest;
  }

  /** Such a text begins with white space or a tag, not with a byte order mark. */
  lemma NoMarkFirst(text: string, s: Shape, items: seq<Item>, layout: seq<NodeLayout>)
    requires Legal(s, items) && IsLayout(layout, items) && Stands(text, 0, LaidFrom(s, items, layout, 1))
    ensures |text| > 0 && text[0] as nat < 128
  {
    FirstIsElement(s, items);
    var gap, tag := OwnIsTag(s, items, layout, 1);
    var m, ends, q := NodePlaces(text, 0, s, items, layout, 1);
    StandsSplit(text, 0, gap, tag);
    if gap == [] { StandsAt(text, 0, tag, 0); } else { StandsAt(text, 0, gap, 0); }
  }

  /** Every layout of a document is parsed into the document: whatever white space stands between its tags
      and inside them, before it and after it. */
  lemma LaidOutParses(s: Shape, items: seq<Item>, layout: seq<NodeLayout>, trail: string)
    requires Legal(s, items) && IsLayout(layout, items) && Blank(trail)
    ensures Parse(LaidFrom(s, items, layout, 0) + (trail + ['\0'])) == Parsed(items)
  {
    var body := LaidFrom(s, items, layout, 0);
    var text := body + (trail + ['\0']);
    RootIsBare(s, items, layout);
    var j, k := SplitThree(text, 0, body, trail, ['\0']);
    StandsAt(text, k, ['\0'], 0);
    NodesTaken(text, 0, s, items, layout, 1, trail, j);
    assert items[..1] == [ROOT];
    FirstIsElement(s, items);
    NoMarkFirst(text, s, items, layout);
    ParseIs(text, items, 1);
  }

  /** So the white space changes nothing: the document as it is printed gives the same. */
  lemma LayoutIrrelevant(s: Shape, items: seq<Item>, layout: seq<NodeLayout>, trail: string)
    requires Legal(s, items) && IsLayout(layout, items) && Blank(trail)
    ensures Parse(LaidFrom(s, items, layout, 0) + (trail + ['\0'])) == Parse(PrintedFrom(s, items, 0) + ['\0'])
  {
    LaidOutParses(s, items, layout, trail);
    PrintedParses(s, items);
  }

  // ---------- white space in values ----------

  /** Section 3.3.3 of XML 1.0: a line end, written in one character or two, a tab or a blank is one blank. */
  function Normalized(v: string): string {
    if v == [] then []
    else if v[0] == '\r' && |v| > 1 && v[1] == '\n' then [' '] + Normalized(v[2..])
    else [if v[0] == '\t' || v[0] == '\n' || v[0] == '\r' then ' ' else v[0]] + Normalized(v[1..])
  }

  /** An attribute value as it stands, without references, is read with its white space made blanks. */
  lemma {:induction false} ValueNormalized(text: string, i: nat, v: string, quote: char, q: nat)
    requires (quote == '"' || quote == '\'') && quote !in v && '&' !in v && '\0' !in v
    requires Stands(text, i, v) && q == i + |v| && Peek(text, q) == quote
    ensures AttributeValue(text, i, quote) == Done(q + 1, Normalized(v))
    decreases |v|
  {
    if v != [] {
      StandsAt(text, i, v, 0);
      HeadAndTail(v);
      StandsSplit(text, i, [v[0]], v[1..]);
      if |v| > 1 { StandsAt(text, i, v, 1); }
      if v[0] == '\r' && |v| > 1 && v[1] == '\n' {
        StandsSplit(text, i + 1, [v[1]], v[2..]);
        ValueNormalized(text, i + 2, v[2..], quote, q);
        assert v[1..] == [v[1]] + v[2..];
      } else {
        ValueNormalized(text, i + 1, v[1..], quote, q);
      }
    }
  }
}
