/** Saving a document in raw format and loading a copy of the text. */
module Reload {
  import opened Wrappers
  import opened Tree
  import opened Printer
  import opened RoundTrip
  import P = ParserInPlace
  import Strconv
  import U = Utf8
  import W = Writer

  /** The zero-terminated copy of a text that the parser works on. */
  method MutableCopy(text: string) returns (buf: array<char>)
    ensures fresh(buf) && buf[..] == text + ['\0']
  {
    buf := new char[|text| + 1];
    forall k | 0 <= k < |text| {
      buf[k] := text[k];
    }
    buf[|text|] := '\0';
    assert buf[..|text|] == text;
  }

  lemma NoNuls(s: Shape, items: seq<Item>, i: int)
    requires Legal(s, items) && 0 <= i < |items|
    ensures NoNul(items[i])
  {
    if i > 0 {
      assert LegalItem(items[i]);
      forall a | a in items[i].attributes
        ensures '\0' !in a.value
      {
        assert items[i].kind == Element ==> LegalAttribute(a);
      }
    }
  }

  lemma AllNoNul(s: Shape, items: seq<Item>)
    requires Legal(s, items)
    ensures forall i {:trigger items[i]} :: 0 <= i < |items| ==> NoNul(items[i])
  {
    forall i {:trigger items[i]} | 0 <= i < |items|
      ensures NoNul(items[i])
    {
      NoNuls(s, items, i);
    }
  }

  /** What a legal document prints is parsed into nodes that hold, in the same order and under the same
      parents, what the document's nodes hold. */
  method SaveAndLoad(root: Node, ghost nodes: seq<Node>, ghost s: Shape, ghost items: seq<Item>)
    returns (buf: array<char>, answer: P.Answer)
    requires Shows(nodes, s, items) && Legal(s, items) && root == nodes[0]
    ensures answer.Tree? && P.Held(buf[..], answer.slots, items, buf.Length)
  {
    AllNoNul(s, items);
    var text := NodeOutput(root, nodes, s, items);
    buf := MutableCopy(text);
    PrintedParses(s, items);
    ghost var parsed;
    answer, parsed := P.Parse(buf);
  }

  // ---------- through the buffered writer ----------

  predicate OptionInBytes(t: Option<string>) {
    t.Some? ==> U.InBytes(t.value)
  }

  predicate AttributeInBytes(a: Attr) {
    OptionInBytes(a.name) && U.InBytes(a.value)
  }

  /** An item as it is in memory, all of its strings made of bytes. */
  predicate ItemInBytes(x: Item) {
    OptionInBytes(x.name) && OptionInBytes(x.value) && forall a <- x.attributes :: AttributeInBytes(a)
  }

  lemma EscapedCharInBytes(c: char, attribute: bool)
    requires c as int < 256
    ensures U.InBytes(Strconv.EscapedChar(c, attribute))
  {
  }

  lemma {:induction false} EscapedInBytes(t: string, attribute: bool)
    requires U.InBytes(t)
    ensures U.InBytes(Strconv.Escaped(t, attribute))
  {
    if t != [] {
      EscapedCharInBytes(t[0], attribute);
      EscapedInBytes(t[1..], attribute);
    }
  }

  lemma NameInBytes(name: Option<string>)
    requires OptionInBytes(name)
    ensures U.InBytes(NameOf(name)) && U.InBytes(ElementEnd(NameOf(name)))
  {
  }

  lemma AttributeTextInBytes(a: Attr)
    requires AttributeInBytes(a)
    ensures U.InBytes(AttributeText(a))
  {
    NameInBytes(a.name);
    EscapedInBytes(a.value, true);
  }

  lemma {:induction false} AttributesInBytes(attributes: seq<Attr>)
    requires forall a <- attributes :: AttributeInBytes(a)
    ensures U.InBytes(AttributesText(attributes))
  {
    if attributes != [] {
      AttributeTextInBytes(attributes[0]);
      AttributesInBytes(attributes[1..]);
    }
  }

  lemma StartInBytes(x: Item, hasChildren: bool)
    requires Printable(x) && ItemInBytes(x)
    ensures U.InBytes(StartText(x, hasChildren)) && U.InBytes(EndText(x))
  {
    NameInBytes(x.name);
    AttributesInBytes(x.attributes);
    EscapedInBytes(Text(x.value), false);
  }

  lemma {:induction false} ClimbInBytes(s: Shape, items: seq<Item>, i: int)
    requires IsDocument(s, items) && s.Has(i) && forall x <- items :: ItemInBytes(x)
    ensures U.InBytes(Climb(s, items, i))
    decreases i
  {
    if i > 0 && s.NextSibling(i) == -1 {
      StartInBytes(items[s.par[i]], true);
      ClimbInBytes(s, items, s.par[i]);
    }
  }

  lemma JoinedInBytes(a: string, b: string, c: string)
    requires U.InBytes(a) && U.InBytes(b) && U.InBytes(c)
    ensures U.InBytes(a + (b + c))
  {
  }

  /** What is printed for such items is made of bytes, too. */
  lemma {:induction false} PrintedInBytes(s: Shape, items: seq<Item>, i: nat)
    requires IsDocument(s, items) && i <= |items| && forall x <- items :: ItemInBytes(x)
    ensures U.InBytes(PrintedFrom(s, items, i))
    decreases |items| - i
  {
    if i < |items| {
      StartInBytes(items[i], HasChildren(s, i));
      ClimbInBytes(s, items, i);
      PrintedInBytes(s, items, i + 1);
      var own, ends, rest := PrintedParts(s, items, i, PrintedFrom(s, items, i));
      JoinedInBytes(own, ends, rest);
    }
  }

  /** Text handed to the writer in pieces, cut anywhere. */
  method WritePieces(w: W.BufferedWriter, data: seq<U.Byte>)
    requires w.Valid()
    modifies w`bufsize, w`text, w`clean, w.writer, w.buffer, w.scratch
    ensures w.Valid() && w.text == old(w.text) + data
  {
    var rest := data;
    while rest != []
      invariant w.Valid() && w.text + rest == old(w.text) + data
      decreases |rest|
    {
      var k: nat :| 0 < k <= |rest|;
      U.Regroup(w.text, rest[..k], rest[k..]);
      assert rest[..k] + rest[k..] == rest;
      w.WriteString(rest[..k]);
      rest := rest[k..];
    }
    assert w.text + [] == w.text;
  }

  /** What arrives in the sink is the printed text, however it was cut into writes. */
  method SaveToSink(root: Node, sink: W.Sink, ghost nodes: seq<Node>, ghost s: Shape, ghost items: seq<Item>)
    requires Shows(nodes, s, items) && Legal(s, items) && root == nodes[0] && forall x <- items :: ItemInBytes(x)
    modifies sink
    ensures U.InBytes(PrintedFrom(s, items, 0)) && sink.data == old(sink.data) + U.BytesOf(PrintedFrom(s, items, 0))
  {
    AllNoNul(s, items);
    PrintedInBytes(s, items, 0);
    var text := NodeOutput(root, nodes, s, items);
    var w := new W.BufferedWriter(sink, U.Utf8);
    WritePieces(w, U.BytesOf(text));
    w.Flush();
    assert [] + U.BytesOf(text) == U.BytesOf(text);
  }

  /** The bytes a legal document sends to an empty sink are parsed into nodes that hold what the
      document's nodes hold. */
  method SaveAndLoadBytes(root: Node, sink: W.Sink, ghost nodes: seq<Node>, ghost s: Shape, ghost items: seq<Item>)
    returns (buf: array<char>, answer: P.Answer)
    requires Shows(nodes, s, items) && Legal(s, items) && root == nodes[0] && forall x <- items :: ItemInBytes(x)
    requires sink.data == []
    modifies sink
    ensures answer.Tree? && P.Held(buf[..], answer.slots, items, buf.Length)
  {
    SaveToSink(root, sink, nodes, s, items);
    ghost var printed := PrintedFrom(s, items, 0);
    assert [] + U.BytesOf(printed) == U.BytesOf(printed);
    U.BytesBack(printed);
    buf := MutableCopy(U.TextOf(sink.data));
    PrintedParses(s, items);
    ghost var parsed;
    answer, parsed := P.Parse(buf);
  }
}
