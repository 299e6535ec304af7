/** Printing a document of elements and texts in raw format. */
module Printer {
  import opened Wrappers
  import opened Tree
  import Strconv

  /** What a node holds, with the position of its parent in document order. */
  datatype Item = Item(parent: int, kind: Kind, name: Option<string>, value: Option<string>, attributes: seq<Attr>)

  const ANONYMOUS: string := ":anonymous"

  function NameOf(name: Option<string>): string {
    if name.Some? then name.value else ANONYMOUS
  }

  function Text(value: Option<string>): string {
    if value.Some? then value.value else []
  }

  // ---------- the text of a node ----------

  function AttributeText(a: Attr): string {
    [' '] + (NameOf(a.name) + (['=', '"'] + (Strconv.Escaped(a.value, true) + ['"'])))
  }

  function AttributesText(attributes: seq<Attr>): string {
    if attributes == [] then [] else AttributeText(attributes[0]) + AttributesText(attributes[1..])
  }

  /** node_output_start: everything of an element before its children; the whole of it if it has none. */
  function ElementStart(name: string, value: Option<string>, attributes: seq<Attr>, hasChildren: bool): string {
    ['<'] + (name + (AttributesText(attributes) + (
      if value.None? then if hasChildren then ['>'] else ['/', '>']
      else ['>'] + (Strconv.Escaped(value.value, false) + (if hasChildren then [] else ElementEnd(name))))))
  }

  function ElementEnd(name: string): string {
    ['<', '/'] + (name + ['>'])
  }

  /** The nodes this model prints. */
  predicate Printable(x: Item) {
    x.kind == Document || x.kind == Element || x.kind == Pcdata
  }

  function StartText(x: Item, hasChildren: bool): string
    requires Printable(x)
  {
    if x.kind == Document then []
    else if x.kind == Pcdata then Strconv.Escaped(Text(x.value), false)
    else ElementStart(NameOf(x.name), x.value, x.attributes, hasChildren)
  }

  function EndText(x: Item): string {
    if x.kind == Element then ElementEnd(NameOf(x.name)) else []
  }

  // ---------- the text of a document ----------

  ghost predicate IsDocument(s: Shape, items: seq<Item>) {
    && s.Valid() && |items| == s.Size()
    && items[0].kind == Document
    && (forall i {:trigger items[i]} :: 0 <= i < |items| ==> Printable(items[i]) && items[i].parent == s.par[i])
    && (forall i {:trigger Childless(s, items, i)} :: 0 <= i < |items| ==> Childless(s, items, i))
  }

  /** Nothing hangs below a text. */
  predicate Childless(s: Shape, items: seq<Item>, i: int)
    requires 0 <= i < |items| == |s.end|
  {
    items[i].kind == Pcdata ==> s.end[i] == i + 1
  }

  ghost predicate HasChildren(s: Shape, i: int)
    requires s.Valid() && s.Has(i)
  {
    s.FirstChild(i) != -1
  }

  /** The end tags after a node with no next sibling, up to the next node that has one. */
  ghost function Climb(s: Shape, items: seq<Item>, i: int): string
    requires IsDocument(s, items) && s.Has(i)
    decreases i
  {
    if i == 0 || s.NextSibling(i) != -1 then [] else EndText(items[s.par[i]]) + Climb(s, items, s.par[i])
  }

  /** What is printed from node `i` on to the end, in document order. */
  ghost function PrintedFrom(s: Shape, items: seq<Item>, i: nat): string
    requires IsDocument(s, items) && i <= |items|
    decreases |items| - i
  {
    if i == |items| then []
    else StartText(items[i], HasChildren(s, i)) + ((if HasChildren(s, i) then [] else Climb(s, items, i)) + PrintedFrom(s, items, i + 1))
  }

  // ---------- node_output ----------

  ghost function ItemOf(nodes: seq<Node>, s: Shape, i: int): Item
    requires s.Valid() && |nodes| == s.Size() && s.Has(i)
    reads nodes[i]
  {
    Item(s.par[i], nodes[i].kind, nodes[i].name, nodes[i].value, nodes[i].attributes)
  }

  ghost predicate Shows(nodes: seq<Node>, s: Shape, items: seq<Item>)
    reads nodes
  {
    && Represents(nodes, s) && IsDocument(s, items)
    && forall i {:trigger items[i]} :: 0 <= i < |nodes| ==> items[i] == ItemOf(nodes, s, i)
  }

  /** Strings that a C program can hold. */
  predicate NoNul(x: Item) {
    && (x.value.Some? ==> '\0' !in x.value.value)
    && forall a <- x.attributes :: '\0' !in a.value
  }

  method NodeOutputAttributes(attributes: seq<Attr>) returns (out: string)
    requires forall a <- attributes :: '\0' !in a.value
    ensures out == AttributesText(attributes)
  {
    out := [];
    var k := 0;
    assert attributes[0..] == attributes && [] + AttributesText(attributes) == AttributesText(attributes);
    while k < |attributes|
      invariant 0 <= k <= |attributes| && out + AttributesText(attributes[k..]) == AttributesText(attributes)
    {
      var a := attributes[k];
      assert attributes[k..][1..] == attributes[k + 1..];
      Strconv.Regroup(out, AttributeText(a), AttributesText(attributes[k + 1..]));
      var escaped := Strconv.TextOutputEscaped(a.value, true);
      out := out + ([' '] + (NameOf(a.name) + (['=', '"'] + (escaped + ['"']))));
      k := k + 1;
    }
    assert attributes[k..] == [] && out + [] == out;
  }

  /** node_output_start: whether the children are still to be written. */
  method NodeOutputStart(node: Node) returns (out: string, more: bool)
    requires node.value.Some? ==> '\0' !in node.value.value
    requires forall a <- node.attributes :: '\0' !in a.value
    ensures more == (node.firstChild != null)
    ensures out == ElementStart(NameOf(node.name), node.value, node.attributes, more)
  {
    var name := NameOf(node.name);
    var attributes := NodeOutputAttributes(node.attributes);
    more := node.firstChild != null;
    if node.value.None? {
      out := ['<'] + (name + (attributes + (if more then ['>'] else ['/', '>'])));
    } else {
      var escaped := Strconv.TextOutputEscaped(node.value.value, false);
      out := ['<'] + (name + (attributes + (['>'] + (escaped + (if more then [] else ElementEnd(name))))));
    }
  }

  /** What node `i` itself prints before the walk goes on. */
  method NodeOutputNode(node: Node, ghost nodes: seq<Node>, ghost s: Shape, ghost items: seq<Item>, ghost i: nat) returns (out: string, more: bool)
    requires Shows(nodes, s, items) && i < |nodes| && node == nodes[i] && NoNul(items[i])
    ensures out == StartText(items[i], HasChildren(s, i)) && more == HasChildren(s, i)
    ensures more ==> i + 1 < |nodes| && node.firstChild == nodes[i + 1]
  {
    assert Linked(nodes, s, i);
    assert items[i] == ItemOf(nodes, s, i);
    if node.kind == Pcdata {
      out := Strconv.TextOutputEscaped(Text(node.value), false);
      more := false;
      assert Childless(s, items, i);
    } else if node.kind == Element {
      out, more := NodeOutputStart(node);
    } else {
      out, more := [], node.firstChild != null;
    }
  }

  /** One level of the climb. */
  lemma ClimbStep(s: Shape, items: seq<Item>, i: int, j: int, out: string)
    requires IsDocument(s, items) && s.Has(i) && s.Has(j) && j > 0 && out + Climb(s, items, j) == Climb(s, items, i)
    ensures s.NextSibling(j) != -1 ==> out == Climb(s, items, i)
    ensures s.NextSibling(j) == -1 ==> (out + EndText(items[s.par[j]])) + Climb(s, items, s.par[j]) == Climb(s, items, i)
  {
    if s.NextSibling(j) == -1 {
      Strconv.Regroup(out, EndText(items[s.par[j]]), Climb(s, items, s.par[j]));
    } else {
      assert out + [] == out;
    }
  }

  /** Where the climb goes from a node whose subtree is printed. */
  lemma ClimbLinks(nodes: seq<Node>, s: Shape, items: seq<Item>, i: nat, j: int)
    requires Shows(nodes, s, items) && 0 < j < |nodes| && i < |nodes| && s.end[j] == i + 1
    ensures s.NextSibling(j) == -1 <==> nodes[j].nextSibling == null
    ensures s.NextSibling(j) != -1 ==> i + 1 < |nodes| && nodes[j].nextSibling == nodes[i + 1] && nodes[i + 1] != nodes[0]
    ensures 0 <= s.par[j] < j && nodes[j].parent == nodes[s.par[j]] && (nodes[s.par[j]] == nodes[0] <==> s.par[j] == 0)
    ensures s.NextSibling(j) == -1 ==> s.end[s.par[j]] == i + 1
    ensures items[s.par[j]] == ItemOf(nodes, s, s.par[j])
  {
    assert Linked(nodes, s, j);
    s.SiblingLinks(j);
    assert Apart(nodes, 0, s.par[j]);
    if i + 1 < |nodes| { assert Apart(nodes, 0, i + 1); }
  }

  /** The inner loop of node_output: end tags, up to the next node or the root. */
  method NodeOutputClimb(from: Node, root: Node, ghost nodes: seq<Node>, ghost s: Shape, ghost items: seq<Item>, ghost i: nat) returns (out: string, node: Node)
    requires Shows(nodes, s, items) && i < |nodes| && from == nodes[i] && root == nodes[0] && !HasChildren(s, i)
    ensures out == Climb(s, items, i)
    ensures if node == root then i + 1 == |nodes| else i + 1 < |nodes| && node == nodes[i + 1]
  {
    out, node := [], from;
    ghost var j: int := i;
    assert [] + Climb(s, items, i) == Climb(s, items, i);
    assert Apart(nodes, 0, i);
    while node != root
      invariant 0 <= j < |nodes| && node == nodes[j] && s.end[j] == i + 1 && (node == root <==> j == 0)
      invariant out + Climb(s, items, j) == Climb(s, items, i)
      decreases j
    {
      ClimbLinks(nodes, s, items, i, j);
      ClimbStep(s, items, i, j, out);
      if node.nextSibling != null {
        node := node.nextSibling;
        return;
      }
      node := node.parent;
      j := s.par[j];
      var ends := if node.kind == Element then ElementEnd(NameOf(node.name)) else [];
      out := out + ends;
    }
    assert out + [] == out;
  }

  /** `out` is what is to be printed before node `i`. */
  ghost predicate Writing(out: string, s: Shape, items: seq<Item>, i: nat)
    requires IsDocument(s, items) && i <= |items|
  {
    out + PrintedFrom(s, items, i) == PrintedFrom(s, items, 0)
  }

  lemma WritingStep(out: string, s: Shape, items: seq<Item>, i: nat, text: string, ends: string)
    requires IsDocument(s, items) && i < |items| && Writing(out, s, items, i)
    requires text == StartText(items[i], HasChildren(s, i)) && ends == if HasChildren(s, i) then [] else Climb(s, items, i)
    ensures Writing(out + (text + ends), s, items, i + 1)
  {
    var rest := PrintedFrom(s, items, i + 1);
    Strconv.Regroup(text, ends, rest);
    Strconv.Regroup(out, text + ends, rest);
  }

  lemma WritingEnds(s: Shape, items: seq<Item>, out: string)
    requires IsDocument(s, items)
    ensures Writing([], s, items, 0)
    ensures Writing(out, s, items, |items|) ==> out == PrintedFrom(s, items, 0)
  {
    assert [] + PrintedFrom(s, items, 0) == PrintedFrom(s, items, 0);
    assert out + [] == out;
  }

  /** One turn of the outer loop: one node, and the end tags after it. */
  method NodeOutputTurn(node: Node, root: Node, out: string, ghost nodes: seq<Node>, ghost s: Shape, ghost items: seq<Item>, ghost i: nat)
    returns (more: string, next: Node, finished: bool)
    requires Shows(nodes, s, items) && i < |nodes| && node == nodes[i] && root == nodes[0] && NoNul(items[i])
    requires Writing(out, s, items, i)
    ensures Writing(out + more, s, items, i + 1)
    ensures if finished then i + 1 == |nodes| else i + 1 < |nodes| && next == nodes[i + 1]
  {
    var text, down := NodeOutputNode(node, nodes, s, items, i);
    var ends := [];
    if down {
      next, finished := node.firstChild, false;
    } else {
      ends, next := NodeOutputClimb(node, root, nodes, s, items, i);
      finished := next == root;
    }
    WritingStep(out, s, items, i, text, ends);
    more := text + ends;
  }

  /** node_output with format_raw, from the document node: the pointer walk prints the nodes in document
      order with their end tags in place. */
  method NodeOutput(root: Node, ghost nodes: seq<Node>, ghost s: Shape, ghost items: seq<Item>) returns (out: string)
    requires Shows(nodes, s, items) && root == nodes[0] && forall i {:trigger items[i]} :: 0 <= i < |items| ==> NoNul(items[i])
    ensures out == PrintedFrom(s, items, 0)
  {
    out := [];
    var node, finished := root, false;
    ghost var i: nat := 0;
    WritingEnds(s, items, []);
    while !finished
      invariant 0 <= i <= |nodes| && Writing(out, s, items, i)
      invariant if finished then i == |nodes| else i < |nodes| && node == nodes[i]
      decreases |nodes| - i
    {
      assert NoNul(items[i]);
      var more;
      more, node, finished := NodeOutputTurn(node, root, out, nodes, s, items, i);
      out := out + more;
      i := i + 1;
    }
    WritingEnds(s, items, out);
  }

  // ---------- values and missing names ----------

  /** An element's own value is printed as a first text child would be. */
  lemma ValueAsChild(name: string, value: string, attributes: seq<Attr>, x: Item)
    requires x.kind == Pcdata && x.value == Some(value)
    ensures ElementStart(name, Some(value), attributes, true) == ElementStart(name, None, attributes, true) + StartText(x, false)
    ensures ElementStart(name, Some(value), attributes, false)
      == ElementStart(name, None, attributes, true) + (StartText(x, false) + ElementEnd(name))
  {
    var a, e := AttributesText(attributes), Strconv.Escaped(value, false);
    assert ['<'] + (name + (a + (['>'] + (e + [])))) == ['<'] + (name + (a + ['>'])) + e;
    assert ['<'] + (name + (a + (['>'] + (e + ElementEnd(name))))) == ['<'] + (name + (a + ['>'])) + (e + ElementEnd(name));
  }

  /** An element without a name is printed as one called `:anonymous`. */
  lemma Nameless(x: Item, hasChildren: bool)
    requires x.kind == Element && x.name == None
    ensures var named := x.(name := Some(":anonymous"));
      StartText(x, hasChildren) == StartText(named, hasChildren) && EndText(x) == EndText(named)
  {
  }
}
