/** The nodes behind the parser's answer: pushed one by one, each as the last child of the node that is
    open, they are linked as the document that was printed. */
module Relink {
  import opened Wrappers
  import opened Tree
  import opened CopyTree
  import opened Printer
  import opened RoundTrip
  import AppendCopy
  import P = ParserInPlace
  import R = Reload
  import W = Writer
  import X = XmlParser

  // ---------- strings ----------

  /** The string a pointer into the buffer stands for. */
  method CString(buf: array<char>, o: nat, ghost v: string) returns (t: string)
    requires P.StringAt(buf[..], o, v, buf.Length) && '\0' !in v
    ensures t == v
  {
    t := [];
    var k := o;
    while buf[k] != '\0'
      invariant o <= k <= o + |v| && t == v[..k - o]
      decreases o + |v| - k
    {
      assert k < o + |v| ==> buf[k] == buf[..][o..o + |v|][k - o];
      t := t + [buf[k]];
      k := k + 1;
    }
  }

  method MaybeCString(buf: array<char>, o: Option<nat>, ghost v: Option<string>) returns (t: Option<string>)
    requires P.MaybeString(buf[..], o, v, buf.Length) && (v.Some? ==> '\0' !in v.value)
    ensures t == v
  {
    if o.None? {
      t := None;
    } else {
      var x := CString(buf, o.value, v.value);
      t := Some(x);
    }
  }

  predicate CleanAttribute(a: Attr) {
    a.name.Some? && '\0' !in a.name.value && '\0' !in a.value
  }

  /** Strings without a NUL inside. */
  predicate Clean(x: Item) {
    && (x.name.Some? ==> '\0' !in x.name.value) && (x.value.Some? ==> '\0' !in x.value.value)
    && forall k {:trigger x.attributes[k]} :: 0 <= k < |x.attributes| ==> CleanAttribute(x.attributes[k])
  }

  lemma NameClean(name: string)
    requires LegalName(name)
    ensures '\0' !in name
  {
  }

  lemma LegalClean(s: Shape, items: seq<Item>, i: int)
    requires Legal(s, items) && 0 <= i < |items|
    ensures Clean(items[i])
  {
    if i > 0 {
      assert LegalItem(items[i]);
      if items[i].kind == Element {
        NameClean(items[i].name.value);
        forall k {:trigger items[i].attributes[k]} | 0 <= k < |items[i].attributes|
          ensures CleanAttribute(items[i].attributes[k])
        {
          assert LegalAttribute(items[i].attributes[k]);
          NameClean(items[i].attributes[k].name.value);
        }
      }
    }
  }

  method AttributesFrom(buf: array<char>, offsets: seq<(nat, nat)>, ghost attributes: seq<Attr>) returns (r: seq<Attr>)
    requires |offsets| == |attributes|
    requires forall k {:trigger attributes[k]} :: 0 <= k < |attributes| ==>
               P.AttributeAt(buf[..], offsets[k], attributes[k], buf.Length) && CleanAttribute(attributes[k])
    ensures r == attributes
  {
    r := [];
    for k := 0 to |offsets|
      invariant r == attributes[..k]
    {
      ghost var a := attributes[k];
      var name := CString(buf, offsets[k].0, a.name.value);
      var value := CString(buf, offsets[k].1, a.value);
      r := r + [Attr(Some(name), value)];
    }
  }

  // ---------- pushes ----------

  /** Node `n` holds what `x` says. */
  predicate HoldsItem(n: Node, x: Item)
    reads n
  {
    SameContents(n, x.kind, x.name, x.value, x.attributes)
  }

  method NodeFrom(buf: array<char>, slot: P.Slot, ghost x: Item) returns (n: Node)
    requires P.SlotHolds(buf[..], slot, x, buf.Length) && Clean(x)
    ensures fresh(n) && HoldsItem(n, x) && LinksOf(n) == Links(null, null, null, null)
  {
    var name := MaybeCString(buf, slot.name, x.name);
    var value := MaybeCString(buf, slot.value, x.value);
    var attributes := AttributesFrom(buf, slot.attributes, x.attributes);
    n := new Node(slot.kind);
    n.name, n.value, n.attributes := name, value, attributes;
  }

  ghost predicate AllHold(c: seq<Node>, items: seq<Item>)
    requires |c| <= |items|
    reads c
  {
    forall i {:trigger c[i]} :: 0 <= i < |c| ==> HoldsItem(c[i], items[i])
  }

  /** The document node has no place of its own. */
  predicate Alone(n: Node)
    reads n
  {
    n.parent == null && n.nextSibling == null && n.prevSiblingC == n
  }

  /** The nodes pushed so far. */
  ghost predicate Pushed(c: seq<Node>, s: Shape, items: seq<Item>)
    reads c
  {
    Building(c, s) && |items| == s.Size() && AllHold(c, items) && Alone(c[0])
  }

  method NewDocument(ghost s: Shape, ghost items: seq<Item>) returns (root: Node)
    requires s.Valid() && |items| == s.Size() && items[0] == X.ROOT
    ensures fresh(root) && Pushed([root], s, items)
  {
    root := new Node(Document);
    root.prevSiblingC := root;
    assert s.FirstChild(0) != 0;
    assert LinkedUpTo([root], s, 0);
  }

  /** append_new_node: one more node below the one that is open. */
  method PushNode(n: Node, open: Node, ghost c: seq<Node>, ghost s: Shape, ghost items: seq<Item>)
    requires Pushed(c, s, items) && |c| < s.Size() && open == c[s.par[|c|]]
    requires n !in c && LinksOf(n) == Links(null, null, null, null) && HoldsItem(n, items[|c|])
    modifies c, n
    ensures Pushed(c + [n], s, items)
  {
    AppendNext(n, open, c, s);
    forall i {:trigger (c + [n])[i]} | 0 <= i < |c + [n]|
      ensures HoldsItem((c + [n])[i], items[i])
    {
      assert (c + [n])[i] in c + [n];
    }
  }

  /** Once every node is there, the links are those of the whole document. */
  lemma AllPushed(c: seq<Node>, s: Shape, items: seq<Item>)
    requires Pushed(c, s, items) && |c| == s.Size()
    ensures Represents(c, s)
  {
    forall i {:trigger Linked(c, s, i)} | 0 <= i < |c|
      ensures Linked(c, s, i)
    {
      assert LinkedUpTo(c, s, i);
      if i > 0 { AppendCopy.BackIsBack(s, i); }
    }
  }

  /** The pushes of a whole answer. */
  method LinkTree(buf: array<char>, slots: seq<P.Slot>, ghost s: Shape, ghost items: seq<Item>) returns (c: seq<Node>)
    requires Legal(s, items) && P.Held(buf[..], slots, items, buf.Length)
    ensures Shows(c, s, items) && forall x <- c :: fresh(x)
  {
    var root := NewDocument(s, items);
    c := [root];
    while |c| < |slots|
      invariant 1 <= |c| <= |slots| && Pushed(c, s, items)
      invariant forall i {:trigger c[i]} :: 0 <= i < |c| ==> fresh(c[i])
      decreases |slots| - |c|
    {
      ghost var i := |c|;
      LegalClean(s, items, i);
      assert P.SlotHolds(buf[..], slots[i], items[i], buf.Length) && items[i].parent == s.par[i];
      var n := NodeFrom(buf, slots[|c|], items[i]);
      PushNode(n, c[slots[|c|].parent], c, s, items);
      c := c + [n];
    }
    AllPushed(c, s, items);
  }

  /** Saved to a sink and loaded again: a second document, of new nodes, that shows the same tree. */
  method SaveAndReload(root: Node, sink: W.Sink, ghost nodes: seq<Node>, ghost s: Shape, ghost items: seq<Item>) returns (c: seq<Node>)
    requires Shows(nodes, s, items) && Legal(s, items) && root == nodes[0] && forall x <- items :: R.ItemInBytes(x)
    requires sink.data == []
    modifies sink
    ensures Shows(c, s, items) && forall x <- c :: fresh(x)
  {
    var buf, answer := R.SaveAndLoadBytes(root, sink, nodes, s, items);
    c := LinkTree(buf, answer.slots, s, items);
  }
}
