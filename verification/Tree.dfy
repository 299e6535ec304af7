/** The document tree of the library: nodes linked by parent, first child, next sibling and a
    circular previous-sibling pointer, and the shape those links stand for. */
module Tree {
  import opened Wrappers

  datatype Kind = Document | Element | Pcdata | Cdata | Comment | Pi | Declaration | Doctype

  datatype Attr = Attr(name: Option<string>, value: string)

  /** A finite ordered tree over the preorder positions 0 .. n - 1 of its nodes.
      `par` is the parent; the subtree of `i` occupies [i, end[i]); `prev` is the previous sibling and
      `last` the last child, or -1. */
  datatype Shape = Shape(par: seq<int>, end: seq<int>, prev: seq<int>, last: seq<int>) {
    ghost predicate Valid() {
      var n := |par|;
      && n >= 1 && |end| == n && |prev| == n && |last| == n
      && par[0] == -1 && end[0] == n && prev[0] == -1
      && (forall i {:trigger end[i]} :: 0 <= i < n ==> i < end[i] <= n)
      && (forall i {:trigger par[i]} :: 1 <= i < n ==> 0 <= par[i] < i && end[i] <= end[par[i]])
      && (forall i, j {:trigger end[i], par[j]} :: 0 <= i < j < n && j < end[i] ==> i <= par[j] && end[j] <= end[i])
      && (forall i {:trigger prev[i]} :: 1 <= i < n ==>
            if i == par[i] + 1 then prev[i] == -1
            else 0 <= par[i] < prev[i] < i && par[prev[i]] == par[i] && end[prev[i]] == i)
      && (forall i {:trigger last[i]} :: 0 <= i < n ==>
            if end[i] == i + 1 then last[i] == -1
            else i < last[i] < n && par[last[i]] == i && end[last[i]] == end[i])
    }

    function Size(): nat { |par| }

    predicate Has(i: int) { 0 <= i < |par| }

    /** The links, as positions; -1 stands for a null pointer. */
    ghost function FirstChild(i: int): int
      requires Valid() && Has(i)
    {
      if end[i] > i + 1 then i + 1 else -1
    }

    ghost function NextSibling(i: int): int
      requires Valid() && Has(i)
    {
      if i > 0 && end[i] < end[par[i]] then end[i] else -1
    }

    /** The first child's pointer goes round to the last child; the document points to itself. */
    ghost function PrevSiblingC(i: int): int
      requires Valid() && Has(i)
    {
      if i == 0 then 0 else if prev[i] == -1 then last[par[i]] else prev[i]
    }

    /** `i` is a proper ancestor of `j`: the chain of parents from `j` meets `i`. */
    ghost predicate Ancestor(i: int, j: int)
      requires Valid() && Has(j)
      decreases j
    {
      j > 0 && (par[j] == i || Ancestor(i, par[j]))
    }

    ghost function Depth(i: int): nat
      requires Valid() && Has(i)
      decreases i
    {
      if i == 0 then 0 else 1 + Depth(par[i])
    }

    /** Ancestry read off the positions. */
    lemma AncestorInterval(i: int, j: int)
      requires Valid() && Has(i) && Has(j)
      ensures Ancestor(i, j) <==> i < j < end[i]
      decreases j
    {
      if j > 0 && par[j] != i {
        AncestorInterval(i, par[j]);
      }
    }

    lemma DepthGrows(i: int, j: int)
      requires Valid() && 0 <= i < j < |par| && j < end[i]
      ensures Depth(i) < Depth(j)
      decreases j
    {
      if par[j] != i {
        DepthGrows(i, par[j]);
      }
    }

    /** The next sibling has the same parent, and a previous sibling leads back. */
    lemma SiblingLinks(i: int)
      requires Valid() && 1 <= i < |par|
      ensures prev[i] == -1 || 0 <= prev[i] < i
      ensures var k := NextSibling(i); k != -1 ==> i < k < |par| && par[k] == par[i] && prev[k] == i
      ensures prev[i] != -1 ==> NextSibling(prev[i]) == i
      ensures NextSibling(i) == -1 <==> last[par[i]] == i
    {
      var k := NextSibling(i);
      if k != -1 {
        var q := par[k];
        assert par[i] <= q;
        if par[i] < q < i { assert false; }
        assert q > 0 ==> par[q] < q;
      }
    }
  }

  class Node {
    var parent: Node?
    var firstChild: Node?
    var prevSiblingC: Node?
    var nextSibling: Node?
    var kind: Kind
    var name: Option<string>
    var value: Option<string>
    var attributes: seq<Attr>

    constructor (k: Kind)
      ensures parent == null && firstChild == null && prevSiblingC == null && nextSibling == null
      ensures kind == k && name == None && value == None && attributes == []
    {
      parent, firstChild, prevSiblingC, nextSibling := null, null, null, null;
      kind, name, value, attributes := k, None, None, [];
    }
  }

  ghost function At(nodes: seq<Node>, i: int): Node? {
    if 0 <= i < |nodes| then nodes[i] else null
  }

  /** The links of node `i` are those of `s`. */
  ghost predicate Linked(nodes: seq<Node>, s: Shape, i: int)
    requires s.Valid() && |nodes| == s.Size() && 0 <= i < |nodes|
    reads nodes[i]
  {
    && nodes[i].parent == At(nodes, s.par[i])
    && nodes[i].firstChild == At(nodes, s.FirstChild(i))
    && nodes[i].nextSibling == At(nodes, s.NextSibling(i))
    && nodes[i].prevSiblingC == At(nodes, s.PrevSiblingC(i))
  }

  ghost predicate Apart(nodes: seq<Node>, i: int, j: int)
    requires 0 <= i < |nodes| && 0 <= j < |nodes|
  {
    nodes[i] == nodes[j] ==> i == j
  }

  /** `nodes` lists a whole document in document order and its links are those of `s`. */
  ghost predicate Represents(nodes: seq<Node>, s: Shape)
    reads nodes
  {
    && s.Valid() && |nodes| == s.Size()
    && (forall i, j {:trigger Apart(nodes, i, j)} :: 0 <= i < |nodes| && 0 <= j < |nodes| ==> Apart(nodes, i, j))
    && (forall i {:trigger Linked(nodes, s, i)} :: 0 <= i < |nodes| ==> Linked(nodes, s, i))
  }
}
