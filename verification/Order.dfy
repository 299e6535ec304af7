/** Document order (XPath 1.0, section 5): the comparator that finds it by climbing parents. */
module Order {
  import opened Tree

  /** Nodes at the same depth: neither is inside the other, and their parents keep the order. */
  lemma SameDepth(s: Shape, a: int, b: int)
    requires s.Valid() && s.Has(a) && s.Has(b) && a != b && s.Depth(a) == s.Depth(b)
    ensures a > 0 && b > 0
    ensures s.par[a] != s.par[b] ==> (s.par[a] < s.par[b] <==> a < b)
    ensures s.Depth(s.par[a]) == s.Depth(s.par[b])
  {
    var lo, hi := if a < b then a else b, if a < b then b else a;
    if hi < s.end[lo] {
      s.DepthGrows(lo, hi);
      assert false;
    }
    var p, q := s.par[lo], s.par[hi];
    if q < p {
      s.DepthGrows(q, p);
    }
  }

  /** node_is_before_sibling: which of two children of one parent comes first. The source's branch for
      two parentless nodes compares addresses of nodes in different documents. */
  method NodeIsBeforeSibling(nodes: seq<Node>, ghost s: Shape, ghost a: int, ghost b: int, ln: Node, rn: Node)
      returns (r: bool)
    requires Represents(nodes, s) && 0 < a < s.Size() && 0 < b < s.Size() && a != b
    requires s.par[a] == s.par[b] && ln == nodes[a] && rn == nodes[b]
    ensures r <==> a < b
  {
    var ls: Node?, rs: Node? := ln, rn;
    ghost var x, y, p := a, b, s.par[a];
    while ls != null && rs != null
      invariant ls == At(nodes, x) && (x == -1 || (a <= x < s.Size() && s.par[x] == p))
      invariant rs == At(nodes, y) && (y == -1 || (b <= y < s.Size() && s.par[y] == p))
      invariant a < b ==> a <= x <= b
      invariant b < a ==> b <= y <= a
      invariant x == a <==> y == b
      decreases if x == -1 then 0 else s.Size() - x
    {
      assert Apart(nodes, x, b) && Apart(nodes, y, a) && Linked(nodes, s, x) && Linked(nodes, s, y);
      if ls == rn { return true; }
      if rs == ln { return false; }
      s.SiblingLinks(x);
      s.SiblingLinks(y);
      SiblingGap(s, x, b);
      SiblingGap(s, y, a);
      ls := ls.nextSibling;
      rs := rs.nextSibling;
      x, y := s.NextSibling(x), s.NextSibling(y);
    }
    r := rs == null;
  }

  lemma SiblingGap(s: Shape, x: int, t: int)
    requires s.Valid() && 0 < x < s.Size() && 0 < t < s.Size() && s.par[x] == s.par[t]
    ensures x < t ==> x < s.NextSibling(x) <= t
  {
    assert s.par[x] < x && s.par[t] < t;
  }

  /** `u` is `a` or an ancestor of it. */
  ghost predicate Above(s: Shape, u: int, a: int)
    requires s.Valid()
  {
    s.Has(a) && 0 <= u <= a < s.end[u]
  }

  lemma AboveParent(s: Shape, u: int, a: int)
    requires s.Valid() && Above(s, u, a) && u > 0
    ensures Above(s, s.par[u], a) && s.Depth(u) == s.Depth(s.par[u]) + 1
  {
  }

  /** Different nodes of one depth order everything below them. */
  lemma AboveOrder(s: Shape, u: int, v: int, a: int, b: int)
    requires s.Valid() && Above(s, u, a) && Above(s, v, b) && u != v && s.Depth(u) == s.Depth(v)
    ensures a != b && (u < v <==> a < b)
  {
    if u < v < s.end[u] {
      s.DepthGrows(u, v);
    }
    if v < u < s.end[v] {
      s.DepthGrows(v, u);
    }
  }

  /** Depth of a link target, counted so that null is at 0. */
  ghost function Level(s: Shape, x: int): nat
    requires s.Valid() && (x == -1 || s.Has(x))
  {
    if x == -1 then 0 else s.Depth(x) + 1
  }

  /** Climbs two chains of parents in step until they meet or one ends. */
  method ClimbTogether(nodes: seq<Node>, ghost s: Shape, ghost a: int, ghost b: int, ln: Node, rn: Node)
      returns (lp: Node?, rp: Node?, ghost x: int, ghost y: int)
    requires Represents(nodes, s) && s.Has(a) && s.Has(b) && a != b && ln == nodes[a] && rn == nodes[b]
    ensures (x == -1 || Above(s, x, a)) && (y == -1 || Above(s, y, b)) && lp == At(nodes, x) && rp == At(nodes, y)
    ensures Level(s, a) - Level(s, x) == Level(s, b) - Level(s, y)
    ensures x != -1 && y != -1 ==> 0 < x && 0 < y && x != y && s.par[x] == s.par[y] && s.Depth(x) == s.Depth(y)
    ensures x != -1 || y != -1
  {
    lp, rp, x, y := ln, rn, a, b;
    assert Linked(nodes, s, x) && Linked(nodes, s, y);
    while lp != null && rp != null && lp.parent != rp.parent
      invariant (x == -1 || Above(s, x, a)) && (y == -1 || Above(s, y, b)) && lp == At(nodes, x) && rp == At(nodes, y)
      invariant x != -1 ==> Linked(nodes, s, x)
      invariant y != -1 ==> Linked(nodes, s, y)
      invariant Level(s, a) - Level(s, x) == Level(s, b) - Level(s, y)
      invariant x != y
      decreases x
    {
      lp, rp := lp.parent, rp.parent;
      x, y := s.par[x], s.par[y];
      assert x != -1 ==> Linked(nodes, s, x);
      assert y != -1 ==> Linked(nodes, s, y);
    }
    if x != -1 && y != -1 {
      assert x > 0 && y > 0 ==> Apart(nodes, s.par[x], s.par[y]);
    }
  }

  /** Moves `n` up as often as the chain from `p` is long. */
  method ClimbBy(nodes: seq<Node>, ghost s: Shape, ghost a: int, ghost x0: int, n: Node, p: Node?)
      returns (m: Node, ghost u: int)
    requires Represents(nodes, s) && s.Has(a) && n == nodes[a] && p == At(nodes, x0)
    requires x0 == -1 || s.Has(x0)
    requires Level(s, x0) < Level(s, a)
    ensures Above(s, u, a) && m == nodes[u] && Level(s, u) == Level(s, a) - Level(s, x0)
    ensures x0 == -1 ==> u == a
  {
    m, u := n, a;
    var q := p;
    ghost var x := x0;
    while q != null
      invariant (x == -1 || s.Has(x)) && q == At(nodes, x) && Above(s, u, a) && m == nodes[u]
      invariant Level(s, u) - Level(s, x) == Level(s, a) - Level(s, x0)
      invariant x0 == -1 ==> u == a
      decreases x
    {
      assert Linked(nodes, s, x) && Linked(nodes, s, u);
      AboveParent(s, u, a);
      q, m := q.parent, m.parent;
      x, u := s.par[x], s.par[u];
    }
  }

  /** The last part of node_is_before: two different nodes at one depth. */
  method NodeIsBeforeAtDepth(nodes: seq<Node>, ghost s: Shape, ghost a: int, ghost b: int, ln: Node, rn: Node)
      returns (r: bool)
    requires Represents(nodes, s) && s.Has(a) && s.Has(b) && a != b && s.Depth(a) == s.Depth(b)
    requires ln == nodes[a] && rn == nodes[b]
    ensures r <==> a < b
  {
    var l, q := ln, rn;
    ghost var u, v := a, b;
    assert Linked(nodes, s, u) && Linked(nodes, s, v);
    while l.parent != q.parent
      invariant s.Has(u) && s.Has(v) && u != v && s.Depth(u) == s.Depth(v) && (u < v <==> a < b)
      invariant l == nodes[u] && q == nodes[v] && Linked(nodes, s, u) && Linked(nodes, s, v)
      decreases u
    {
      SameDepth(s, u, v);
      l, q := l.parent, q.parent;
      u, v := s.par[u], s.par[v];
      assert Linked(nodes, s, u) && Linked(nodes, s, v);
    }
    SameDepth(s, u, v);
    assert Apart(nodes, s.par[u], s.par[v]);
    r := NodeIsBeforeSibling(nodes, s, u, v, l, q);
  }

  /** node_is_before: whether `ln` comes before `rn` in document order, for two nodes of one document. */
  method NodeIsBefore(nodes: seq<Node>, ghost s: Shape, ghost a: int, ghost b: int, ln: Node, rn: Node)
      returns (r: bool)
    requires Represents(nodes, s) && s.Has(a) && s.Has(b) && a != b && ln == nodes[a] && rn == nodes[b]
    ensures r <==> a < b
  {
    var lp, rp, x, y := ClimbTogether(nodes, s, a, b, ln, rn);
    if lp != null && rp != null {
      AboveOrder(s, x, y, a, b);
      r := NodeIsBeforeSibling(nodes, s, x, y, lp, rp);
      return;
    }
    var leftHigher := lp == null;
    var l, u := ClimbBy(nodes, s, a, x, ln, lp);
    var q, v := ClimbBy(nodes, s, b, y, rn, rp);
    assert Apart(nodes, u, v);
    if l == q { return leftHigher; }
    AboveOrder(s, u, v, a, b);
    r := NodeIsBeforeAtDepth(nodes, s, u, v, l, q);
  }

  /** What an XPath node set holds: a node, or an attribute together with its owner. */
  datatype XNode = NodeAt(i: int) | AttrAt(i: int, k: nat) {
    function Rank(): int { if NodeAt? then 0 else k + 1 }
  }

  /** Document order: by node, an element before its attributes, attributes before its children. */
  predicate Before(x: XNode, y: XNode) {
    x.i < y.i || (x.i == y.i && x.Rank() < y.Rank())
  }

  /** The same as references into the tree; an attribute is its place in the owner's list. */
  datatype XRef = NodeRef(node: Node) | AttrRef(node: Node, k: nat)

  ghost predicate Denotes(nodes: seq<Node>, r: XRef, x: XNode)
    reads nodes
  {
    && 0 <= x.i < |nodes| && r.node == nodes[x.i] && (r.NodeRef? <==> x.NodeAt?)
    && (x.AttrAt? ==> r.k == x.k && 0 <= x.k < |nodes[x.i].attributes|)
  }

  /** document_order_comparator without the shortcut through buffer addresses. On equal operands it
      says true for attributes and false for nodes. */
  method DocumentOrder(nodes: seq<Node>, ghost s: Shape, ghost x: XNode, ghost y: XNode, lhs: XRef, rhs: XRef)
      returns (r: bool)
    requires Represents(nodes, s) && Denotes(nodes, lhs, x) && Denotes(nodes, rhs, y)
    ensures x != y ==> (r <==> Before(x, y))
    ensures x == y ==> (r <==> x.AttrAt?)
  {
    assert Apart(nodes, x.i, y.i);
    var ln, rn := lhs.node, rhs.node;
    if lhs.AttrRef? && rhs.AttrRef? {
      if ln == rn {
        var a := lhs.k;
        while a < |ln.attributes|
          invariant lhs.k <= a <= |ln.attributes|
          invariant rhs.k < lhs.k || a <= rhs.k
        {
          if a == rhs.k { return true; }
          a := a + 1;
        }
        return false;
      }
    } else if lhs.AttrRef? {
      if ln == rn { return false; }
    } else if rhs.AttrRef? {
      if ln == rn { return true; }
    }
    if ln == rn { return false; }
    r := NodeIsBefore(nodes, s, x.i, y.i, ln, rn);
  }
}
