/** append_copy on a document: the whole document after it, wherever the copied tree lies. */
module AppendCopy {
  import opened Wrappers
  import opened Tree
  import opened CopyTree
  import opened Grafting

  /** allow_insert_child */
  predicate AllowInsertChild(parent: Kind, child: Kind) {
    && (parent == Document || parent == Element)
    && child != Document
    && (parent != Document ==> child != Declaration && child != Doctype)
  }

  /** The links of node `i` once `n` hangs below node `d` as its last child. */
  ghost function WithLeaf(nodes: seq<Node>, s: Shape, d: int, n: Node, i: int): Links
    requires s.Valid() && |nodes| == s.Size() && s.Has(i) && s.Has(d)
  {
    Links(At(nodes, s.par[i]),
      if i == d && s.FirstChild(d) == -1 then n else At(nodes, s.FirstChild(i)),
      if i == s.last[d] then n else At(nodes, s.NextSibling(i)),
      if i > 0 && s.par[i] == d && s.prev[i] == -1 then n else At(nodes, s.PrevSiblingC(i)))
  }

  ghost predicate Hangs(nodes: seq<Node>, s: Shape, d: int, n: Node, i: int)
    requires s.Valid() && |nodes| == s.Size() && s.Has(i) && s.Has(d)
    reads nodes[i]
  {
    LinksOf(nodes[i]) == WithLeaf(nodes, s, d, n, i)
  }

  /** The nodes append_node looks up. */
  lemma Heads(nodes: seq<Node>, s: Shape, d: int)
    requires Represents(nodes, s) && s.Has(d)
    ensures s.FirstChild(d) == -1 <==> s.last[d] == -1
    ensures s.FirstChild(d) == -1 ==> nodes[d].firstChild == null
    ensures s.FirstChild(d) != -1 ==> s.FirstChild(d) == d + 1 < |nodes| && s.par[d + 1] == d && s.prev[d + 1] == -1
    ensures s.FirstChild(d) != -1 ==> s.Has(s.last[d]) && s.last[d] > d
    ensures s.FirstChild(d) != -1 ==> nodes[d].firstChild == nodes[d + 1] && nodes[d + 1].prevSiblingC == nodes[s.last[d]]
  {
    assert Linked(nodes, s, d);
    if s.FirstChild(d) != -1 {
      assert d <= s.par[d + 1];
      assert Linked(nodes, s, d + 1);
    }
  }

  /** What append_node changes in the links of node `i`. */
  ghost function Changed(nodes: seq<Node>, s: Shape, d: int, n: Node, i: int, x: Links): Links
    requires s.Valid() && |nodes| == s.Size() && s.Has(d) && s.Has(i)
  {
    if s.FirstChild(d) == -1 then if nodes[i] == nodes[d] then x.(firstChild := n) else x
    else
      x.(nextSibling := if nodes[i] == At(nodes, s.last[d]) then n else x.nextSibling,
         prevSiblingC := if nodes[i] == At(nodes, d + 1) then n else x.prevSiblingC)
  }

  method LinkChild(n: Node, node: Node, ghost nodes: seq<Node>, ghost s: Shape, ghost d: int)
    requires Represents(nodes, s) && s.Has(d) && node == nodes[d]
    requires n !in nodes && n.nextSibling == null && n.firstChild == null
    modifies nodes, n
    ensures forall i {:trigger nodes[i]} :: 0 <= i < |nodes| ==> LinksOf(nodes[i]) == Changed(nodes, s, d, n, i, old(LinksOf(nodes[i])))
    ensures LinksOf(n) == Links(node, null, null, if s.last[d] == -1 then n else nodes[s.last[d]])
    ensures forall x <- nodes + [n] :: SameContents(x, old(x.kind), old(x.name), old(x.value), old(x.attributes))
  {
    Heads(nodes, s, d);
    AppendNode(n, node, (set x | x in nodes) + {n});
  }

  lemma LeafRow(nodes: seq<Node>, s: Shape, d: int, n: Node, i: int, x: Links)
    requires s.Valid() && |nodes| == s.Size() && s.Has(d) && s.Has(i) && (s.FirstChild(d) == -1 <==> s.last[d] == -1)
    requires Apart(nodes, i, d)
    requires s.FirstChild(d) != -1 ==> s.Has(d + 1) && s.Has(s.last[d]) && Apart(nodes, i, d + 1) && Apart(nodes, i, s.last[d])
    requires x == Links(At(nodes, s.par[i]), At(nodes, s.FirstChild(i)), At(nodes, s.NextSibling(i)), At(nodes, s.PrevSiblingC(i)))
    ensures Changed(nodes, s, d, n, i, x) == WithLeaf(nodes, s, d, n, i)
  {
    OnlyFirst(s, d, i);
  }

  /** append_node, seen from the whole document. */
  method LinkLeaf(n: Node, node: Node, ghost nodes: seq<Node>, ghost s: Shape, ghost d: int)
    requires Represents(nodes, s) && s.Has(d) && node == nodes[d]
    requires n !in nodes && n.nextSibling == null && n.firstChild == null
    modifies nodes, n
    ensures forall i {:trigger Hangs(nodes, s, d, n, i)} :: 0 <= i < |nodes| ==> Hangs(nodes, s, d, n, i)
    ensures LinksOf(n) == Links(node, null, null, if s.last[d] == -1 then n else nodes[s.last[d]])
    ensures forall x <- nodes + [n] :: SameContents(x, old(x.kind), old(x.name), old(x.value), old(x.attributes))
  {
    Heads(nodes, s, d);
    LinkChild(n, node, nodes, s, d);
    forall i | 0 <= i < |nodes|
      ensures Hangs(nodes, s, d, n, i)
    {
      assert old(Linked(nodes, s, i));
      assert Apart(nodes, i, d);
      if s.FirstChild(d) != -1 {
        assert Apart(nodes, i, d + 1) && Apart(nodes, i, s.last[d]);
      }
      LeafRow(nodes, s, d, n, i, old(LinksOf(nodes[i])));
    }
  }

  lemma OnlyFirst(s: Shape, d: int, i: int)
    requires s.Valid() && s.Has(d) && s.Has(i)
    ensures (i > 0 && s.par[i] == d && s.prev[i] == -1) <==> (s.FirstChild(d) != -1 && i == d + 1)
  {
    if i > 0 && s.par[i] == d && s.prev[i] == -1 {
      assert i < s.end[i] <= s.end[d];
    }
    if s.FirstChild(d) != -1 && i == d + 1 {
      assert d <= s.par[i];
    }
  }

  // ---------- what the copy starts from ----------

  lemma AtSub(nodes: seq<Node>, a: int, e: int, x: int)
    requires 0 <= a < e <= |nodes| && (x == -1 || a <= x < e)
    ensures At(nodes, x) == At(nodes[a..e], Down(x, a))
  {
  }

  /** The tree to be copied, with the new node among it or not. */
  lemma SplicedNow(nodes: seq<Node>, s: Shape, d: int, n: Node, a: int, t: Shape)
    requires s.Valid() && |nodes| == s.Size() && s.Has(d) && s.Has(a) && n !in nodes
    requires forall i, j {:trigger Apart(nodes, i, j)} :: 0 <= i < |nodes| && 0 <= j < |nodes| ==> Apart(nodes, i, j)
    requires forall i {:trigger Hangs(nodes, s, d, n, i)} :: 0 <= i < |nodes| ==> Hangs(nodes, s, d, n, i)
    requires n.parent == nodes[d] && n.nextSibling == null
    requires IsSub(s, a, t) && t.Size() == s.end[a] - a && t.Valid()
    ensures Spliced(nodes[a..s.end[a]], t, n)
  {
    var src := nodes[a..s.end[a]];
    forall i, j | 0 <= i < |src| && 0 <= j < |src|
      ensures Apart(src, i, j)
    {
      assert Apart(nodes, a + i, a + j);
    }
    forall i | 0 <= i < |src|
      ensures SplicedAt(src, t, n, i)
    {
      assert Hangs(nodes, s, d, n, a + i);
      SplicedHere(nodes, s, d, n, a, t, i);
    }
  }

  lemma SplicedFirst(nodes: seq<Node>, s: Shape, d: int, n: Node, a: int, t: Shape, i: int)
    requires s.Valid() && |nodes| == s.Size() && s.Has(d) && s.Has(a) && t.Valid()
    requires IsSub(s, a, t) && t.Size() == s.end[a] - a && t.Has(i)
    requires LinksOf(nodes[a + i]) == WithLeaf(nodes, s, d, n, a + i) && n.parent == nodes[d] && n.nextSibling == null
    ensures var src := nodes[a..s.end[a]]; var x := nodes[a + i];
      x.firstChild == At(src, t.FirstChild(i)) || (x.firstChild == n && n.parent == x && n.nextSibling == At(src, t.FirstChild(i)))
  {
    SubLinks(s, a, t, i);
    AtSub(nodes, a, s.end[a], s.FirstChild(a + i));
  }

  /** A node's links upward and onward, as positions in the document and in the subtree. */
  lemma NextFits(nodes: seq<Node>, a: int, e: int, d: int, n: Node, x: Links, par: int, next: int, isLast: bool)
    requires 0 <= a < e <= |nodes| && 0 <= d < |nodes| && a <= par < e && (next == -1 || a < next < e) && (isLast ==> par == d && next == -1)
    requires x.parent == At(nodes, par) && x.nextSibling == if isLast then n else At(nodes, next)
    requires n.parent == nodes[d] && n.nextSibling == null
    ensures var src := nodes[a..e];
      && x.parent == At(src, par - a)
      && (x.nextSibling == At(src, Down(next, a)) ||
          (x.nextSibling == n && n.parent == At(src, par - a) && n.nextSibling == At(src, Down(next, a))))
  {
  }

  lemma SplicedNext(nodes: seq<Node>, s: Shape, d: int, n: Node, a: int, t: Shape, i: int, isLast: bool)
    requires s.Valid() && |nodes| == s.Size() && s.Has(d) && s.Has(a) && t.Valid()
    requires IsSub(s, a, t) && t.Size() == s.end[a] - a && 1 <= i < t.Size()
    requires nodes[a + i].parent == At(nodes, s.par[a + i])
    requires nodes[a + i].nextSibling == if isLast then n else At(nodes, s.NextSibling(a + i))
    requires n.parent == nodes[d] && n.nextSibling == null && (isLast ==> s.par[a + i] == d && s.NextSibling(a + i) == -1)
    ensures var src := nodes[a..s.end[a]]; var x := nodes[a + i];
      && x.parent == At(src, t.par[i])
      && (x.nextSibling == At(src, t.NextSibling(i)) ||
          (x.nextSibling == n && n.parent == At(src, t.par[i]) && n.nextSibling == At(src, t.NextSibling(i))))
  {
    SubLinks(s, a, t, i);
    var k := a + i;
    NextFits(nodes, a, s.end[a], d, n, LinksOf(nodes[k]), s.par[k], s.NextSibling(k), isLast);
  }

  lemma SplicedHere(nodes: seq<Node>, s: Shape, d: int, n: Node, a: int, t: Shape, i: int)
    requires s.Valid() && |nodes| == s.Size() && s.Has(d) && s.Has(a) && t.Valid()
    requires IsSub(s, a, t) && t.Size() == s.end[a] - a && t.Has(i)
    requires LinksOf(nodes[a + i]) == WithLeaf(nodes, s, d, n, a + i) && n.parent == nodes[d] && n.nextSibling == null
    ensures SplicedAt(nodes[a..s.end[a]], t, n, i)
  {
    assert nodes[a..s.end[a]][i] == nodes[a + i];
    SplicedFirst(nodes, s, d, n, a, t, i);
    if i > 0 {
      var isLast := a + i == s.last[d];
      if isLast { LastHasNone(s, d, a + i); }
      SplicedNext(nodes, s, d, n, a, t, i, isLast);
    }
  }

  lemma LastHasNone(s: Shape, d: int, i: int)
    requires s.Valid() && s.Has(d) && s.Has(i) && i == s.last[d]
    ensures i > 0 && s.par[i] == d && s.NextSibling(i) == -1
  {
  }

  // ---------- the document afterwards ----------

  /** The nodes of the document in document order, with the copies `c` put in at position `p`. */
  ghost function With(nodes: seq<Node>, p: int, c: seq<Node>): (nn: seq<Node>)
    requires 0 <= p <= |nodes|
    ensures |nn| == |nodes| + |c|
  {
    nodes[..p] + c + nodes[p..]
  }

  lemma AtWith(nodes: seq<Node>, p: int, c: seq<Node>, x: int)
    requires 0 <= p <= |nodes| && -1 <= x < |nodes|
    ensures At(With(nodes, p, c), Up(x, p, |c|)) == At(nodes, x)
  {
  }

  lemma AtCopies(nodes: seq<Node>, p: int, c: seq<Node>, x: int)
    requires 0 <= p <= |nodes| && -1 <= x < |c|
    ensures At(With(nodes, p, c), Up(x, 0, p)) == At(c, x)
  {
  }

  /** The four links of a node, at their new positions. */
  lemma RowMoves(nodes: seq<Node>, p: int, c: seq<Node>, x: Links, par: int, first: int, next: int, back: int)
    requires 0 <= p <= |nodes|
    requires -1 <= par < |nodes| && -1 <= first < |nodes| && -1 <= next < |nodes| && -1 <= back < |nodes|
    requires Row(nodes, x, par, first, next, back)
    ensures Row(With(nodes, p, c), x, Up(par, p, |c|), Up(first, p, |c|), Up(next, p, |c|), Up(back, p, |c|))
  {
    AtWith(nodes, p, c, par);
    AtWith(nodes, p, c, first);
    AtWith(nodes, p, c, next);
    AtWith(nodes, p, c, back);
  }

  lemma CopiesMove(nodes: seq<Node>, p: int, c: seq<Node>, x: Links, par: int, first: int, next: int, back: int)
    requires 0 <= p <= |nodes|
    requires -1 <= par < |c| && -1 <= first < |c| && -1 <= next < |c| && -1 <= back < |c|
    requires Row(c, x, par, first, next, back)
    ensures Row(With(nodes, p, c), x, Up(par, 0, p), Up(first, 0, p), Up(next, 0, p), Up(back, 0, p))
  {
    AtCopies(nodes, p, c, par);
    AtCopies(nodes, p, c, first);
    AtCopies(nodes, p, c, next);
    AtCopies(nodes, p, c, back);
  }

  /** The links of a node, as positions in range. */
  lemma RowOf(s: Shape, i: int)
    requires s.Valid() && s.Has(i)
    ensures -1 <= s.par[i] < i && -1 <= s.FirstChild(i) < s.Size() && -1 <= s.NextSibling(i) < s.Size()
    ensures 0 <= s.PrevSiblingC(i) < s.Size()
  {
    if i > 0 && s.prev[i] == -1 {
      assert i < s.end[i] <= s.end[s.par[i]];
    }
  }

  /** What the document needs to be: all about `s`, `t` and `g` that the rows rely on. */
  ghost predicate Grafted(s: Shape, d: int, p: int, t: Shape, g: Shape) {
    && s.Valid() && t.Valid() && g.Valid() && s.Has(d) && p == s.end[d]
    && IsGraft(s, d, p, t, g) && Ready(s, d, p)
  }

  /** The row of position `i` in the grafted tree. */
  ghost predicate RowIn(nn: seq<Node>, g: Shape, i: int, x: Links)
    requires g.Valid() && g.Has(i)
  {
    Row(nn, x, g.par[i], g.FirstChild(i), g.NextSibling(i), g.PrevSiblingC(i))
  }

  lemma RowFrom(nn: seq<Node>, g: Shape, i: int, x: Links, par: int, first: int, next: int, back: int)
    requires g.Valid() && g.Has(i) && Row(nn, x, par, first, next, back)
    requires g.par[i] == par && g.FirstChild(i) == first && g.NextSibling(i) == next && g.PrevSiblingC(i) == back
    ensures RowIn(nn, g, i, x)
  {
  }

  /** Where the links of an old node lead now. */
  lemma MovedBefore(s: Shape, d: int, p: int, t: Shape, g: Shape, i: int, m: int)
    requires Grafted(s, d, p, t, g) && 0 <= i < p && m == t.Size()
    ensures g.Has(i) && g.par[i] == Up(s.par[i], p, m)
    ensures g.FirstChild(i) == if i == d && s.FirstChild(d) == -1 then p else Up(s.FirstChild(i), p, m)
    ensures g.NextSibling(i) == if i == s.last[d] then p else Up(s.NextSibling(i), p, m)
    ensures g.PrevSiblingC(i) == if i > 0 && s.par[i] == d && s.prev[i] == -1 then p else Up(s.PrevSiblingC(i), p, m)
  {
    LinksBefore(s, d, p, t, g, i);
    LinksAre(s, i);
    LinksAre(s, d);
    LinksAre(g, i);
    assert GraftAt(s, d, p, t, g, i);
    assert i == 0 || NodeOk(s, i);
  }

  lemma MovedUpBehind(s: Shape, d: int, p: int, t: Shape, g: Shape, k: int, i: int, m: int)
    requires Grafted(s, d, p, t, g) && p <= k < s.Size() && i == k + m && m == t.Size()
    ensures g.Has(i) && g.par[i] == Up(s.par[k], p, m)
  {
    LinksBehind(s, d, p, t, g, k);
  }

  lemma FirstIs(s: Shape, i: int)
    requires s.Valid() && s.Has(i)
    ensures InRange(s) && First(s, i) == s.FirstChild(i)
  {
    LinksAre(s, i);
  }

  lemma MovedFirstBehind(s: Shape, d: int, p: int, t: Shape, g: Shape, k: int, i: int, m: int)
    requires Grafted(s, d, p, t, g) && p <= k < s.Size() && i == k + m && m == t.Size()
    ensures g.Has(i) && g.FirstChild(i) == Up(s.FirstChild(k), p, m)
  {
    FirstIs(s, k);
    FirstBehind(s, d, p, t, g, k, i);
    FirstIs(g, i);
  }

  lemma FirstBehind(s: Shape, d: int, p: int, t: Shape, g: Shape, k: int, i: int)
    requires IsGraft(s, d, p, t, g) && Ready(s, d, p) && p <= k < s.Size() && i == k + t.Size()
    ensures InRange(s) && InRange(g) && g.Has(i) && First(g, i) == Up(First(s, k), p, t.Size())
  {
    LinksBehind(s, d, p, t, g, k);
  }

  lemma MovedAsideBehind(s: Shape, d: int, p: int, t: Shape, g: Shape, k: int, i: int, m: int)
    requires Grafted(s, d, p, t, g) && p <= k < s.Size() && i == k + m && m == t.Size()
    ensures g.Has(i) && g.NextSibling(i) == Up(s.NextSibling(k), p, m) && g.PrevSiblingC(i) == Up(s.PrevSiblingC(k), p, m)
  {
    LinksBehind(s, d, p, t, g, k);
    LinksAre(s, k);
    LinksAre(g, i);
  }

  lemma MovedBehind(s: Shape, d: int, p: int, t: Shape, g: Shape, k: int, i: int, m: int)
    requires Grafted(s, d, p, t, g) && p <= k < s.Size() && i == k + m && m == t.Size()
    ensures g.Has(i) && g.par[i] == Up(s.par[k], p, m) && g.FirstChild(i) == Up(s.FirstChild(k), p, m)
    ensures g.NextSibling(i) == Up(s.NextSibling(k), p, m) && g.PrevSiblingC(i) == Up(s.PrevSiblingC(k), p, m)
  {
    MovedUpBehind(s, d, p, t, g, k, i, m);
    MovedFirstBehind(s, d, p, t, g, k, i, m);
    MovedAsideBehind(s, d, p, t, g, k, i, m);
  }

  lemma MovedUpCopy(s: Shape, d: int, p: int, t: Shape, g: Shape, j: int, i: int)
    requires Grafted(s, d, p, t, g) && 1 <= j < t.Size() && i == p + j
    ensures g.Has(i) && g.par[i] == Up(t.par[j], 0, p) && g.FirstChild(i) == Up(t.FirstChild(j), 0, p)
  {
    ReadyFacts(t, 0);
    LinksInGraft(s, d, p, t, g, j);
    LinksAre(t, j);
    LinksAre(g, i);
  }

  lemma MovedAsideCopy(s: Shape, d: int, p: int, t: Shape, g: Shape, j: int, i: int)
    requires Grafted(s, d, p, t, g) && 1 <= j < t.Size() && i == p + j
    ensures g.Has(i) && g.NextSibling(i) == Up(t.NextSibling(j), 0, p) && g.PrevSiblingC(i) == Up(t.PrevSiblingC(j), 0, p)
  {
    ReadyFacts(t, 0);
    LinksInGraft(s, d, p, t, g, j);
    LinksAre(t, j);
    LinksAre(g, i);
  }

  lemma MovedCopy(s: Shape, d: int, p: int, t: Shape, g: Shape, j: int, i: int)
    requires Grafted(s, d, p, t, g) && 1 <= j < t.Size() && i == p + j
    ensures g.Has(i) && g.par[i] == Up(t.par[j], 0, p) && g.FirstChild(i) == Up(t.FirstChild(j), 0, p)
    ensures g.NextSibling(i) == Up(t.NextSibling(j), 0, p) && g.PrevSiblingC(i) == Up(t.PrevSiblingC(j), 0, p)
  {
    MovedUpCopy(s, d, p, t, g, j, i);
    MovedAsideCopy(s, d, p, t, g, j, i);
  }

  /** The row of an old node, with the links to the new node in it. */
  lemma LeafMoves(nodes: seq<Node>, s: Shape, d: int, p: int, c: seq<Node>, n: Node, i: int)
    requires s.Valid() && s.Has(d) && s.Has(i) && |nodes| == s.Size() && 0 <= p <= |nodes| && |c| >= 1 && c[0] == n
    ensures var m := |c|; Row(With(nodes, p, c), WithLeaf(nodes, s, d, n, i), Up(s.par[i], p, m),
      if i == d && s.FirstChild(d) == -1 then p else Up(s.FirstChild(i), p, m),
      if i == s.last[d] then p else Up(s.NextSibling(i), p, m),
      if i > 0 && s.par[i] == d && s.prev[i] == -1 then p else Up(s.PrevSiblingC(i), p, m))
  {
    RowOf(s, i);
    var y := Links(At(nodes, s.par[i]), At(nodes, s.FirstChild(i)), At(nodes, s.NextSibling(i)), At(nodes, s.PrevSiblingC(i)));
    RowMoves(nodes, p, c, y, s.par[i], s.FirstChild(i), s.NextSibling(i), s.PrevSiblingC(i));
    assert At(With(nodes, p, c), p) == n;
  }

  lemma RowBefore(nodes: seq<Node>, s: Shape, d: int, p: int, t: Shape, g: Shape, c: seq<Node>, n: Node, i: int)
    requires Grafted(s, d, p, t, g) && |nodes| == s.Size() && |c| == t.Size() && c[0] == n && 0 <= i < p
    ensures RowIn(With(nodes, p, c), g, i, WithLeaf(nodes, s, d, n, i))
  {
    MovedBefore(s, d, p, t, g, i, |c|);
    LeafMoves(nodes, s, d, p, c, n, i);
    RowFrom(With(nodes, p, c), g, i, WithLeaf(nodes, s, d, n, i), g.par[i], g.FirstChild(i), g.NextSibling(i), g.PrevSiblingC(i));
  }

  lemma RowBehind(nodes: seq<Node>, s: Shape, d: int, p: int, t: Shape, g: Shape, c: seq<Node>, n: Node, k: int, i: int)
    requires Grafted(s, d, p, t, g) && |nodes| == s.Size() && |c| == t.Size() && c[0] == n && p <= k < s.Size() && i == k + |c|
    ensures g.Has(i) && RowIn(With(nodes, p, c), g, i, WithLeaf(nodes, s, d, n, k))
  {
    MovedBehind(s, d, p, t, g, k, i, |c|);
    NotTheLeaf(s, d, k);
    LeafMoves(nodes, s, d, p, c, n, k);
    RowFrom(With(nodes, p, c), g, i, WithLeaf(nodes, s, d, n, k), g.par[i], g.FirstChild(i), g.NextSibling(i), g.PrevSiblingC(i));
  }

  /** Behind the subtree of `d` no link leads to the new node. */
  lemma NotTheLeaf(s: Shape, d: int, k: int)
    requires s.Valid() && s.Has(d) && s.end[d] <= k < s.Size()
    ensures k != d && k != s.last[d] && s.par[k] != d
  {
    BehindFacts(s, d, k);
    Facts(s, d);
    AfterLast(s, d);
  }

  lemma RowCopied(nodes: seq<Node>, s: Shape, d: int, p: int, t: Shape, g: Shape, c: seq<Node>, j: int, i: int, x: Links)
    requires Grafted(s, d, p, t, g) && |nodes| == s.Size() && |c| == t.Size() && 1 <= j < t.Size() && CopyTree.Fits(c, t, j, x)
    requires i == p + j
    ensures RowIn(With(nodes, p, c), g, i, x)
  {
    MovedCopy(s, d, p, t, g, j, i);
    RowOf(t, j);
    BackIsBack(t, j);
    CopiesMove(nodes, p, c, x, t.par[j], t.FirstChild(j), t.NextSibling(j), t.PrevSiblingC(j));
    RowFrom(With(nodes, p, c), g, i, x, g.par[i], g.FirstChild(i), g.NextSibling(i), g.PrevSiblingC(i));
  }

  /** Once all copies exist, the back links are those of the tree. */
  lemma BackIsBack(t: Shape, j: int)
    requires t.Valid() && 1 <= j < t.Size()
    ensures Back(t, j, t.Size()) == t.PrevSiblingC(j)
  {
    if t.prev[j] == -1 {
      RowOf(t, j);
      LastIsLast(t, t.par[j], t.Size());
    }
  }

  lemma MovedRoot(s: Shape, d: int, p: int, t: Shape, g: Shape)
    requires Grafted(s, d, p, t, g)
    ensures g.Has(p) && g.par[p] == d && g.FirstChild(p) == Up(t.FirstChild(0), 0, p)
    ensures g.NextSibling(p) == -1 && g.PrevSiblingC(p) == if s.last[d] == -1 then p else s.last[d]
  {
    ReadyFacts(t, 0);
    LinksInGraft(s, d, p, t, g, 0);
    LinksAre(t, 0);
    LinksAre(g, p);
  }

  lemma RowRoot(nodes: seq<Node>, s: Shape, d: int, p: int, t: Shape, g: Shape, c: seq<Node>, n: Node, x: Links)
    requires Grafted(s, d, p, t, g) && |nodes| == s.Size() && |c| == t.Size() && c[0] == n && CopyTree.Fits(c, t, 0, x)
    requires x.parent == nodes[d] && x.nextSibling == null && x.prevSiblingC == if s.last[d] == -1 then n else At(nodes, s.last[d])
    requires s.last[d] < p
    ensures RowIn(With(nodes, p, c), g, p, x)
  {
    MovedRoot(s, d, p, t, g);
    AtCopies(nodes, p, c, t.FirstChild(0));
    RowFrom(With(nodes, p, c), g, p, x, d, Up(t.FirstChild(0), 0, p), -1, if s.last[d] == -1 then p else s.last[d]);
  }

  lemma DistinctWith(nodes: seq<Node>, p: int, c: seq<Node>)
    requires 0 <= p <= |nodes| && Distinct(nodes) && Distinct(c)
    requires forall i {:trigger c[i]} :: 0 <= i < |c| ==> c[i] !in nodes
    ensures Distinct(With(nodes, p, c))
  {
    var nn := With(nodes, p, c);
    forall i, j | 0 <= i < |nn| && 0 <= j < |nn|
      ensures Apart(nn, i, j)
    {
      var x := if i < p then i else i - |c|;
      var y := if j < p then j else j - |c|;
      if p <= i < p + |c| {
        assert nn[i] == c[i - p];
        if p <= j < p + |c| { assert Apart(c, i - p, j - p); } else { assert nn[j] == nodes[y]; }
      } else {
        assert nn[i] == nodes[x];
        if p <= j < p + |c| { assert nn[j] == c[j - p]; } else { assert Apart(nodes, x, y); }
      }
    }
  }

  ghost predicate AllHang(nodes: seq<Node>, s: Shape, d: int, n: Node)
    reads nodes
  {
    && s.Valid() && |nodes| == s.Size() && s.Has(d)
    && forall i {:trigger Hangs(nodes, s, d, n, i)} :: 0 <= i < |nodes| ==> Hangs(nodes, s, d, n, i)
  }

  /** The place of the new node. */
  ghost predicate LeafLinks(nodes: seq<Node>, s: Shape, d: int, n: Node, x: Links) {
    && s.Valid() && |nodes| == s.Size() && s.Has(d) && -1 <= s.last[d] < s.end[d]
    && x.parent == nodes[d] && x.nextSibling == null && x.prevSiblingC == if s.last[d] == -1 then n else nodes[s.last[d]]
  }

  /** The links of every node are in place. */
  ghost predicate Placed(nodes: seq<Node>, s: Shape, d: int, n: Node, c: seq<Node>, t: Shape)
    reads nodes, c
  {
    && s.Valid() && t.Valid() && |nodes| == s.Size() && s.Has(d) && |c| == t.Size() && c[0] == n
    && Distinct(nodes) && Building(c, t)
    && (forall i {:trigger c[i]} :: 0 <= i < |c| ==> c[i] !in nodes)
    && AllHang(nodes, s, d, n) && LeafLinks(nodes, s, d, n, LinksOf(n))
  }

  /** Which node stands at position `i`. */
  lemma WhoIsAt(nodes: seq<Node>, p: int, c: seq<Node>, i: int)
    requires 0 <= p <= |nodes| && 0 <= i < |nodes| + |c|
    ensures With(nodes, p, c)[i] == if i < p then nodes[i] else if i < p + |c| then c[i - p] else nodes[i - |c|]
  {
  }

  lemma RowOfCopy(nodes: seq<Node>, s: Shape, d: int, p: int, n: Node, c: seq<Node>, t: Shape, g: Shape, j: int, i: int, x: Links)
    requires Grafted(s, d, p, t, g) && 0 <= j < |c| && i == p + j && |nodes| == s.Size() && |c| == t.Size() && c[0] == n
    requires CopyTree.Fits(c, t, j, x) && s.last[d] < p
    requires j == 0 ==> x.parent == nodes[d] && x.nextSibling == null && x.prevSiblingC == if s.last[d] == -1 then n else At(nodes, s.last[d])
    ensures g.Has(i) && RowIn(With(nodes, p, c), g, i, x)
  {
    if j == 0 {
      RowRoot(nodes, s, d, p, t, g, c, n, x);
    } else {
      RowCopied(nodes, s, d, p, t, g, c, j, i, x);
    }
  }

  lemma RowOfOld(nodes: seq<Node>, s: Shape, d: int, p: int, n: Node, c: seq<Node>, t: Shape, g: Shape, k: int, i: int, x: Links)
    requires Grafted(s, d, p, t, g) && s.Has(k) && |nodes| == s.Size() && |c| == t.Size() && c[0] == n
    requires x == WithLeaf(nodes, s, d, n, k) && i == Up(k, p, |c|)
    ensures g.Has(i) && RowIn(With(nodes, p, c), g, i, x)
  {
    if k < p {
      RowBefore(nodes, s, d, p, t, g, c, n, k);
    } else {
      RowBehind(nodes, s, d, p, t, g, c, n, k, i);
    }
  }

  lemma RowAt(nodes: seq<Node>, s: Shape, d: int, p: int, n: Node, c: seq<Node>, t: Shape, g: Shape, i: int, x: Links)
    requires Placed(nodes, s, d, n, c, t) && Grafted(s, d, p, t, g) && g.Has(i) && x == LinksOf(With(nodes, p, c)[i])
    ensures RowIn(With(nodes, p, c), g, i, x)
  {
    WhoIsAt(nodes, p, c, i);
    if p <= i < p + |c| {
      assert LinkedUpTo(c, t, i - p);
      RowOfCopy(nodes, s, d, p, n, c, t, g, i - p, i, x);
    } else {
      var k := if i < p then i else i - |c|;
      assert Hangs(nodes, s, d, n, k);
      RowOfOld(nodes, s, d, p, n, c, t, g, k, i, x);
    }
  }

  lemma Whole(nodes: seq<Node>, s: Shape, d: int, n: Node, c: seq<Node>, t: Shape, g: Shape)
    requires Placed(nodes, s, d, n, c, t) && Grafted(s, d, s.end[d], t, g)
    ensures Represents(With(nodes, s.end[d], c), g)
  {
    var nn := With(nodes, s.end[d], c);
    DistinctWith(nodes, s.end[d], c);
    forall i {:trigger Linked(nn, g, i)} | 0 <= i < |nn|
      ensures Linked(nn, g, i)
    {
      RowAt(nodes, s, d, s.end[d], n, c, t, g, i, LinksOf(nn[i]));
    }
  }

  /** The document's shape after a copy of the tree at `a` of a document of shape `from` is put under `d`. */
  ghost function Afterwards(s: Shape, d: int, from: Shape, a: int): (g: Shape)
    requires s.Valid() && s.Has(d) && from.Valid() && from.Has(a)
  {
    Facts(s, d);
    Facts(from, a);
    Graft(s, d, Sub(from, a))
  }

  lemma AfterwardsValid(s: Shape, d: int, from: Shape, a: int)
    requires s.Valid() && s.Has(d) && from.Valid() && from.Has(a)
    ensures var t := Sub(from, a); IsSub(from, a, t) && t.Valid() && Grafted(s, d, s.end[d], t, Afterwards(s, d, from, a))
  {
    var t := Sub(from, a);
    Facts(s, d);
    Facts(from, a);
    SubIs(from, a);
    SubValid(from, a, t);
    GraftIs(s, d, t);
    GraftValid(s, d, t, Graft(s, d, t));
    ReadyFacts(s, d);
  }

  datatype Contents = Contents(kind: Kind, name: Option<string>, value: Option<string>, attributes: seq<Attr>)

  function ContentsOf(x: Node): Contents
    reads x
  {
    Contents(x.kind, x.name, x.value, x.attributes)
  }

  predicate Holds(x: Node, k: Contents)
    reads x
  {
    ContentsOf(x) == k
  }

  lemma SubSpliced(nodes: seq<Node>, s: Shape, d: int, n: Node, a: int)
    requires AllHang(nodes, s, d, n) && s.Has(a) && n !in nodes && Distinct(nodes) && n.parent == nodes[d] && n.nextSibling == null
    ensures Sub(s, a).Valid() && a < s.end[a] <= |nodes| && Spliced(nodes[a..s.end[a]], Sub(s, a), n)
  {
    Facts(s, a);
    SubIs(s, a);
    SubValid(s, a, Sub(s, a));
    SplicedNow(nodes, s, d, n, a, Sub(s, a));
  }

  /** Link the new node: the tree to be copied may now have it inside. */
  method LinkUnder(n: Node, node: Node, ghost nodes: seq<Node>, ghost s: Shape, ghost d: int, ghost a: int)
    requires Represents(nodes, s) && s.Has(d) && s.Has(a) && node == nodes[d]
    requires n !in nodes && LinksOf(n) == Links(null, null, null, null)
    modifies nodes, n
    ensures AllHang(nodes, s, d, n) && LeafLinks(nodes, s, d, n, LinksOf(n))
    ensures n.firstChild == null && Holds(n, old(ContentsOf(n)))
    ensures Sub(s, a).Valid() && a < s.end[a] <= |nodes| && Spliced(nodes[a..s.end[a]], Sub(s, a), n)
    ensures forall i {:trigger nodes[i]} :: 0 <= i < |nodes| ==> Holds(nodes[i], old(ContentsOf(nodes[i])))
  {
    Facts(s, d);
    AfterLast(s, d);
    LinkLeaf(n, node, nodes, s, d);
    SubSpliced(nodes, s, d, n, a);
    assert n in nodes + [n];
    assert forall i {:trigger nodes[i]} :: 0 <= i < |nodes| ==> nodes[i] in nodes + [n];
  }

  /** Copy the tree under the new node: the links of every node are then in place. */
  method CopyUnder(n: Node, proto: Node, ghost nodes: seq<Node>, ghost s: Shape, ghost d: int, ghost src: seq<Node>, ghost t: Shape)
    returns (ghost c: seq<Node>)
    requires Spliced(src, t, n) && proto == src[0] && n !in nodes && Distinct(nodes)
    requires AllHang(nodes, s, d, n) && LeafLinks(nodes, s, d, n, LinksOf(n))
    requires n.firstChild == null && SameContents(n, proto.kind, None, None, [])
    modifies n
    ensures Placed(nodes, s, d, n, c, t)
    ensures forall i {:trigger c[i]} :: 0 <= i < |c| ==> Holds(c[i], old(ContentsOf(src[i])))
  {
    c := NodeCopyTree(n, proto, src, t);
    assert AllHang(nodes, s, d, n);
    forall i {:trigger c[i]} | 0 <= i < |c|
      ensures c[i] !in nodes
    {
    }
    forall i {:trigger c[i]} | 0 <= i < |c|
      ensures Holds(c[i], old(ContentsOf(src[i])))
    {
      assert Alike(c, src, i);
    }
  }

  /** With the copy under the new node the document is whole again. */
  method CopyWhole(n: Node, proto: Node, ghost nodes: seq<Node>, ghost s: Shape, ghost d: int, ghost src: seq<Node>, ghost from: Shape, ghost a: int)
    returns (ghost c: seq<Node>)
    requires s.Valid() && s.Has(d) && from.Valid() && from.Has(a) && Spliced(src, Sub(from, a), n) && proto == src[0]
    requires n !in nodes && Distinct(nodes) && AllHang(nodes, s, d, n) && LeafLinks(nodes, s, d, n, LinksOf(n))
    requires n.firstChild == null && SameContents(n, proto.kind, None, None, [])
    modifies n
    ensures |c| == |src| && c[0] == n
    ensures Represents(With(nodes, s.end[d], c), Afterwards(s, d, from, a))
    ensures forall i {:trigger c[i]} :: 0 <= i < |c| ==> Holds(c[i], old(ContentsOf(src[i])))
  {
    c := CopyUnder(n, proto, nodes, s, d, src, Sub(from, a));
    AfterwardsValid(s, d, from, a);
    Whole(nodes, s, d, n, c, Sub(from, a), Afterwards(s, d, from, a));
  }

  /** append_copy: the document becomes the one with a copy of the tree at `a` as the last child of
      `d`, linked and filled as the original was before, even when `d` lies inside that tree; no other
      node's contents change. A copy that may not go there changes nothing. */
  method AppendCopy(node: Node, proto: Node, ghost nodes: seq<Node>, ghost s: Shape, ghost d: int, ghost a: int)
    returns (n: Node?, ghost c: seq<Node>)
    requires Represents(nodes, s) && s.Has(d) && s.Has(a) && node == nodes[d] && proto == nodes[a]
    modifies nodes
    ensures n != null <==> AllowInsertChild(old(node.kind), old(proto.kind))
    ensures n == null ==> forall x <- nodes :: LinksOf(x) == old(LinksOf(x))
    ensures n != null ==> fresh(n) && |c| == s.end[a] - a && c[0] == n
    ensures n != null ==> Represents(With(nodes, s.end[d], c), Afterwards(s, d, s, a))
    ensures n != null ==> forall i {:trigger c[i]} :: 0 <= i < |c| ==> Holds(c[i], old(ContentsOf(nodes[a + i])))
    ensures forall i {:trigger nodes[i]} :: 0 <= i < |nodes| ==> Holds(nodes[i], old(ContentsOf(nodes[i])))
  {
    c := [];
    if !AllowInsertChild(node.kind, proto.kind) {
      return null, [];
    }
    var copy := new Node(proto.kind);
    n := copy;
    LinkUnder(copy, node, nodes, s, d, a);
    ghost var src := nodes[a..s.end[a]];
    assert src[0] == proto == nodes[a];
    c := CopyWhole(copy, proto, nodes, s, d, src, s, a);
  }

  // ---------- a prototype in another document ----------

  lemma SplicedApartAt(other: seq<Node>, s: Shape, a: int, t: Shape, n: Node, i: int)
    requires Represents(other, s) && s.Has(a) && a < s.end[a] <= |other|
    requires IsSub(s, a, t) && t.Size() == s.end[a] - a && t.Valid() && t.Has(i)
    ensures SplicedAt(other[a..s.end[a]], t, n, i)
  {
    assert Linked(other, s, a + i);
    SubLinks(s, a, t, i);
    AtSub(other, a, s.end[a], s.FirstChild(a + i));
    if i > 0 {
      AtSub(other, a, s.end[a], s.par[a + i]);
      AtSub(other, a, s.end[a], s.NextSibling(a + i));
    }
  }

  lemma SplicedAround(other: seq<Node>, s: Shape, a: int, t: Shape, n: Node)
    requires Represents(other, s) && s.Has(a) && a < s.end[a] <= |other| && n !in other
    requires IsSub(s, a, t) && t.Size() == s.end[a] - a && t.Valid()
    ensures Spliced(other[a..s.end[a]], t, n)
  {
    var src := other[a..s.end[a]];
    forall i, j | 0 <= i < |src| && 0 <= j < |src|
      ensures Apart(src, i, j)
    {
      assert Apart(other, a + i, a + j);
    }
    forall i | 0 <= i < |src|
      ensures SplicedAt(src, t, n, i)
    {
      SplicedApartAt(other, s, a, t, n, i);
    }
  }

  /** The tree to be copied, when the new node is nowhere near it. */
  lemma SplicedApart(other: seq<Node>, s: Shape, a: int, n: Node)
    requires Represents(other, s) && s.Has(a) && n !in other
    ensures Sub(s, a).Valid() && a < s.end[a] <= |other| && Spliced(other[a..s.end[a]], Sub(s, a), n)
  {
    Facts(s, a);
    SubIs(s, a);
    SubValid(s, a, Sub(s, a));
    SplicedAround(other, s, a, Sub(s, a), n);
  }

  /** Link the new node: the other document stays as it is. */
  method LinkApart(n: Node, node: Node, ghost nodes: seq<Node>, ghost s: Shape, ghost d: int,
                   ghost other: seq<Node>, ghost from: Shape, ghost a: int)
    requires Represents(nodes, s) && s.Has(d) && node == nodes[d]
    requires n !in nodes && n !in other && LinksOf(n) == Links(null, null, null, null)
    requires Represents(other, from) && from.Has(a) && forall x <- other :: x !in nodes
    modifies nodes, n
    ensures AllHang(nodes, s, d, n) && LeafLinks(nodes, s, d, n, LinksOf(n))
    ensures n.firstChild == null && Holds(n, old(ContentsOf(n)))
    ensures Sub(from, a).Valid() && a < from.end[a] <= |other| && Spliced(other[a..from.end[a]], Sub(from, a), n)
    ensures forall i {:trigger nodes[i]} :: 0 <= i < |nodes| ==> Holds(nodes[i], old(ContentsOf(nodes[i])))
    ensures forall i {:trigger other[i]} :: 0 <= i < |other| ==> ContentsOf(other[i]) == old(ContentsOf(other[i]))
  {
    LinkUnder(n, node, nodes, s, d, d);
    forall i {:trigger other[i]} | 0 <= i < |other|
      ensures ContentsOf(other[i]) == old(ContentsOf(other[i])) && Linked(other, from, i)
    {
      assert old(Linked(other, from, i));
      assert other[i] in other && other[i] !in nodes && other[i] != n;
      assert LinksOf(other[i]) == old(LinksOf(other[i]));
    }
    assert forall i {:trigger Linked(other, from, i)} :: 0 <= i < |other| ==> other[i] == other[i] && Linked(other, from, i);
    SplicedApart(other, from, a, n);
  }

  /** append_copy of the tree at `a` of another document: this document becomes the one with the copy as
      the last child of `d`, and nothing changes in the other. */
  method AppendCopyFrom(node: Node, proto: Node, ghost nodes: seq<Node>, ghost s: Shape, ghost d: int,
                        ghost other: seq<Node>, ghost from: Shape, ghost a: int)
    returns (n: Node?, ghost c: seq<Node>)
    requires Represents(nodes, s) && s.Has(d) && node == nodes[d]
    requires Represents(other, from) && from.Has(a) && proto == other[a] && forall x <- other :: x !in nodes
    modifies nodes
    ensures n != null <==> AllowInsertChild(old(node.kind), proto.kind)
    ensures n == null ==> forall x <- nodes :: LinksOf(x) == old(LinksOf(x))
    ensures n != null ==> fresh(n) && |c| == from.end[a] - a && c[0] == n
    ensures n != null ==> Represents(With(nodes, s.end[d], c), Afterwards(s, d, from, a))
    ensures n != null ==> forall i {:trigger c[i]} :: 0 <= i < |c| ==> Holds(c[i], old(ContentsOf(other[a + i])))
    ensures forall i {:trigger nodes[i]} :: 0 <= i < |nodes| ==> Holds(nodes[i], old(ContentsOf(nodes[i])))
  {
    c := [];
    if !AllowInsertChild(node.kind, proto.kind) {
      return null, [];
    }
    var copy := new Node(proto.kind);
    n := copy;
    LinkApart(copy, node, nodes, s, d, other, from, a);
    ghost var src := other[a..from.end[a]];
    assert src[0] == proto == other[a];
    c := CopyWhole(copy, proto, nodes, s, d, src, from, a);
  }

  /** What may be put where: only the document and elements have children, a document is nobody's child, and
      declarations stand below the document only. */
  lemma PlacesAllowed(kind: Kind)
    ensures AllowInsertChild(Document, kind) <==> kind in {Element, Pcdata, Cdata, Comment, Pi, Declaration, Doctype}
    ensures AllowInsertChild(Element, kind) <==> kind in {Element, Pcdata, Cdata, Comment, Pi}
    ensures forall parent :: parent != Document && parent != Element ==> !AllowInsertChild(parent, kind)
  {
  }
}
