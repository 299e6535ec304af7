/** Deep copies: a tree is copied under a new node, which may itself lie inside the tree being copied. */
module CopyTree {
  import opened Wrappers
  import opened Tree

  // ---------- linking a new child ----------

  /** append_node: the links it sets, and nothing else among `touched`. */
  method AppendNode(child: Node, node: Node, ghost touched: set<Node>)
    requires child in touched && node in touched && child != node
    requires node.firstChild != null ==>
      node.firstChild in touched && node.firstChild.prevSiblingC != null && node.firstChild.prevSiblingC in touched &&
      child != node.firstChild && child != node.firstChild.prevSiblingC
    modifies touched
    ensures child.parent == node
    ensures old(node.firstChild) == null ==> node.firstChild == child && child.prevSiblingC == child
    ensures old(node.firstChild) != null ==>
      var head := old(node.firstChild); var tail := old(node.firstChild.prevSiblingC);
      node.firstChild == head && tail.nextSibling == child && child.prevSiblingC == tail && head.prevSiblingC == child
    ensures forall x <- touched ::
      && (x != child ==> x.parent == old(x.parent))
      && (x != node ==> x.firstChild == old(x.firstChild))
      && (x.nextSibling == old(x.nextSibling) || (old(node.firstChild) != null && x == old(node.firstChild.prevSiblingC)))
      && (x.prevSiblingC == old(x.prevSiblingC) || x == child || x == old(node.firstChild))
      && SameContents(x, old(x.kind), old(x.name), old(x.value), old(x.attributes))
  {
    child.parent := node;
    var head := node.firstChild;
    if head != null {
      var tail := head.prevSiblingC;
      tail.nextSibling := child;
      child.prevSiblingC := tail;
      head.prevSiblingC := child;
    } else {
      node.firstChild := child;
      child.prevSiblingC := child;
    }
  }

  predicate SameContents(x: Node, k: Kind, name: Option<string>, value: Option<string>, attributes: seq<Attr>)
    reads x
  {
    x.kind == k && x.name == name && x.value == value && x.attributes == attributes
  }

  /** node_copy_contents, on a node that has none yet. */
  method NodeCopyContents(dn: Node, sn: Node)
    requires dn != sn && dn.name == None && dn.value == None && dn.attributes == []
    modifies dn`name, dn`value, dn`attributes
    ensures SameContents(dn, dn.kind, sn.name, sn.value, sn.attributes)
  {
    if sn.name.Some? {
      dn.name := sn.name;
    }
    if sn.value.Some? {
      dn.value := sn.value;
    }
    var k := 0;
    while k < |sn.attributes|
      invariant 0 <= k <= |sn.attributes| && dn.attributes == sn.attributes[..k]
      invariant dn.name == sn.name && dn.value == sn.value
    {
      dn.attributes := dn.attributes + [sn.attributes[k]];
      k := k + 1;
    }
  }

  // ---------- the copies made so far ----------

  /** The last child of `i` among the first `k` positions, or -1. */
  ghost function LastBelow(t: Shape, i: nat, k: nat): (r: int)
    requires t.Valid() && k <= t.Size()
    ensures -1 <= r < k && (r != -1 ==> i < r && t.par[r] == i)
  {
    if k <= i + 1 then -1 else if t.par[k - 1] == i then k - 1 else LastBelow(t, i, k - 1)
  }

  /** Before position `k` is added, the last child of its parent is its previous sibling. */
  lemma {:induction false} PrevIsLast(t: Shape, k: int, m: int)
    requires t.Valid() && 1 <= k < t.Size() && t.par[k] < m <= k && (t.prev[k] == -1 || t.prev[k] < m)
    ensures LastBelow(t, t.par[k], m) == t.prev[k]
    decreases m
  {
    if m > t.par[k] + 1 && m - 1 != t.prev[k] {
      var b := t.prev[k];
      assert t.end[b] == k;
      assert b <= t.par[m - 1];
      PrevIsLast(t, k, m - 1);
    }
  }

  lemma {:induction false} LastIsLast(t: Shape, i: nat, m: int)
    requires t.Valid() && i < m <= t.Size() && t.end[i] > i + 1 && t.last[i] < m
    ensures LastBelow(t, i, m) == t.last[i]
    decreases m
  {
    var b := t.last[i];
    if m - 1 != b {
      assert m - 1 < t.end[b] ==> b <= t.par[m - 1];
      LastIsLast(t, i, m - 1);
    }
  }

  datatype Links = Links(parent: Node?, firstChild: Node?, nextSibling: Node?, prevSiblingC: Node?)

  function LinksOf(x: Node): Links
    reads x
  {
    Links(x.parent, x.firstChild, x.nextSibling, x.prevSiblingC)
  }

  /** Where the back link of a copy leads while there are `k` of them. */
  ghost function Back(t: Shape, i: int, k: nat): int
    requires t.Valid() && 0 < i < t.Size() && k <= t.Size()
  {
    if t.prev[i] == -1 then LastBelow(t, t.par[i], k) else t.prev[i]
  }

  /** The links of copy `i` when only the first copies exist: links to later ones are null. The root's
      own place is not looked at. */
  ghost predicate Fits(c: seq<Node>, t: Shape, i: int, x: Links)
    requires t.Valid() && |c| <= t.Size() && 0 <= i < |c|
  {
    && x.firstChild == At(c, t.FirstChild(i))
    && (i > 0 ==>
      && x.parent == At(c, t.par[i])
      && x.nextSibling == At(c, t.NextSibling(i))
      && x.prevSiblingC == At(c, Back(t, i, |c|)))
  }

  ghost predicate LinkedUpTo(c: seq<Node>, t: Shape, i: int)
    requires t.Valid() && |c| <= t.Size() && 0 <= i < |c|
    reads c[i]
  {
    Fits(c, t, i, LinksOf(c[i]))
  }

  ghost predicate Distinct(c: seq<Node>) {
    forall i, j {:trigger Apart(c, i, j)} :: 0 <= i < |c| && 0 <= j < |c| ==> Apart(c, i, j)
  }

  ghost predicate Building(c: seq<Node>, t: Shape)
    reads c
  {
    && t.Valid() && 1 <= |c| <= t.Size() && Distinct(c)
    && (forall i {:trigger LinkedUpTo(c, t, i)} :: 0 <= i < |c| ==> LinkedUpTo(c, t, i))
  }

  /** What position `k` changes in the links of an earlier position. */
  lemma NewPosition(t: Shape, k: int, i: int)
    requires t.Valid() && 0 <= i < k < t.Size()
    ensures t.FirstChild(i) == k <==> i == t.par[k] && t.prev[k] == -1
    ensures t.FirstChild(i) == -1 || t.FirstChild(i) == i + 1
    ensures t.prev[k] == -1 <==> k == t.par[k] + 1
    ensures i > 0 ==> (t.NextSibling(i) == k <==> i == t.prev[k])
    ensures i > 0 ==> t.prev[i] < i && 0 <= t.par[i] < i
    ensures i > 0 && t.prev[i] == -1 ==> LastBelow(t, t.par[i], k + 1) == if i == t.par[k] + 1 then k else LastBelow(t, t.par[i], k)
  {
    t.SiblingLinks(k);
    if i > 0 {
      t.SiblingLinks(i);
    }
  }

  /** What append_node does to the links of an earlier copy. */
  ghost function Appended(t: Shape, k: int, i: int, copy: Node, x: Links): Links
    requires t.Valid() && 0 <= i < k < t.Size()
  {
    var b := t.prev[k];
    Links(x.parent,
      if b == -1 && i == t.par[k] then copy else x.firstChild,
      if i == b then copy else x.nextSibling,
      if b != -1 && i == t.par[k] + 1 then copy else x.prevSiblingC)
  }

  ghost predicate Row(c: seq<Node>, x: Links, parent: int, first: int, next: int, back: int) {
    && x.parent == At(c, parent) && x.firstChild == At(c, first)
    && x.nextSibling == At(c, next) && x.prevSiblingC == At(c, back)
  }

  lemma RowExtends(c: seq<Node>, e: seq<Node>, k: int, copy: Node, x: Links, y: Links, parent: int, first: int, next: int, back: int, back': int)
    requires k == |c| && e == c + [copy]
    requires Row(c, x, parent, first, next, back) && parent < k && back < k && (back' == back || back' == k)
    requires y.parent == x.parent
    requires y.firstChild == if first == k then copy else x.firstChild
    requires y.nextSibling == if next == k then copy else x.nextSibling
    requires y.prevSiblingC == if back' == k then copy else x.prevSiblingC
    ensures Row(e, y, parent, first, next, back')
  {
  }

  lemma BackMoves(t: Shape, i: int, k: nat)
    requires t.Valid() && 0 < i < k < t.Size()
    ensures Back(t, i, k) < k
    ensures Back(t, i, k + 1) == if t.prev[k] != -1 && i == t.par[k] + 1 then k else Back(t, i, k)
  {
    NewPosition(t, k, i);
    NewPosition(t, k, t.par[k]);
    if i == t.par[k] + 1 {
      assert t.par[k] <= t.par[i];
    }
  }

  /** The four conditions of `Appended`, as positions. */
  lemma AppendedRow(t: Shape, k: int, i: int, copy: Node, x: Links, y: Links) returns (back: int, back': int)
    requires t.Valid() && 0 < i < k < t.Size() && y == Appended(t, k, i, copy, x)
    ensures back == Back(t, i, k) && back' == Back(t, i, k + 1)
    ensures t.par[i] < k && back < k && (back' == back || back' == k)
    ensures y.parent == x.parent
    ensures y.firstChild == if t.FirstChild(i) == k then copy else x.firstChild
    ensures y.nextSibling == if t.NextSibling(i) == k then copy else x.nextSibling
    ensures y.prevSiblingC == if back' == k then copy else x.prevSiblingC
  {
    back, back' := Back(t, i, k), Back(t, i, k + 1);
    NewPosition(t, k, i);
    BackMoves(t, i, k);
  }

  lemma RootFits(c: seq<Node>, e: seq<Node>, k: int, t: Shape, copy: Node, x: Links, y: Links)
    requires t.Valid() && 0 < k < t.Size() && k == |c| && e == c + [copy] && Fits(c, t, 0, x) && y == Appended(t, k, 0, copy, x)
    ensures Fits(e, t, 0, y)
  {
    NewPosition(t, k, 0);
    FirstMoves(c, e, k, t.FirstChild(0), copy, x.firstChild);
  }

  lemma FirstMoves(c: seq<Node>, e: seq<Node>, k: int, first: int, copy: Node, x: Node?)
    requires k == |c| && e == c + [copy] && x == At(c, first)
    ensures At(e, first) == if first == k then copy else x
  {
  }

  lemma AppendedFits(c: seq<Node>, e: seq<Node>, k: int, t: Shape, i: int, copy: Node, x: Links, y: Links)
    requires t.Valid() && 0 <= i < k < t.Size() && k == |c| && e == c + [copy] && Fits(c, t, i, x) && y == Appended(t, k, i, copy, x)
    ensures Fits(e, t, i, y)
  {
    if i == 0 {
      RootFits(c, e, k, t, copy, x, y);
    } else {
      var back, back' := AppendedRow(t, k, i, copy, x, y);
      RowOfFits(c, t, i, x, k, back);
      RowExtends(c, e, k, copy, x, y, t.par[i], t.FirstChild(i), t.NextSibling(i), back, back');
      FitsOfRow(e, t, i, y, k + 1, back');
    }
  }

  lemma FitsOfRow(c: seq<Node>, t: Shape, i: int, x: Links, k: int, back: int)
    requires t.Valid() && 0 < i < k <= t.Size() && k == |c| && back == Back(t, i, k)
    requires Row(c, x, t.par[i], t.FirstChild(i), t.NextSibling(i), back)
    ensures Fits(c, t, i, x)
  {
  }

  lemma RowOfFits(c: seq<Node>, t: Shape, i: int, x: Links, k: int, back: int)
    requires t.Valid() && 0 < i < k <= t.Size() && k == |c| && back == Back(t, i, k) && Fits(c, t, i, x)
    ensures Row(c, x, t.par[i], t.FirstChild(i), t.NextSibling(i), back)
  {
  }

  lemma NewFits(c: seq<Node>, t: Shape, copy: Node, x: Links)
    requires t.Valid() && 1 <= |c| < t.Size()
    requires x.firstChild == null && x.nextSibling == null && x.parent == c[t.par[|c|]]
    requires x.prevSiblingC == if t.prev[|c|] == -1 then copy else c[t.prev[|c|]]
    ensures Fits(c + [copy], t, |c|, x)
  {
    var k := |c|;
    NewPlace(t, k);
  }

  /** The newest position is a leaf, last among its siblings so far. */
  lemma NewPlace(t: Shape, k: int)
    requires t.Valid() && 1 <= k < t.Size()
    ensures 0 <= t.par[k] < k && t.prev[k] < k && (t.prev[k] == -1 || 0 <= t.prev[k])
    ensures t.FirstChild(k) == -1 || t.FirstChild(k) > k
    ensures t.NextSibling(k) == -1 || t.NextSibling(k) > k
    ensures Back(t, k, k + 1) == if t.prev[k] == -1 then k else t.prev[k]
  {
    t.SiblingLinks(k);
    assert LastBelow(t, t.par[k], k + 1) == k;
  }

  lemma DistinctExtends(c: seq<Node>, copy: Node)
    requires Distinct(c) && copy !in c
    ensures Distinct(c + [copy])
  {
    var e := c + [copy];
    forall i, j | 0 <= i < |e| && 0 <= j < |e|
      ensures Apart(e, i, j)
    {
      if i < |c| && j < |c| { assert Apart(c, i, j); }
    }
  }

  /** The nodes append_node looks up, as positions. */
  lemma Ends(c: seq<Node>, t: Shape)
    requires Building(c, t) && |c| < t.Size()
    ensures var k := |c|; var p := t.par[k]; var b := t.prev[k];
      && 0 <= p < k && (b == -1 <==> k == p + 1)
      && (b == -1 ==> c[p].firstChild == null)
      && (b != -1 ==> 0 < p + 1 <= b < k && c[p].firstChild == c[p + 1] && c[p + 1].prevSiblingC == c[b])
  {
    var k := |c|;
    var p := t.par[k];
    NewPosition(t, k, p);
    assert LinkedUpTo(c, t, p);
    if t.prev[k] != -1 {
      assert LinkedUpTo(c, t, p + 1);
      FirstOfParent(t, k, p);
    }
  }

  /** A node with a previous sibling: the first child of its parent, and what its back link is. */
  lemma FirstOfParent(t: Shape, k: int, p: int)
    requires t.Valid() && 1 <= k < t.Size() && p == t.par[k] && t.prev[k] != -1
    ensures 0 <= p < p + 1 <= t.prev[k] < k && t.FirstChild(p) == p + 1 && t.par[p + 1] == p && t.prev[p + 1] == -1
    ensures Back(t, p + 1, k) == t.prev[k]
  {
    assert t.end[t.prev[k]] == k;
    assert p <= t.par[p + 1];
    PrevIsLast(t, k, k);
  }

  /** append_node, seen from all the copies. */
  method LinkNext(copy: Node, dit: Node, ghost c: seq<Node>, ghost t: Shape)
    requires Building(c, t) && |c| < t.Size() && dit == c[t.par[|c|]]
    requires copy !in c && copy.nextSibling == null && copy.firstChild == null
    modifies c, copy
    ensures forall i {:trigger c[i]} :: 0 <= i < |c| ==> LinksOf(c[i]) == Appended(t, |c|, i, copy, old(LinksOf(c[i])))
    ensures LinksOf(copy) == Links(dit, null, null, if t.prev[|c|] == -1 then copy else c[t.prev[|c|]])
    ensures forall x <- c + [copy] :: SameContents(x, old(x.kind), old(x.name), old(x.value), old(x.attributes))
  {
    ghost var k := |c|;
    ghost var p := t.par[k];
    ghost var b := t.prev[k];
    Ends(c, t);
    AppendNode(copy, dit, (set x | x in c) + {copy});
    forall i | 0 <= i < k
      ensures LinksOf(c[i]) == Appended(t, k, i, copy, old(LinksOf(c[i])))
    {
      assert Apart(c, i, p) && (b != -1 ==> Apart(c, i, b) && Apart(c, i, p + 1));
    }
  }

  /** A new last child, at the next position. */
  method AppendNext(copy: Node, dit: Node, ghost c: seq<Node>, ghost t: Shape)
    requires Building(c, t) && |c| < t.Size() && dit == c[t.par[|c|]]
    requires copy !in c && copy.nextSibling == null && copy.firstChild == null
    modifies c, copy
    ensures Building(c + [copy], t)
    ensures c[0].parent == old(c[0].parent) && c[0].nextSibling == old(c[0].nextSibling) && c[0].prevSiblingC == old(c[0].prevSiblingC)
    ensures forall x <- c + [copy] :: SameContents(x, old(x.kind), old(x.name), old(x.value), old(x.attributes))
  {
    ghost var k := |c|;
    Ends(c, t);
    LinkNext(copy, dit, c, t);
    forall i | 0 <= i < k
      ensures LinkedUpTo(c + [copy], t, i)
    {
      assert old(LinkedUpTo(c, t, i));
      AppendedFits(c, c + [copy], k, t, i, copy, old(LinksOf(c[i])), LinksOf(c[i]));
    }
    NewFits(c, t, copy, LinksOf(copy));
    assert LinkedUpTo(c + [copy], t, k);
    DistinctExtends(c, copy);
  }

  // ---------- the tree being copied ----------

  /** The links of source node `i`: those of `t`, except that `dn` may stand among its children. */
  ghost predicate SplicedAt(src: seq<Node>, t: Shape, dn: Node, i: int)
    requires t.Valid() && |src| == t.Size() && 0 <= i < |src|
    reads src[i], dn
  {
    && (i > 0 ==> src[i].parent == At(src, t.par[i]))
    && (src[i].firstChild == At(src, t.FirstChild(i)) ||
        (src[i].firstChild == dn && dn.parent == src[i] && dn.nextSibling == At(src, t.FirstChild(i))))
    && (i > 0 ==>
          src[i].nextSibling == At(src, t.NextSibling(i)) ||
          (src[i].nextSibling == dn && dn.parent == At(src, t.par[i]) && dn.nextSibling == At(src, t.NextSibling(i))))
  }

  /** `src` lists, in document order, a tree of shape `t` into which `dn` may have been inserted. */
  ghost predicate Spliced(src: seq<Node>, t: Shape, dn: Node)
    reads src, dn
  {
    && t.Valid() && |src| == t.Size() && Distinct(src) && dn !in src
    && (forall i {:trigger SplicedAt(src, t, dn, i)} :: 0 <= i < |src| ==> SplicedAt(src, t, dn, i))
  }

  /** The walk stands on the next node to copy, under whose parent's copy the new copy goes. */
  ghost predicate OnNode(src: seq<Node>, c: seq<Node>, t: Shape, sit: Node?, dit: Node?)
    requires t.Valid() && |src| == t.Size()
  {
    1 <= |c| < t.Size() && sit == src[|c|] && dit == At(c, t.par[|c|])
  }

  /** The walk stands on `dn`, a child of source node `q`, with everything before it copied. */
  ghost predicate OnCopy(src: seq<Node>, c: seq<Node>, t: Shape, dn: Node, q: int, sit: Node?, dit: Node?)
    requires t.Valid() && |src| == t.Size()
    reads dn
  {
    && sit == dn && 0 <= q < |c| <= t.Size() && dn.parent == src[q] && dit == c[q]
    && (if dn.nextSibling == null then t.end[q] == |c|
        else |c| < t.Size() && dn.nextSibling == src[|c|] && t.par[|c|] == q)
  }

  /** Everything under source node `i` is copied, and the walk stands on it. */
  ghost predicate Finished(src: seq<Node>, c: seq<Node>, t: Shape, i: int, sit: Node?, dit: Node?)
    requires t.Valid() && |src| == t.Size()
  {
    0 < i < |c| <= t.Size() && t.end[i] == |c| && sit == src[i] && dit == At(c, t.par[i])
  }

  /** A finished node's next sibling, or `dn` standing before it or after its parent's last child. */
  lemma Onwards(src: seq<Node>, c: seq<Node>, t: Shape, dn: Node, i: int, sit: Node, dit: Node?)
    requires Spliced(src, t, dn) && Finished(src, c, t, i, sit, dit)
    ensures sit.nextSibling == null ==> t.end[t.par[i]] == |c| && sit.parent == At(src, t.par[i])
    ensures sit.nextSibling != null && sit.nextSibling != dn ==> OnNode(src, c, t, sit.nextSibling, dit) && sit.nextSibling != src[0]
    ensures sit.nextSibling == dn ==> OnCopy(src, c, t, dn, t.par[i], dn, dit)
  {
    assert SplicedAt(src, t, dn, i);
    t.SiblingLinks(i);
    if |c| < t.Size() {
      assert Apart(src, 0, |c|);
    }
  }

  lemma Into(src: seq<Node>, c: seq<Node>, t: Shape, dn: Node, sit: Node)
    requires Spliced(src, t, dn) && 1 <= |c| <= t.Size() && sit == src[|c| - 1]
    ensures sit.firstChild == null ==> t.end[|c| - 1] == |c|
    ensures sit.firstChild != null && sit.firstChild != dn ==> OnNode(src, c, t, sit.firstChild, c[|c| - 1]) && sit.firstChild != src[0]
    ensures sit.firstChild == dn ==> OnCopy(src, c, t, dn, |c| - 1, dn, c[|c| - 1])
  {
    var i := |c| - 1;
    assert SplicedAt(src, t, dn, i);
    if t.FirstChild(i) != -1 {
      assert i <= t.par[i + 1];
      assert Apart(src, 0, i + 1);
    }
  }

  /** The source position of the parent of where the walk stands. */
  ghost function Above(t: Shape, dn: Node, sit: Node, i: int, q: int): int
    requires t.Valid() && (sit != dn ==> 0 <= i < t.Size())
  {
    if sit == dn then q else t.par[i]
  }

  /** One turn of the climb. */
  lemma Climbing(src: seq<Node>, c: seq<Node>, t: Shape, dn: Node, i: int, q: int, sit: Node, dit: Node?)
    requires Spliced(src, t, dn) && Building(c, t)
    requires if sit == dn then OnCopy(src, c, t, dn, q, sit, dit) else Finished(src, c, t, i, sit, dit)
    ensures var p := Above(t, dn, sit, i, q);
      && 0 <= p < |c| && dit == c[p] && sit.parent == src[p] && (src[p] == src[0] <==> p == 0) && src[p] != dn
      && (sit.nextSibling == null ==> t.end[p] == |c| && (p > 0 ==> Finished(src, c, t, p, src[p], dit.parent)))
      && (sit.nextSibling != null && sit.nextSibling != dn ==> OnNode(src, c, t, sit.nextSibling, dit) && sit.nextSibling != src[0])
      && (sit.nextSibling == dn ==> sit != dn && OnCopy(src, c, t, dn, p, dn, dit))
  {
    var p := Above(t, dn, sit, i, q);
    if sit == dn {
      if |c| < t.Size() { assert Apart(src, 0, |c|); }
    } else {
      Onwards(src, c, t, dn, i, sit, dit);
      assert SplicedAt(src, t, dn, i);
    }
    assert Apart(src, 0, p);
    assert LinkedUpTo(c, t, p);
  }

  /** The climb after a node that has no children, or none left: to the next node in document order,
      or back to the root of the tree. */
  method NextPlace(sit0: Node, dit0: Node, sn: Node, dn: Node, ghost src: seq<Node>, ghost c: seq<Node>, ghost t: Shape,
                   ghost i0: int, ghost q0: int)
    returns (sit: Node?, dit: Node?, ghost q: int)
    requires Spliced(src, t, dn) && Building(c, t) && sn == src[0]
    requires if sit0 == dn then OnCopy(src, c, t, dn, q0, sit0, dit0) else Finished(src, c, t, i0, sit0, dit0)
    ensures if sit == sn then |c| == t.Size()
            else OnNode(src, c, t, sit, dit) || (sit0 != dn && OnCopy(src, c, t, dn, q, sit, dit))
  {
    sit, dit, q := sit0, dit0, q0;
    ghost var i := i0;
    assert sn in src;
    assert sit0 != dn ==> Apart(src, 0, i);
    while true
      invariant sit != null && sit != sn && dit != null
      invariant if sit == dn then sit0 == dn && OnCopy(src, c, t, dn, q0, sit, dit)
                else Finished(src, c, t, i, sit, dit) && (sit0 == dn ==> i <= q0)
      decreases if sit == dn then |src| else i
    {
      ghost var p := Above(t, dn, sit, i, q0);
      Climbing(src, c, t, dn, i, q0, sit, dit);
      if sit.nextSibling != null {
        assert sit.nextSibling == dn && sit0 == dn ==> Apart(src, p, q0);
        q := p;
        sit := sit.nextSibling;
        break;
      }
      sit := sit.parent;
      dit := dit.parent;
      i := p;
      if sit == sn {
        break;
      }
    }
  }

  // ---------- the copy ----------

  /** Copy `i` holds what source node `i` holds. */
  ghost predicate Alike(c: seq<Node>, src: seq<Node>, i: int)
    requires 0 <= i < |c| <= |src|
    reads c[i], src[i]
  {
    SameContents(c[i], src[i].kind, src[i].name, src[i].value, src[i].attributes)
  }

  /** append_new_node and node_copy_contents. */
  method CopyNext(sit: Node, dit: Node, ghost c: seq<Node>, ghost src: seq<Node>, ghost t: Shape) returns (copy: Node)
    requires Building(c, t) && |c| < t.Size() == |src| && sit == src[|c|] && dit == c[t.par[|c|]]
    requires forall i {:trigger c[i]} :: 0 <= i < |c| ==> c[i] !in src
    requires forall i {:trigger Alike(c, src, i)} :: 0 <= i < |c| ==> Alike(c, src, i)
    requires Spliced(src, t, c[0])
    modifies c
    ensures Spliced(src, t, c[0])
    ensures fresh(copy) && Building(c + [copy], t)
    ensures forall i {:trigger Alike(c + [copy], src, i)} :: 0 <= i <= |c| ==> Alike(c + [copy], src, i)
    ensures c[0].parent == old(c[0].parent) && c[0].nextSibling == old(c[0].nextSibling) && c[0].prevSiblingC == old(c[0].prevSiblingC)
  {
    copy := new Node(sit.kind);
    assert Building(c, t);
    assert forall i {:trigger Alike(c, src, i)} :: 0 <= i < |c| ==> Alike(c, src, i);
    AppendNext(copy, dit, c, t);
    label linked:
    NodeCopyContents(copy, sit);
    ghost var e := c + [copy];
    assert LinksOf(copy) == old@linked(LinksOf(copy));
    forall i | 0 <= i < |e|
      ensures LinkedUpTo(e, t, i)
    {
      assert old@linked(LinkedUpTo(e, t, i));
    }
    forall i | 0 <= i < |src|
      ensures SplicedAt(src, t, c[0], i)
    {
      assert old(SplicedAt(src, t, c[0], i));
    }
    forall i | 0 <= i <= |c|
      ensures Alike(e, src, i)
    {
      if i < |c| { assert old(Alike(c, src, i)); }
    }
  }

  /** node_copy_contents on the root of the copy. */
  method CopyRoot(dn: Node, sn: Node, ghost src: seq<Node>, ghost t: Shape)
    requires Spliced(src, t, dn) && sn == src[0] && dn.kind == sn.kind
    requires dn.firstChild == null && dn.name == None && dn.value == None && dn.attributes == []
    modifies dn
    ensures Spliced(src, t, dn) && Building([dn], t) && Alike([dn], src, 0)
    ensures LinksOf(dn) == old(LinksOf(dn))
  {
    assert sn in src;
    NodeCopyContents(dn, sn);
    forall i | 0 <= i < |src|
      ensures SplicedAt(src, t, dn, i)
    {
      assert old(SplicedAt(src, t, dn, i));
    }
    assert LinkedUpTo([dn], t, 0) by { assert t.FirstChild(0) != 0; }
    assert Apart([dn], 0, 0);
  }

  /** Where the loop of node_copy_tree stands: on a node still to be copied, on the copy itself, or at the end. */
  ghost predicate Copying(src: seq<Node>, c: seq<Node>, t: Shape, dn: Node, sn: Node, q: int, sit: Node?, dit: Node?)
    reads src, c, dn
  {
    && Building(c, t) && c[0] == dn && Spliced(src, t, dn) && sn == src[0]
    && if sit == null || sit == sn then |c| == t.Size()
       else OnNode(src, c, t, sit, dit) || OnCopy(src, c, t, dn, q, sit, dit)
  }

  ghost predicate AllAlike(c: seq<Node>, src: seq<Node>)
    reads c, src
  {
    |c| <= |src| && forall i {:trigger Alike(c, src, i)} :: 0 <= i < |c| ==> Alike(c, src, i)
  }

  /** A turn of the loop that copies a node. */
  method CopyTurn(sit0: Node, dit0: Node, sn: Node, dn: Node, ghost src: seq<Node>, ghost c0: seq<Node>, ghost t: Shape, ghost q0: int)
    returns (sit: Node?, dit: Node?, ghost c: seq<Node>, ghost q: int)
    requires Copying(src, c0, t, dn, sn, q0, sit0, dit0) && sit0 != sn && sit0 != dn && AllAlike(c0, src)
    requires forall i {:trigger c0[i]} :: 0 <= i < |c0| ==> c0[i] !in src
    modifies c0
    ensures Copying(src, c, t, dn, sn, q, sit, dit) && AllAlike(c, src)
    ensures |c| == |c0| + 1 && c[..|c0|] == c0 && fresh(c[|c0|])
    ensures dn.parent == old(dn.parent) && dn.nextSibling == old(dn.nextSibling) && dn.prevSiblingC == old(dn.prevSiblingC)
  {
    var copy := CopyNext(sit0, dit0, c0, src, t);
    ghost var i := |c0|;
    c := c0 + [copy];
    Into(src, c, t, dn, sit0);
    if sit0.firstChild != null {
      dit, sit, q := copy, sit0.firstChild, i;
    } else {
      sit, dit, q := NextPlace(sit0, dit0, sn, dn, src, c, t, i, 0);
    }
  }

  /** A turn that stands on the copy itself and goes past it. */
  method SkipTurn(dit0: Node, sn: Node, dn: Node, ghost src: seq<Node>, ghost c: seq<Node>, ghost t: Shape, ghost q0: int)
    returns (sit: Node?, dit: Node?, ghost q: int)
    requires Copying(src, c, t, dn, sn, q0, dn, dit0) && dn != sn
    ensures Copying(src, c, t, dn, sn, q, sit, dit) && sit != dn
  {
    sit, dit, q := NextPlace(dn, dit0, sn, dn, src, c, t, 0, q0);
  }

  /** node_copy_tree: the copies, in document order, are linked as the source was before `dn` came
      into it, and hold the same; nothing else changes. */
  method NodeCopyTree(dn: Node, sn: Node, ghost src: seq<Node>, ghost t: Shape) returns (ghost c: seq<Node>)
    requires Spliced(src, t, dn) && sn == src[0] && dn.kind == sn.kind
    requires dn.firstChild == null && dn.name == None && dn.value == None && dn.attributes == []
    modifies dn
    ensures |c| == t.Size() && c[0] == dn && Building(c, t)
    ensures forall i {:trigger c[i]} :: 1 <= i < |c| ==> fresh(c[i])
    ensures forall i {:trigger Alike(c, src, i)} :: 0 <= i < |c| ==> Alike(c, src, i)
    ensures dn.parent == old(dn.parent) && dn.nextSibling == old(dn.nextSibling) && dn.prevSiblingC == old(dn.prevSiblingC)
  {
    c := [dn];
    CopyRoot(dn, sn, src, t);
    var dit: Node? := dn;
    var sit := sn.firstChild;
    ghost var q := 0;
    Into(src, c, t, dn, sn);
    while sit != null && sit != sn
      invariant Copying(src, c, t, dn, sn, q, sit, dit) && AllAlike(c, src)
      invariant forall i {:trigger c[i]} :: 1 <= i < |c| ==> fresh(c[i])
      invariant dn.parent == old(dn.parent) && dn.nextSibling == old(dn.nextSibling) && dn.prevSiblingC == old(dn.prevSiblingC)
      decreases |src| - |c|, if sit == dn then 1 else 0
    {
      if sit != dn {
        sit, dit, c, q := CopyTurn(sit, dit, sn, dn, src, c, t, q);
      } else {
        sit, dit, q := SkipTurn(dit, sn, dn, src, c, t, q);
      }
    }
  }
}
