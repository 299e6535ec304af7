/** step_fill on the tree itself, from an element or from an attribute: the walks deliver the sequences
    the evaluator goes by. */
module XPathWalk {
  import opened Wrappers
  import opened Tree
  import opened Axes
  import opened Order
  import opened XPathSpec
  import opened XPathModes
  import opened XPathNodeSet

  /** The document in the heap, with its attributes. */
  ghost predicate EnvRepresents(nodes: seq<Node>, env: Env)
    reads nodes
  {
    env.Valid() && |env.attrs| == |nodes| && DocRepresents(nodes, env.doc)
    && forall i {:trigger AttributesAt(nodes, env, i)} :: 0 <= i < |nodes| ==> AttributesAt(nodes, env, i)
  }

  ghost predicate AttributesAt(nodes: seq<Node>, env: Env, i: int)
    requires 0 <= i < |nodes| == |env.attrs|
    reads nodes[i]
  {
    env.attrs[i] == nodes[i].attributes
  }

  ghost function RefOf(nodes: seq<Node>, x: XNode): XRef
    requires 0 <= x.i < |nodes|
  {
    if x.NodeAt? then NodeRef(nodes[x.i]) else AttrRef(nodes[x.i], x.k)
  }

  ghost predicate Within(nodes: seq<Node>, s: seq<XNode>) {
    forall k :: 0 <= k < |s| ==> 0 <= s[k].i < |nodes|
  }

  ghost function RefsOf(nodes: seq<Node>, s: seq<XNode>): (r: seq<XRef>)
    requires Within(nodes, s)
    ensures |r| == |s| && forall k :: 0 <= k < |s| ==> r[k] == RefOf(nodes, s[k])
  {
    seq(|s|, k requires 0 <= k < |s| => RefOf(nodes, s[k]))
  }

  /** What a walk appends: all of `s`, or with `once` its first. */
  ghost predicate Appends(nodes: seq<Node>, ns0: seq<XRef>, ns: seq<XRef>, once: bool, s: seq<XNode>) {
    Within(nodes, First1(once, s)) && ns == ns0 + RefsOf(nodes, First1(once, s))
  }

  // ---------- the walks between nodes ----------

  method NodeRefs(ns0: seq<XRef>, found: seq<Node>) returns (ns: seq<XRef>)
    ensures |ns| == |ns0| + |found| && ns[..|ns0|] == ns0
    ensures forall k :: 0 <= k < |found| ==> ns[|ns0| + k] == NodeRef(found[k])
  {
    ns := ns0 + seq(|found|, k requires 0 <= k < |found| => NodeRef(found[k]));
  }

  lemma LiftLimit(once: bool, q: seq<int>, s: seq<XNode>)
    requires s == First1(once, Lift(q))
    ensures |s| == |Limit(once, q)| && forall k :: 0 <= k < |s| ==> s[k] == NodeAt(Limit(once, q)[k])
  {
  }

  lemma SameRefs(nodes: seq<Node>, idx: seq<int>, s: seq<XNode>, found: seq<Node>, ns0: seq<XRef>, ns: seq<XRef>)
    requires InRange(idx, |nodes|) && |found| == |idx| && forall k :: 0 <= k < |idx| ==> found[k] == nodes[idx[k]]
    requires |s| == |idx| && forall k :: 0 <= k < |s| ==> s[k] == NodeAt(idx[k])
    requires |ns| == |ns0| + |found| && ns[..|ns0|] == ns0
    requires forall k :: 0 <= k < |found| ==> ns[|ns0| + k] == NodeRef(found[k])
    ensures Within(nodes, s) && ns == ns0 + RefsOf(nodes, s)
  {
    var r := RefsOf(nodes, s);
    forall k | 0 <= k < |found|
      ensures ns[|ns0| + k] == r[k]
    {
      assert s[k] == NodeAt(idx[k]);
    }
    assert ns[|ns0|..] == r;
    assert ns == ns[..|ns0|] + ns[|ns0|..];
  }

  lemma Lifted(nodes: seq<Node>, once: bool, q: seq<int>, idx: seq<int>, found: seq<Node>, ns0: seq<XRef>, ns: seq<XRef>)
    requires idx == Limit(once, q) && InRange(idx, |nodes|) && found == Refs(nodes, idx)
    requires |ns| == |ns0| + |found| && ns[..|ns0|] == ns0
    requires forall k :: 0 <= k < |found| ==> ns[|ns0| + k] == NodeRef(found[k])
    ensures Appends(nodes, ns0, ns, once, Lift(q))
  {
    var s := First1(once, Lift(q));
    LiftLimit(once, q, s);
    SameRefs(nodes, idx, s, found, ns0, ns);
  }

  /** step_fill for a node, on the axes that lead to nodes. */
  method FillNodes(nodes: seq<Node>, ghost d: Doc, ghost i: int, axis: Axis, n: Node, test: NodeTest, once: bool, ns0: seq<XRef>)
      returns (ns: seq<XRef>)
    requires DocRepresents(nodes, d) && d.Has(i) && n == nodes[i]
    ensures Appends(nodes, ns0, ns, once, Lift(StepSeq(d, axis, test, i)))
  {
    var found := StepFill(nodes, d, i, axis, n, test, once, []);
    ns := NodeRefs(ns0, found);
    Lifted(nodes, once, StepSeq(d, axis, test, i), Limit(once, StepSeq(d, axis, test, i)), found, ns0, ns);
  }

  // ---------- the attribute axis ----------

  /** step_push for an attribute. */
  method StepPushAttribute(ns: seq<XRef>, n: Node, k: nat, test: NodeTest) returns (out: seq<XRef>, pushed: bool)
    requires k < |n.attributes|
    ensures pushed == PassesAttr(test, AttrName(n.attributes[k]))
    ensures out == if pushed then ns + [AttrRef(n, k)] else ns
  {
    var name := AttrName(n.attributes[k]);
    match test {
      case NameTest(q) => pushed := name == q && IsXPathAttribute(name);
      case TypeNode => pushed := IsXPathAttribute(name);
      case All => pushed := IsXPathAttribute(name);
      case AllInNamespace(p) => pushed := Prefixes(p, name) && IsXPathAttribute(name);
      case _ => pushed := false;
    }
    out := if pushed then ns + [AttrRef(n, k)] else ns;
  }

  lemma {:induction false} AttrSeqGrows(env: Env, i: int, test: NodeTest, k: nat, n: nat)
    requires 0 <= i < |env.attrs| && k <= n <= |env.attrs[i]|
    ensures AttrSeq(env, i, test, k) <= AttrSeq(env, i, test, n)
    decreases n
  {
    if k < n {
      AttrSeqGrows(env, i, test, k, n - 1);
    }
  }

  /** `ns` is `ns0` with all of `s` appended; with `once`, the walk would have stopped at the first. */
  ghost predicate Appending(nodes: seq<Node>, once: bool, s: seq<XNode>, ns0: seq<XRef>, ns: seq<XRef>) {
    Within(nodes, s) && ns == ns0 + RefsOf(nodes, s) && (once ==> s == [])
  }

  lemma PushedMore(nodes: seq<Node>, s: seq<XNode>, x: XNode, ns0: seq<XRef>, ns: seq<XRef>, out: seq<XRef>)
    requires Appending(nodes, false, s, ns0, ns) && 0 <= x.i < |nodes| && out == ns + [RefOf(nodes, x)]
    ensures Appending(nodes, false, s + [x], ns0, out)
  {
    assert RefsOf(nodes, s + [x]) == RefsOf(nodes, s) + [RefOf(nodes, x)];
  }

  lemma PushedOnce(nodes: seq<Node>, x: XNode, all: seq<XNode>, ns0: seq<XRef>, ns: seq<XRef>, out: seq<XRef>)
    requires Appending(nodes, true, [], ns0, ns) && 0 <= x.i < |nodes| && out == ns + [RefOf(nodes, x)] && [x] <= all
    ensures Appends(nodes, ns0, out, true, all)
  {
    assert First1(true, all) == [x];
    assert RefsOf(nodes, [x]) == [RefOf(nodes, x)];
  }

  /** One turn of a loop that has found `s` so far, `s'` with this turn, and `all` in the end. */
  lemma Pushed(nodes: seq<Node>, once: bool, pushed: bool, s: seq<XNode>, s': seq<XNode>, all: seq<XNode>, x: XNode,
               ns0: seq<XRef>, ns: seq<XRef>, out: seq<XRef>)
    requires Appending(nodes, once, s, ns0, ns) && 0 <= x.i < |nodes|
    requires s' == (if pushed then s + [x] else s) && s' <= all && out == if pushed then ns + [RefOf(nodes, x)] else ns
    ensures if pushed && once then Appends(nodes, ns0, out, once, all) else Appending(nodes, once, s', ns0, out)
  {
    if pushed {
      if once { PushedOnce(nodes, x, all, ns0, ns, out); } else { PushedMore(nodes, s, x, ns0, ns, out); }
    }
  }

  lemma AllAppended(nodes: seq<Node>, once: bool, s: seq<XNode>, ns0: seq<XRef>, ns: seq<XRef>)
    requires Appending(nodes, once, s, ns0, ns)
    ensures Appends(nodes, ns0, ns, once, s)
  {
  }

  lemma AttributeStep(nodes: seq<Node>, env: Env, i: int, test: NodeTest, once: bool, k: nat, ns0: seq<XRef>, ns: seq<XRef>,
                      pushed: bool, out: seq<XRef>)
    requires 0 <= i < |env.attrs| && i < |nodes| && k < |env.attrs[i]|
    requires Appending(nodes, once, AttrSeq(env, i, test, k), ns0, ns)
    requires pushed == PassesAttr(test, AttrName(env.attrs[i][k])) && out == if pushed then ns + [AttrRef(nodes[i], k)] else ns
    ensures if pushed && once then Appends(nodes, ns0, out, once, AttrSeq(env, i, test, |env.attrs[i]|))
            else Appending(nodes, once, AttrSeq(env, i, test, k + 1), ns0, out)
  {
    var n := |env.attrs[i]|;
    AttrSeqGrows(env, i, test, k + 1, n);
    Pushed(nodes, once, pushed, AttrSeq(env, i, test, k), AttrSeq(env, i, test, k + 1), AttrSeq(env, i, test, n), AttrAt(i, k), ns0, ns, out);
  }

  /** axis_attribute */
  method FillAttributes(nodes: seq<Node>, ghost env: Env, ghost i: int, n: Node, test: NodeTest, once: bool, ns0: seq<XRef>)
      returns (ns: seq<XRef>)
    requires EnvRepresents(nodes, env) && 0 <= i < |nodes| && n == nodes[i]
    ensures Appends(nodes, ns0, ns, once, AttrSeq(env, i, test, |env.attrs[i]|))
  {
    assert AttributesAt(nodes, env, i);
    ns := FillOwn(nodes, env, i, n, test, once, ns0);
  }

  /** The loop over the attributes of `n`. */
  method FillOwn(ghost nodes: seq<Node>, ghost env: Env, ghost i: int, n: Node, test: NodeTest, once: bool, ns0: seq<XRef>)
      returns (ns: seq<XRef>)
    requires 0 <= i < |nodes| == |env.attrs| && n == nodes[i] && env.attrs[i] == n.attributes
    ensures Appends(nodes, ns0, ns, once, AttrSeq(env, i, test, |env.attrs[i]|))
  {
    ns := ns0;
    var k := 0;
    while k < |n.attributes|
      invariant k <= |n.attributes| && Appending(nodes, once, AttrSeq(env, i, test, k), ns0, ns)
    {
      var out, pushed := StepPushAttribute(ns, n, k, test);
      AttributeStep(nodes, env, i, test, once, k, ns0, ns, pushed, out);
      ns := out;
      if pushed && once { return; }
      k := k + 1;
    }
    AllAppended(nodes, once, AttrSeq(env, i, test, k), ns0, ns);
  }

  // ---------- everything behind a position ----------

  /** The nodes of [lo, hi) that pass the test, ascending. */
  ghost function Later(d: Doc, test: NodeTest, lo: int, hi: int): seq<XNode>
    requires d.Valid() && 0 <= lo && hi <= d.shape.Size()
    decreases hi - lo
  {
    if lo >= hi then []
    else Later(d, test, lo, hi - 1) + (if Passes(test, d.kind[hi - 1], d.name[hi - 1]) then [NodeAt(hi - 1)] else [])
  }

  lemma {:induction false} LaterGrows(d: Doc, test: NodeTest, lo: int, c: int, hi: int)
    requires d.Valid() && 0 <= lo <= c <= hi <= d.shape.Size()
    ensures Later(d, test, lo, c) <= Later(d, test, lo, hi)
    decreases hi
  {
    if c < hi {
      LaterGrows(d, test, lo, c, hi - 1);
    }
  }

  lemma {:induction false} LaterJoins(d: Doc, test: NodeTest, lo: int, c: int, hi: int)
    requires d.Valid() && 0 <= lo <= c <= hi <= d.shape.Size()
    ensures Later(d, test, lo, hi) == Later(d, test, lo, c) + Later(d, test, c, hi)
    decreases hi
  {
    if c < hi {
      LaterJoins(d, test, lo, c, hi - 1);
    }
  }

  lemma LiftSnoc(q: seq<int>, j: int)
    ensures Lift(q + [j]) == Lift(q) + [NodeAt(j)]
  {
    assert (q + [j])[..|q|] == q;
  }

  /** An axis that is an interval of positions. */
  ghost predicate Interval(d: Doc, axis: Axis, i: int, a: int, b: int)
    requires d.Valid() && d.Has(i)
  {
    forall j {:trigger IntervalAt(d, axis, i, a, b, j)} :: d.Has(j) ==> IntervalAt(d, axis, i, a, b, j)
  }

  ghost predicate IntervalAt(d: Doc, axis: Axis, i: int, a: int, b: int, j: int)
    requires d.Valid() && d.Has(i) && d.Has(j)
  {
    InAxis(d.shape, axis, i, j) <==> a <= j < b
  }

  /** One position more, on the axis or not. */
  lemma UpNext(d: Doc, axis: Axis, test: NodeTest, i: int, j: int, on: bool)
    requires d.Valid() && d.Has(i) && d.Has(j) && on == InAxis(d.shape, axis, i, j)
    ensures var more := if on && Passes(test, d.kind[j], d.name[j]) then [NodeAt(j)] else [];
      Lift(Up(d, axis, test, i, 0, j + 1)) == Lift(Up(d, axis, test, i, 0, j)) + more
  {
    var q := Up(d, axis, test, i, 0, j);
    LiftSnoc(q, j);
    assert q + [] == q && Lift(q) + [] == Lift(q);
  }

  lemma OnAt(d: Doc, axis: Axis, i: int, a: int, b: int, j: int)
    requires d.Valid() && d.Has(i) && d.Has(j) && Interval(d, axis, i, a, b)
    ensures InAxis(d.shape, axis, i, j) <==> a <= j < b
  {
    assert IntervalAt(d, axis, i, a, b, j);
  }

  lemma LaterNext(d: Doc, test: NodeTest, a: int, j: int)
    requires d.Valid() && 0 <= a <= j && d.Has(j)
    ensures Later(d, test, a, j + 1) == Later(d, test, a, j) + (if Passes(test, d.kind[j], d.name[j]) then [NodeAt(j)] else [])
  {
  }

  lemma UpBefore(d: Doc, axis: Axis, test: NodeTest, i: int, a: int, b: int, hi: int)
    requires d.Valid() && d.Has(i) && Interval(d, axis, i, a, b) && 0 <= hi <= a <= d.shape.Size()
    ensures Lift(Up(d, axis, test, i, 0, hi)) == []
    decreases hi
  {
    if hi > 0 {
      UpBefore(d, axis, test, i, a, b, hi - 1);
      OnAt(d, axis, i, a, b, hi - 1);
      UpNext(d, axis, test, i, hi - 1, false);
    }
  }

  lemma {:induction false} UpInside(d: Doc, axis: Axis, test: NodeTest, i: int, a: int, b: int, hi: int)
    requires d.Valid() && d.Has(i) && Interval(d, axis, i, a, b) && 0 <= a <= hi <= b <= d.shape.Size()
    ensures Lift(Up(d, axis, test, i, 0, hi)) == Later(d, test, a, hi)
    decreases hi
  {
    if hi == a {
      UpBefore(d, axis, test, i, a, b, hi);
    } else {
      var j := hi - 1;
      UpInside(d, axis, test, i, a, b, j);
      OnAt(d, axis, i, a, b, j);
      UpNext(d, axis, test, i, j, true);
      LaterNext(d, test, a, j);
    }
  }

  lemma {:induction false} UpBehind(d: Doc, axis: Axis, test: NodeTest, i: int, a: int, b: int, hi: int)
    requires d.Valid() && d.Has(i) && Interval(d, axis, i, a, b) && 0 <= a <= b <= hi <= d.shape.Size()
    ensures Lift(Up(d, axis, test, i, 0, hi)) == Later(d, test, a, b)
    decreases hi
  {
    if hi == b {
      UpInside(d, axis, test, i, a, b, hi);
    } else {
      UpBehind(d, axis, test, i, a, b, hi - 1);
      OnAt(d, axis, i, a, b, hi - 1);
      UpNext(d, axis, test, i, hi - 1, false);
    }
  }

  lemma DescendantsAre(d: Doc, test: NodeTest, i: int, e: int)
    requires d.Valid() && d.Has(i) && e == d.shape.end[i]
    ensures 0 <= i < e <= d.shape.Size() && Lift(StepSeq(d, Descendant, test, i)) == Later(d, test, i + 1, e)
  {
    assert i < e <= d.shape.Size();
    forall j {:trigger IntervalAt(d, Descendant, i, i + 1, e, j)} | d.Has(j) ensures IntervalAt(d, Descendant, i, i + 1, e, j) {
    }
    UpBehind(d, Descendant, test, i, i + 1, e, d.shape.Size());
  }

  lemma FollowingAre(d: Doc, test: NodeTest, i: int, e: int, n: int)
    requires d.Valid() && d.Has(i) && e == d.shape.end[i] && n == d.shape.Size()
    ensures 0 <= e <= n && Lift(StepSeq(d, Following, test, i)) == Later(d, test, e, n)
  {
    assert i < e <= n;
    forall j {:trigger IntervalAt(d, Following, i, e, n, j)} | d.Has(j) ensures IntervalAt(d, Following, i, e, n, j) {
    }
    UpBehind(d, Following, test, i, e, n, n);
  }

  /** From an attribute, the following axis begins with the children of its owner. */
  lemma FollowingOfAttribute(d: Doc, test: NodeTest, i: int, e: int, n: int)
    requires d.Valid() && d.Has(i) && e == d.shape.end[i] && n == d.shape.Size()
    ensures 0 <= i < e <= n
    ensures Lift(StepSeq(d, Descendant, test, i)) + Lift(StepSeq(d, Following, test, i)) == Later(d, test, i + 1, n)
  {
    DescendantsAre(d, test, i, e);
    FollowingAre(d, test, i, e, n);
    LaterJoins(d, test, i + 1, e, n);
  }

  lemma WalkStep(nodes: seq<Node>, d: Doc, test: NodeTest, once: bool, lo: int, c: int, ns0: seq<XRef>, ns: seq<XRef>,
                 pushed: bool, out: seq<XRef>)
    requires d.Valid() && 0 <= lo <= c < d.shape.Size() == |nodes| && Appending(nodes, once, Later(d, test, lo, c), ns0, ns)
    requires pushed == Passes(test, d.kind[c], d.name[c]) && out == if pushed then ns + [NodeRef(nodes[c])] else ns
    ensures if pushed && once then Appends(nodes, ns0, out, once, Later(d, test, lo, d.shape.Size()))
            else Appending(nodes, once, Later(d, test, lo, c + 1), ns0, out)
  {
    var n := d.shape.Size();
    LaterGrows(d, test, lo, c + 1, n);
    Pushed(nodes, once, pushed, Later(d, test, lo, c), Later(d, test, lo, c + 1), Later(d, test, lo, n), NodeAt(c), ns0, ns, out);
  }

  /** `step_push(...) & once` on that walk. */
  method VisitBehind(nodes: seq<Node>, ghost d: Doc, ghost i: int, ghost c: int, cur: Node, test: NodeTest, once: bool,
                     ghost ns0: seq<XRef>, ns: seq<XRef>) returns (out: seq<XRef>, stop: bool)
    requires DocRepresents(nodes, d) && d.Has(i) && i < c < |nodes| && cur == nodes[c]
    requires Appending(nodes, once, Later(d, test, i + 1, c), ns0, ns)
    ensures if stop then Appends(nodes, ns0, out, once, Later(d, test, i + 1, d.shape.Size()))
            else Appending(nodes, once, Later(d, test, i + 1, c + 1), ns0, out)
  {
    var pushed := Passes(test, cur.kind, cur.name);
    out := if pushed then ns + [NodeRef(cur)] else ns;
    stop := pushed && once;
    assert Labelled(nodes, d, c);
    WalkStep(nodes, d, test, once, i + 1, c, ns0, ns, pushed, out);
  }

  /** axis_following from an attribute of `p`: everything behind `p`. */
  method FillBehind(nodes: seq<Node>, ghost d: Doc, ghost i: int, p: Node, test: NodeTest, once: bool, ns0: seq<XRef>)
      returns (ns: seq<XRef>)
    requires DocRepresents(nodes, d) && d.Has(i) && p == nodes[i]
    ensures Appends(nodes, ns0, ns, once, Later(d, test, i + 1, d.shape.Size()))
  {
    ghost var size, c := d.shape.Size(), i + 1;
    ns := ns0;
    var cur := NextInPreorder(nodes, d.shape, 0, i, null, p);
    while cur != null
      invariant i < c <= size && cur == At(nodes, if c < size then c else -1)
      invariant Appending(nodes, once, Later(d, test, i + 1, c), ns0, ns)
      decreases size - c
    {
      var stop;
      ns, stop := VisitBehind(nodes, d, i, c, cur, test, once, ns0, ns);
      if stop { return; }
      cur := NextInPreorder(nodes, d.shape, 0, c, null, cur);
      c := c + 1;
    }
    AllAppended(nodes, once, Later(d, test, i + 1, c), ns0, ns);
  }

  method FillFollowingOf(nodes: seq<Node>, ghost d: Doc, ghost i: int, p: Node, test: NodeTest, once: bool, ns0: seq<XRef>)
      returns (ns: seq<XRef>)
    requires DocRepresents(nodes, d) && d.Has(i) && p == nodes[i]
    ensures Appends(nodes, ns0, ns, once, Lift(StepSeq(d, Descendant, test, i)) + Lift(StepSeq(d, Following, test, i)))
  {
    ns := FillBehind(nodes, d, i, p, test, once, ns0);
    FollowingOfAttribute(d, test, i, d.shape.end[i], d.shape.Size());
  }

  // ---------- any context ----------

  lemma Joined(nodes: seq<Node>, ns0: seq<XRef>, ns1: seq<XRef>, ns: seq<XRef>, once: bool, a: seq<XNode>, b: seq<XNode>)
    requires Appends(nodes, ns0, ns1, once, a)
    requires if once && a != [] then ns == ns1 else Appends(nodes, ns1, ns, once, b)
    ensures Appends(nodes, ns0, ns, once, a + b)
  {
    if once && a != [] {
      assert First1(once, a + b) == First1(once, a);
    } else {
      assert First1(once, a + b) == First1(once, a) + First1(once, b);
    }
  }

  /** An attribute passes as itself only where every node does. */
  method PushSelf(nodes: seq<Node>, ghost env: Env, ghost x: XNode, p: Node, k: nat, test: NodeTest, once: bool, ns0: seq<XRef>)
      returns (ns: seq<XRef>, pushed: bool)
    requires env.Has(x) && x.AttrAt? && x.k == k && x.i < |nodes| && nodes[x.i] == p && env.attrs[x.i] == p.attributes
    ensures Appends(nodes, ns0, ns, once, SelfAttr(env, x, test)) && pushed == (SelfAttr(env, x, test) != [])
  {
    ns, pushed := ns0, false;
    if test.TypeNode? {
      ns, pushed := StepPushAttribute(ns, p, k, test);
    }
    assert RefsOf(nodes, [x]) == [AttrRef(p, k)];
  }

  /** axis_ancestor_or_self from an attribute. */
  method FillUp(nodes: seq<Node>, ghost env: Env, ghost x: XNode, p: Node, k: nat, test: NodeTest, once: bool, ns0: seq<XRef>)
      returns (ns: seq<XRef>)
    requires env.Valid() && env.Has(x) && x.AttrAt? && x.k == k && x.i < |nodes| && nodes[x.i] == p && env.attrs[x.i] == p.attributes
    requires DocRepresents(nodes, env.doc)
    ensures Appends(nodes, ns0, ns, once, SelfAttr(env, x, test) + Lift(StepSeq(env.doc, AncestorOrSelf, test, x.i)))
  {
    var pushed;
    ns, pushed := PushSelf(nodes, env, x, p, k, test, once, ns0);
    ghost var ns1 := ns;
    if !(pushed && once) {
      ns := FillNodes(nodes, env.doc, x.i, AncestorOrSelf, p, test, once, ns);
    }
    Joined(nodes, ns0, ns1, ns, once, SelfAttr(env, x, test), Lift(StepSeq(env.doc, AncestorOrSelf, test, x.i)));
  }

  lemma AttributeOf(nodes: seq<Node>, env: Env, x: XNode, p: Node, k: nat)
    requires EnvRepresents(nodes, env) && env.Has(x) && Denotes(nodes, AttrRef(p, k), x)
    ensures x.AttrAt? && x.k == k && x.i < |nodes| && nodes[x.i] == p && env.attrs[x.i] == p.attributes && DocRepresents(nodes, env.doc)
  {
    assert AttributesAt(nodes, env, x.i);
  }

  /** The axes on which an attribute is served by a walk from its owner. */
  function OwnersAxis(axis: Axis): Axis {
    if axis.AncestorAxis? then AncestorOrSelf else if axis.Parent? then Self else Preceding
  }

  lemma OwnersSeq(env: Env, x: XNode, axis: Axis, test: NodeTest)
    requires env.Valid() && env.Has(x) && x.AttrAt? && (axis.AncestorAxis? || axis.Parent? || axis.Preceding?)
    ensures AxisSeq(env, x, TreeAxis(axis), test) == Lift(StepSeq(env.doc, OwnersAxis(axis), test, x.i))
  {
  }

  lemma OtherSeq(env: Env, x: XNode, axis: Axis, test: NodeTest)
    requires env.Valid() && env.Has(x) && x.AttrAt?
    ensures axis.AncestorOrSelf? ==>
      AxisSeq(env, x, TreeAxis(axis), test) == SelfAttr(env, x, test) + Lift(StepSeq(env.doc, AncestorOrSelf, test, x.i))
    ensures axis.DescendantOrSelf? || axis.Self? ==> AxisSeq(env, x, TreeAxis(axis), test) == SelfAttr(env, x, test)
    ensures axis.Following? ==>
      AxisSeq(env, x, TreeAxis(axis), test) == Lift(StepSeq(env.doc, Descendant, test, x.i)) + Lift(StepSeq(env.doc, Following, test, x.i))
    ensures axis.Child? || axis.Descendant? || axis.FollowingSibling? || axis.PrecedingSibling? ==> AxisSeq(env, x, TreeAxis(axis), test) == []
  {
  }

  /** step_fill for an attribute. */
  method FillFromAttribute(nodes: seq<Node>, ghost env: Env, ghost x: XNode, axis: Axis, p: Node, k: nat, test: NodeTest,
                           once: bool, ns0: seq<XRef>) returns (ns: seq<XRef>)
    requires env.Valid() && env.Has(x) && x.AttrAt? && x.k == k && x.i < |nodes| && nodes[x.i] == p && env.attrs[x.i] == p.attributes
    requires DocRepresents(nodes, env.doc)
    ensures Appends(nodes, ns0, ns, once, AxisSeq(env, x, TreeAxis(axis), test))
  {
    if axis.AncestorAxis? || axis.Parent? || axis.Preceding? {
      ns := FillNodes(nodes, env.doc, x.i, OwnersAxis(axis), p, test, once, ns0);
      OwnersSeq(env, x, axis, test);
    } else {
      ns := FillFromOther(nodes, env, x, axis, p, k, test, once, ns0);
    }
  }

  method FillFromOther(nodes: seq<Node>, ghost env: Env, ghost x: XNode, axis: Axis, p: Node, k: nat, test: NodeTest,
                       once: bool, ns0: seq<XRef>) returns (ns: seq<XRef>)
    requires env.Valid() && env.Has(x) && x.AttrAt? && x.k == k && x.i < |nodes| && nodes[x.i] == p && env.attrs[x.i] == p.attributes
    requires DocRepresents(nodes, env.doc) && !(axis.AncestorAxis? || axis.Parent? || axis.Preceding?)
    ensures Appends(nodes, ns0, ns, once, AxisSeq(env, x, TreeAxis(axis), test))
  {
    OtherSeq(env, x, axis, test);
    if axis.AncestorOrSelf? {
      ns := FillUp(nodes, env, x, p, k, test, once, ns0);
    } else if axis.DescendantOrSelf? || axis.Self? {
      var pushed;
      ns, pushed := PushSelf(nodes, env, x, p, k, test, once, ns0);
    } else if axis.Following? {
      ns := FillFollowingOf(nodes, env.doc, x.i, p, test, once, ns0);
    } else {
      ns := ns0;
    }
  }

  /** step_fill: on every axis, from a node or an attribute, the walk on the tree appends the sequence
      the evaluator goes by, or with `once` its first. */
  method StepFillFrom(nodes: seq<Node>, ghost env: Env, ghost x: XNode, axis: XAxis, from: XRef, test: NodeTest, once: bool,
                      ns0: seq<XRef>) returns (ns: seq<XRef>)
    requires EnvRepresents(nodes, env) && env.Has(x) && Denotes(nodes, from, x)
    ensures Appends(nodes, ns0, ns, once, AxisSeq(env, x, axis, test))
  {
    match axis
    case AttributeAxis =>
      if from.NodeRef? {
        ns := FillAttributes(nodes, env, x.i, from.node, test, once, ns0);
      } else {
        ns := ns0;
      }
    case TreeAxis(a) =>
      if from.NodeRef? {
        ns := FillNodes(nodes, env.doc, x.i, a, from.node, test, once, ns0);
      } else {
        AttributeOf(nodes, env, x, from.node, from.k);
        ns := FillFromAttribute(nodes, env, x, a, from.node, from.k, test, once, ns0);
      }
  }

  // ---------- a step on the tree ----------

  ghost predicate AllIn(env: Env, xs: seq<XNode>) {
    forall k {:trigger xs[k]} :: 0 <= k < |xs| ==> env.Has(xs[k])
  }

  ghost predicate Denoted(nodes: seq<Node>, xs: seq<XNode>, from: seq<XRef>, k: int)
    requires 0 <= k < |xs| == |from|
    reads nodes
  {
    Denotes(nodes, from[k], xs[k])
  }

  /** `from` refers to the nodes `xs`, in the same order. */
  ghost predicate Contexts(nodes: seq<Node>, env: Env, xs: seq<XNode>, from: seq<XRef>)
    reads nodes
  {
    && EnvRepresents(nodes, env) && |xs| == |from| && AllIn(env, xs)
    && forall k {:trigger Denoted(nodes, xs, from, k)} :: 0 <= k < |xs| ==> Denoted(nodes, xs, from, k)
  }

  /** What the step gives from the first `m` context nodes. */
  ghost function StepUnion(env: Env, xs: seq<XNode>, axis: XAxis, test: NodeTest, m: nat): set<XNode>
    requires env.Valid() && m <= |xs| && AllIn(env, xs)
  {
    if m == 0 then {} else StepUnion(env, xs, axis, test, m - 1) + StepFrom(env, xs[m - 1], axis, test, NoPreds)
  }

  lemma ElementsJoin(a: seq<XNode>, b: seq<XNode>)
    ensures Elements(a + b) == Elements(a) + Elements(b)
  {
  }

  /** The nodes of the axis from the first `m` context nodes, one after the other. */
  ghost function AllNodes(env: Env, xs: seq<XNode>, axis: XAxis, test: NodeTest, m: nat): seq<XNode>
    requires env.Valid() && m <= |xs| && AllIn(env, xs)
  {
    if m == 0 then [] else AllNodes(env, xs, axis, test, m - 1) + AxisNodes(env, xs[m - 1], axis, test)
  }

  lemma OneMore(env: Env, x: XNode, axis: XAxis, test: NodeTest, found: seq<XNode>)
    requires env.Valid() && env.Has(x)
    ensures Elements(found + AxisNodes(env, x, axis, test)) == Elements(found) + StepFrom(env, x, axis, test, NoPreds)
  {
    AxisMeaning(env, x, axis, test);
    ElementsJoin(found, AxisNodes(env, x, axis, test));
  }

  /** Together they are exactly the nodes section 2.1 of XPath 1.0 gives. */
  lemma {:induction false} AllNodesAre(env: Env, xs: seq<XNode>, axis: XAxis, test: NodeTest, m: nat)
    requires env.Valid() && m <= |xs| && AllIn(env, xs)
    ensures Elements(AllNodes(env, xs, axis, test, m)) == StepUnion(env, xs, axis, test, m)
  {
    if m > 0 {
      AllNodesAre(env, xs, axis, test, m - 1);
      OneMore(env, xs[m - 1], axis, test, AllNodes(env, xs, axis, test, m - 1));
    }
  }

  /** `ns` refers to the nodes `found`. */
  ghost predicate Refers(nodes: seq<Node>, found: seq<XNode>, ns: seq<XRef>) {
    |ns| == |found| && forall k {:trigger RefersAt(nodes, found, ns, k)} :: 0 <= k < |found| ==> RefersAt(nodes, found, ns, k)
  }

  ghost predicate RefersAt(nodes: seq<Node>, found: seq<XNode>, ns: seq<XRef>, k: int)
    requires 0 <= k < |found| == |ns|
  {
    0 <= found[k].i < |nodes| && ns[k] == RefOf(nodes, found[k])
  }

  lemma RefersMore(nodes: seq<Node>, found: seq<XNode>, ns: seq<XRef>, more: seq<XNode>, out: seq<XRef>)
    requires Refers(nodes, found, ns) && Within(nodes, more) && out == ns + RefsOf(nodes, more)
    ensures Refers(nodes, found + more, out)
  {
    forall k {:trigger RefersAt(nodes, found + more, out, k)} | 0 <= k < |found + more|
      ensures RefersAt(nodes, found + more, out, k)
    {
      if k < |found| { assert RefersAt(nodes, found, ns, k); }
    }
  }

  /** One context node. */
  method StepTurn(nodes: seq<Node>, ghost env: Env, ghost x: XNode, from: XRef, axis: XAxis, test: NodeTest,
                  ghost found: seq<XNode>, ns: seq<XRef>) returns (out: seq<XRef>)
    requires EnvRepresents(nodes, env) && env.Has(x) && Denotes(nodes, from, x) && Refers(nodes, found, ns)
    ensures Refers(nodes, found + AxisNodes(env, x, axis, test), out)
  {
    out := StepFillFrom(nodes, env, x, axis, from, test, axis.AttributeAxis? && test.NameTest?, ns);
    RefersMore(nodes, found, ns, AxisNodes(env, x, axis, test), out);
  }

  /** `ns` refers to what the first `m` context nodes give. */
  ghost predicate Gathered(nodes: seq<Node>, env: Env, xs: seq<XNode>, from: seq<XRef>, axis: XAxis, test: NodeTest, m: int, ns: seq<XRef>)
    reads nodes
  {
    Contexts(nodes, env, xs, from) && 0 <= m <= |from| && Refers(nodes, AllNodes(env, xs, axis, test, m), ns)
  }

  method StepTurnAt(nodes: seq<Node>, ghost env: Env, ghost xs: seq<XNode>, from: seq<XRef>, axis: XAxis, test: NodeTest, m: nat, ns: seq<XRef>)
      returns (out: seq<XRef>)
    requires Gathered(nodes, env, xs, from, axis, test, m, ns) && m < |from|
    ensures Gathered(nodes, env, xs, from, axis, test, m + 1, out)
  {
    DenotedAt(nodes, env, xs, from, m);
    out := StepTurn(nodes, env, xs[m], from[m], axis, test, AllNodes(env, xs, axis, test, m), ns);
  }

  /** step_do for a step without predicates, before duplicates are removed, from any list of context nodes. */
  method StepOnTree(nodes: seq<Node>, ghost env: Env, ghost xs: seq<XNode>, from: seq<XRef>, axis: XAxis, test: NodeTest)
      returns (ns: seq<XRef>)
    requires Contexts(nodes, env, xs, from)
    ensures Refers(nodes, AllNodes(env, xs, axis, test, |xs|), ns)
  {
    ns := [];
    for m := 0 to |from|
      invariant Gathered(nodes, env, xs, from, axis, test, m, ns)
    {
      ns := StepTurnAt(nodes, env, xs, from, axis, test, m, ns);
    }
  }

  lemma DenotedAt(nodes: seq<Node>, env: Env, xs: seq<XNode>, from: seq<XRef>, m: int)
    requires Contexts(nodes, env, xs, from) && 0 <= m < |xs|
    ensures env.Has(xs[m]) && Denotes(nodes, from[m], xs[m])
  {
    assert Denoted(nodes, xs, from, m);
  }

  /** From a single context node the nodes come in axis order. */
  lemma OneContext(env: Env, xs: seq<XNode>, axis: XAxis, test: NodeTest)
    requires env.Valid() && |xs| == 1 && env.Has(xs[0])
    ensures InOrder(AllNodes(env, xs, axis, test, 1), AxisType(axis))
  {
    AxisMeaning(env, xs[0], axis, test);
    assert AllNodes(env, xs, axis, test, 1) == [] + AxisNodes(env, xs[0], axis, test);
    assert [] + AxisNodes(env, xs[0], axis, test) == AxisNodes(env, xs[0], axis, test);
  }

  lemma HeadIsFirst(env: Env, x: XNode, axis: XAxis, test: NodeTest, s: seq<XNode>)
    requires env.Valid() && env.Has(x) && !ReverseAxis(axis) && s == First1(true, AxisSeq(env, x, axis, test))
    ensures s == if AxisSet(env, x, axis, test) == {} then [] else [FirstOf(AxisSet(env, x, axis, test))]
  {
    AxisMeaning(env, x, axis, test);
    var all, set_ := AxisNodes(env, x, axis, test), AxisSet(env, x, axis, test);
    assert s == First1(true, all);
    if all != [] {
      assert all[0] in Elements(all);
      assert IsFirst(set_, all[0]);
      FirstIsUnique(set_, all[0]);
    }
  }

  /** step_do with its early exit, on an axis in document order: the first node of the step, or none. */
  method FirstOnTree(nodes: seq<Node>, ghost env: Env, ghost x: XNode, from: XRef, axis: XAxis, test: NodeTest)
      returns (r: Option<XRef>)
    requires EnvRepresents(nodes, env) && env.Has(x) && Denotes(nodes, from, x) && !ReverseAxis(axis)
    ensures var s := AxisSet(env, x, axis, test);
      if s == {} then r == None else 0 <= FirstOf(s).i < |nodes| && r == Some(RefOf(nodes, FirstOf(s)))
  {
    var ns := StepFillFrom(nodes, env, x, axis, from, test, true, []);
    HeadIsFirst(env, x, axis, test, First1(true, AxisSeq(env, x, axis, test)));
    r := if ns == [] then None else Some(ns[0]);
  }

  // ---------- location paths on the tree ----------

  /** Location paths without predicates, and unions of them. */
  predicate Plain(e: Expr) {
    match e
    case Root => true
    case Step(left, _, _, preds) => preds.NoPreds? && (left.From? ==> Plain(left.e))
    case Bin(op, l, r) => op.UnionOp? && Plain(l) && Plain(r)
    case _ => false
  }

  lemma DenotesRef(nodes: seq<Node>, env: Env, x: XNode)
    requires EnvRepresents(nodes, env) && env.Has(x)
    ensures 0 <= x.i < |nodes| && Denotes(nodes, RefOf(nodes, x), x)
  {
    assert AttributesAt(nodes, env, x.i);
  }

  /** What refers to nodes of the document can serve as context nodes. */
  lemma RefersDenote(nodes: seq<Node>, env: Env, xs: seq<XNode>, ns: seq<XRef>)
    requires EnvRepresents(nodes, env) && Refers(nodes, xs, ns) && AllIn(env, xs)
    ensures Contexts(nodes, env, xs, ns)
  {
    forall k {:trigger Denoted(nodes, xs, ns, k)} | 0 <= k < |xs|
      ensures Denoted(nodes, xs, ns, k)
    {
      assert RefersAt(nodes, xs, ns, k);
      DenotesRef(nodes, env, xs[k]);
    }
  }

  ghost predicate FromAt(env: Env, xs: seq<XNode>, axis: XAxis, test: NodeTest, k: int, y: XNode)
    requires env.Valid() && AllIn(env, xs)
  {
    0 <= k < |xs| && y in StepFrom(env, xs[k], axis, test, NoPreds)
  }

  ghost predicate FromBelow(env: Env, xs: seq<XNode>, axis: XAxis, test: NodeTest, m: int, y: XNode)
    requires env.Valid() && AllIn(env, xs)
  {
    exists k {:trigger FromAt(env, xs, axis, test, k, y)} :: k < m && FromAt(env, xs, axis, test, k, y)
  }

  lemma {:induction false} InUnion(env: Env, xs: seq<XNode>, axis: XAxis, test: NodeTest, m: nat, y: XNode)
    requires env.Valid() && m <= |xs| && AllIn(env, xs)
    ensures y in StepUnion(env, xs, axis, test, m) <==> FromBelow(env, xs, axis, test, m, y)
  {
    if m > 0 {
      InUnion(env, xs, axis, test, m - 1, y);
      FromBelowNext(env, xs, axis, test, m, y);
    }
  }

  lemma FromBelowNext(env: Env, xs: seq<XNode>, axis: XAxis, test: NodeTest, m: nat, y: XNode)
    requires env.Valid() && 0 < m <= |xs| && AllIn(env, xs)
    ensures FromBelow(env, xs, axis, test, m, y) <==>
      (FromBelow(env, xs, axis, test, m - 1, y) || y in StepFrom(env, xs[m - 1], axis, test, NoPreds))
  {
    if y in StepFrom(env, xs[m - 1], axis, test, NoPreds) {
      assert FromAt(env, xs, axis, test, m - 1, y);
    }
    if FromBelow(env, xs, axis, test, m, y) {
      var k :| k < m && FromAt(env, xs, axis, test, k, y);
      assert k < m - 1 || k == m - 1;
    }
  }

  /** A step means the union over its context nodes, in whatever order and however often they are listed. */
  lemma StepMeans(env: Env, e: Expr, c: Context, xs: seq<XNode>)
    requires env.Valid() && Typed(env, e) && GoodContext(env, c) && e.Step? && e.preds.NoPreds? && AllIn(env, xs)
    requires Elements(xs) == if e.left.From? then Evaluate(env, e.left.e, c).nodes else if c.n.Some? then {c.n.value} else {}
    ensures Evaluate(env, e, c).nodes == StepUnion(env, xs, e.axis, e.test, |xs|)
  {
    var r, all := Evaluate(env, e, c).nodes, StepUnion(env, xs, e.axis, e.test, |xs|);
    forall y ensures y in r <==> y in all {
      InUnion(env, xs, e.axis, e.test, |xs|, y);
      if y in r {
        var x :| x in Elements(xs) && y in StepFrom(env, x, e.axis, e.test, NoPreds);
        var k :| 0 <= k < |xs| && xs[k] == x;
        assert FromAt(env, xs, e.axis, e.test, k, y);
      }
      if y in all {
        var k :| k < |xs| && FromAt(env, xs, e.axis, e.test, k, y);
        assert xs[k] in Elements(xs);
      }
    }
  }

  lemma AllInElements(env: Env, xs: seq<XNode>)
    requires forall y <- Elements(xs) :: env.Has(y)
    ensures AllIn(env, xs)
  {
    forall k {:trigger xs[k]} | 0 <= k < |xs|
      ensures env.Has(xs[k])
    {
      assert xs[k] in Elements(xs);
    }
  }

  /** `ns` refers to the nodes `xs`, which are those of the value of `e`. */
  ghost predicate Delivers(nodes: seq<Node>, env: Env, e: Expr, c: Context, xs: seq<XNode>, ns: seq<XRef>)
    requires env.Valid() && Typed(env, e) && GoodContext(env, c)
  {
    Refers(nodes, xs, ns) && NodesV(Elements(xs)) == Evaluate(env, e, c)
  }

  method StepPathOnTree(nodes: seq<Node>, ghost env: Env, ghost c: Context, e: Expr, ghost xs: seq<XNode>, from: seq<XRef>)
      returns (ghost found: seq<XNode>, ns: seq<XRef>)
    requires Contexts(nodes, env, xs, from) && Typed(env, e) && GoodContext(env, c) && e.Step? && e.preds.NoPreds?
    requires Elements(xs) == if e.left.From? then Evaluate(env, e.left.e, c).nodes else if c.n.Some? then {c.n.value} else {}
    ensures Delivers(nodes, env, e, c, found, ns)
  {
    ns := StepOnTree(nodes, env, xs, from, e.axis, e.test);
    found := AllNodes(env, xs, e.axis, e.test, |xs|);
    AllNodesAre(env, xs, e.axis, e.test, |xs|);
    StepMeans(env, e, c, xs);
  }

  lemma UnionDelivers(nodes: seq<Node>, env: Env, e: Expr, c: Context, a: seq<XNode>, m: seq<XRef>, b: seq<XNode>, n: seq<XRef>)
    requires env.Valid() && Typed(env, e) && GoodContext(env, c) && e.Bin? && e.bop.UnionOp?
    requires Delivers(nodes, env, e.l, c, a, m) && Delivers(nodes, env, e.r, c, b, n)
    ensures Delivers(nodes, env, e, c, a + b, m + n)
  {
    ElementsJoin(a, b);
    forall k {:trigger RefersAt(nodes, a + b, m + n, k)} | 0 <= k < |a + b|
      ensures RefersAt(nodes, a + b, m + n, k)
    {
      if k < |a| { assert RefersAt(nodes, a, m, k); } else { assert RefersAt(nodes, b, n, k - |a|); }
    }
  }

  lemma RootDelivers(nodes: seq<Node>, env: Env, e: Expr, c: Context)
    requires EnvRepresents(nodes, env) && Typed(env, e) && GoodContext(env, c) && e.Root? && c.n.Some? && |nodes| > 0
    ensures Delivers(nodes, env, e, c, [NodeAt(0)], [NodeRef(nodes[0])])
  {
    assert Elements([NodeAt(0)]) == {NodeAt(0)};
  }

  lemma OneDenoted(nodes: seq<Node>, env: Env, x: XNode, from: XRef)
    requires EnvRepresents(nodes, env) && env.Has(x) && Denotes(nodes, from, x)
    ensures Contexts(nodes, env, [x], [from]) && Elements([x]) == {x}
  {
  }

  lemma DeliveredDenote(nodes: seq<Node>, env: Env, e: Expr, c: Context, xs: seq<XNode>, ns: seq<XRef>)
    requires EnvRepresents(nodes, env) && Typed(env, e) && GoodContext(env, c) && Delivers(nodes, env, e, c, xs, ns)
    ensures Contexts(nodes, env, xs, ns) && Elements(xs) == Evaluate(env, e, c).nodes
  {
    assert GoodValue(env, Evaluate(env, e, c));
    AllInElements(env, xs);
    RefersDenote(nodes, env, xs, ns);
  }

  /** eval_node_set on the tree, for a location path or a union of such paths, without predicates: the
      walks along the links deliver references to exactly the nodes the path selects. */
  method PathOnTree(nodes: seq<Node>, ghost env: Env, ghost c: Context, from: XRef, e: Expr)
      returns (ghost found: seq<XNode>, ns: seq<XRef>)
    requires EnvRepresents(nodes, env) && Typed(env, e) && GoodContext(env, c) && Plain(e)
    requires c.n.Some? && Denotes(nodes, from, c.n.value)
    ensures Delivers(nodes, env, e, c, found, ns)
    decreases e
  {
    match e
    case Root =>
      RootDelivers(nodes, env, e, c);
      found, ns := [NodeAt(0)], [NodeRef(nodes[0])];
    case Bin(_, l, r) =>
      var a, m := PathOnTree(nodes, env, c, from, l);
      var b, n := PathOnTree(nodes, env, c, from, r);
      UnionDelivers(nodes, env, e, c, a, m, b, n);
      found, ns := a + b, m + n;
    case Step(left, _, _, _) =>
      if left.From? {
        var a, m := PathOnTree(nodes, env, c, from, left.e);
        DeliveredDenote(nodes, env, left.e, c, a, m);
        found, ns := StepPathOnTree(nodes, env, c, e, a, m);
      } else {
        OneDenoted(nodes, env, c.n.value, from);
        found, ns := StepPathOnTree(nodes, env, c, e, [c.n.value], [from]);
      }
  }

  // ---------- the first node on the tree ----------

  /** `b` is the place of a node that none of the first `m` precedes. */
  ghost predicate EarliestOf(xs: seq<XNode>, b: int, m: int) {
    0 <= b < m <= |xs| && forall k {:trigger xs[k]} :: 0 <= k < m ==> xs[k] == xs[b] || Before(xs[b], xs[k])
  }

  lemma EarlierStays(xs: seq<XNode>, b: int, m: int, earlier: bool)
    requires EarliestOf(xs, b, m) && m < |xs|
    requires xs[m] != xs[b] ==> (earlier <==> Before(xs[m], xs[b]))
    ensures EarliestOf(xs, if earlier then m else b, m + 1)
  {
  }

  lemma EarliestIsFirst(xs: seq<XNode>, b: int)
    requires EarliestOf(xs, b, |xs|)
    ensures Elements(xs) != {} && xs[b] == FirstOf(Elements(xs))
  {
    assert xs[b] in Elements(xs);
    assert IsFirst(Elements(xs), xs[b]);
    FirstIsUnique(Elements(xs), xs[b]);
  }

  /** xpath_first on an unsorted array: min_element with the comparator that climbs the tree. */
  method MinElement(nodes: seq<Node>, ghost env: Env, ghost xs: seq<XNode>, ns: seq<XRef>) returns (r: XRef)
    requires Contexts(nodes, env, xs, ns) && ns != []
    ensures Elements(xs) != {} && Denotes(nodes, r, FirstOf(Elements(xs)))
  {
    var best, i := 0, 1;
    while i < |ns|
      invariant 1 <= i <= |ns| && EarliestOf(xs, best, i)
    {
      DenotedAt(nodes, env, xs, ns, i);
      DenotedAt(nodes, env, xs, ns, best);
      var earlier := DocumentOrder(nodes, env.doc.shape, xs[i], xs[best], ns[i], ns[best]);
      EarlierStays(xs, best, i, earlier);
      best := if earlier then i else best;
      i := i + 1;
    }
    DenotedAt(nodes, env, xs, ns, best);
    EarliestIsFirst(xs, best);
    r := ns[best];
  }

  /** select_node for such a path, all on the tree: the node of its value that is first in document
      order, or none. */
  method SelectOnTree(nodes: seq<Node>, ghost env: Env, ghost c: Context, from: XRef, e: Expr) returns (r: Option<XRef>)
    requires EnvRepresents(nodes, env) && Typed(env, e) && GoodContext(env, c) && Plain(e)
    requires c.n.Some? && Denotes(nodes, from, c.n.value)
    ensures var s := Evaluate(env, e, c).nodes;
      if s == {} then r == None else r.Some? && Denotes(nodes, r.value, FirstOf(s))
  {
    var found, ns := PathOnTree(nodes, env, c, from, e);
    DeliveredDenote(nodes, env, e, c, found, ns);
    if ns == [] {
      assert Elements(found) == {};
      return None;
    }
    var first := MinElement(nodes, env, found, ns);
    r := Some(first);
  }
}
