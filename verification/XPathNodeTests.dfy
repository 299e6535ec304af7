/** What each node test lets through (XPath 1.0, section 2.3), said of the nodes a step delivers. */
module XPathNodeTests {
  import opened Wrappers
  import opened Tree
  import opened Axes
  import opened Order
  import opened XPathSpec
  import opened XPathModes
  import opened XPathNodeSet

  // ---------- nodes ----------

  /** A name test delivers the elements of that name, on every axis. */
  lemma NamedDelivered(d: Doc, axis: Axis, i: int, j: int, q: string)
    requires d.Valid() && d.Has(i) && d.Has(j) && OnAxis(d.shape, axis, i, j)
    ensures j in StepSeq(d, axis, NameTest(q), i) <==> d.kind[j] == Element && d.name[j] == Some(q)
  {
    StepSeqMeaning(d, axis, NameTest(q), i);
  }

  /** `*` delivers the elements, node() everything, and the node type tests the nodes of their kind; CDATA
      sections count as text. */
  lemma KindsDelivered(d: Doc, axis: Axis, i: int, j: int)
    requires d.Valid() && d.Has(i) && d.Has(j) && OnAxis(d.shape, axis, i, j)
    ensures j in StepSeq(d, axis, All, i) <==> d.kind[j] == Element
    ensures j in StepSeq(d, axis, TypeNode, i)
    ensures j in StepSeq(d, axis, TypeText, i) <==> d.kind[j] == Pcdata || d.kind[j] == Cdata
    ensures j in StepSeq(d, axis, TypeComment, i) <==> d.kind[j] == Comment
    ensures j in StepSeq(d, axis, TypePi, i) <==> d.kind[j] == Pi
  {
    StepSeqMeaning(d, axis, All, i);
    StepSeqMeaning(d, axis, TypeNode, i);
    StepSeqMeaning(d, axis, TypeText, i);
    StepSeqMeaning(d, axis, TypeComment, i);
    StepSeqMeaning(d, axis, TypePi, i);
  }

  /** processing-instruction('t') delivers those with that target. */
  lemma TargetDelivered(d: Doc, axis: Axis, i: int, j: int, t: string)
    requires d.Valid() && d.Has(i) && d.Has(j) && OnAxis(d.shape, axis, i, j)
    ensures j in StepSeq(d, axis, PiTest(t), i) <==> d.kind[j] == Pi && d.name[j] == Some(t)
  {
    StepSeqMeaning(d, axis, PiTest(t), i);
  }

  /** `p:*`, whose prefix is kept with its colon, delivers the elements whose name goes on from there. */
  lemma NamespaceDelivered(d: Doc, axis: Axis, i: int, j: int, p: string)
    requires d.Valid() && d.Has(i) && d.Has(j) && OnAxis(d.shape, axis, i, j)
    ensures j in StepSeq(d, axis, AllInNamespace(p), i) <==> d.kind[j] == Element && exists rest :: d.name[j] == Some(p + rest)
  {
    StepSeqMeaning(d, axis, AllInNamespace(p), i);
    if d.name[j].Some? {
      StartsWith(p, d.name[j].value);
    }
  }

  lemma StartsWith(p: string, s: string)
    ensures Prefixes(p, s) <==> exists rest :: s == p + rest
  {
    if Prefixes(p, s) {
      assert s == p + s[|p|..];
    }
  }

  /** Nothing off the axis is delivered. */
  lemma NothingElse(d: Doc, axis: Axis, test: NodeTest, i: int, j: int)
    requires d.Valid() && d.Has(i) && j in StepSeq(d, axis, test, i)
    ensures d.Has(j) && OnAxis(d.shape, axis, i, j)
  {
    StepSeqMeaning(d, axis, test, i);
  }

  // ---------- the same on the tree ----------

  lemma {:induction false} AmongRefs(nodes: seq<Node>, idx: seq<int>, j: int)
    requires InRange(idx, |nodes|) && 0 <= j < |nodes|
    requires forall i, k {:trigger Apart(nodes, i, k)} :: 0 <= i < |nodes| && 0 <= k < |nodes| ==> Apart(nodes, i, k)
    ensures nodes[j] in Refs(nodes, idx) <==> j in idx
  {
    if idx != [] {
      var n := |idx| - 1;
      assert idx == idx[..n] + [idx[n]];
      AmongRefs(nodes, idx[..n], j);
      assert Apart(nodes, j, idx[n]);
    }
  }

  /** What a walk appends, told from the nodes themselves. */
  lemma NamedOnTree(nodes: seq<Node>, d: Doc, axis: Axis, i: int, j: int, q: string, ns: seq<Node>)
    requires DocRepresents(nodes, d) && d.Has(i) && d.Has(j) && OnAxis(d.shape, axis, i, j)
    requires Filled(nodes, [], ns, false, StepSeq(d, axis, NameTest(q), i))
    ensures nodes[j] in ns <==> nodes[j].kind == Element && nodes[j].name == Some(q)
  {
    NamedDelivered(d, axis, i, j, q);
    assert Labelled(nodes, d, j);
    var s := StepSeq(d, axis, NameTest(q), i);
    assert Limit(false, s) == s && ns == [] + Refs(nodes, s) == Refs(nodes, s);
    AmongRefs(nodes, s, j);
  }

  // ---------- attributes ----------

  /** A namespace declaration: `xmlns` or `xmlns:` and a prefix. */
  ghost predicate Declares(name: string) {
    name == "xmlns" || exists prefix :: name == "xmlns:" + prefix
  }

  lemma DeclaresExactly(name: string)
    ensures IsXPathAttribute(name) <==> !Declares(name)
  {
    if |name| > 5 && name[..5] == "xmlns" && name[5] == ':' {
      assert name == "xmlns:" + name[6..];
    }
    if Declares(name) && name != "xmlns" {
      var prefix :| name == "xmlns:" + prefix;
      assert name[..5] == "xmlns" && name[5] == ':';
    }
  }

  lemma OnAttributeAxis(env: Env, i: int, k: nat, test: NodeTest)
    requires env.Valid() && 0 <= i < |env.attrs| && k < |env.attrs[i]|
    ensures AttrAt(i, k) in AxisNodes(env, NodeAt(i), AttributeAxis, test)
      <==> Selects(env, NodeAt(i), AttributeAxis, test, AttrAt(i, k))
  {
    AttributeAxisMeaning(env, NodeAt(i), test);
    assert AttrAt(i, k) in AxisSet(env, NodeAt(i), AttributeAxis, test) <==> Selects(env, NodeAt(i), AttributeAxis, test, AttrAt(i, k));
  }

  /** `@q` delivers the first attribute named q, unless that is a namespace declaration. */
  lemma AttributeNamed(env: Env, i: int, k: nat, q: string)
    requires env.Valid() && 0 <= i < |env.attrs| && k < |env.attrs[i]|
    ensures AttrAt(i, k) in AxisNodes(env, NodeAt(i), AttributeAxis, NameTest(q)) <==>
      AttrName(env.attrs[i][k]) == q && !Declares(q) && forall m :: 0 <= m < k ==> AttrName(env.attrs[i][m]) != q
  {
    OnAttributeAxis(env, i, k, NameTest(q));
    DeclaresExactly(AttrName(env.attrs[i][k]));
  }

  /** `@*` and `@node()` deliver every attribute that is no namespace declaration, `@p:*` those whose name goes
      on from the prefix. */
  lemma AttributesDelivered(env: Env, i: int, k: nat, p: string)
    requires env.Valid() && 0 <= i < |env.attrs| && k < |env.attrs[i]|
    ensures var name := AttrName(env.attrs[i][k]);
      && (AttrAt(i, k) in AxisNodes(env, NodeAt(i), AttributeAxis, All) <==> !Declares(name))
      && (AttrAt(i, k) in AxisNodes(env, NodeAt(i), AttributeAxis, TypeNode) <==> !Declares(name))
      && (AttrAt(i, k) in AxisNodes(env, NodeAt(i), AttributeAxis, AllInNamespace(p)) <==>
          !Declares(name) && exists rest :: name == p + rest)
  {
    var name := AttrName(env.attrs[i][k]);
    DeclaresExactly(name);
    StartsWith(p, name);
    OnAttributeAxis(env, i, k, All);
    OnAttributeAxis(env, i, k, TypeNode);
    OnAttributeAxis(env, i, k, AllInNamespace(p));
  }

  /** The tests for texts, comments and processing instructions deliver no attribute. */
  lemma NoOtherAttributes(env: Env, i: int, k: nat, test: NodeTest)
    requires env.Valid() && 0 <= i < |env.attrs| && k < |env.attrs[i]|
    requires test.TypeText? || test.TypeComment? || test.TypePi? || test.PiTest?
    ensures AttrAt(i, k) !in AxisNodes(env, NodeAt(i), AttributeAxis, test)
  {
    OnAttributeAxis(env, i, k, test);
  }

  /** Where the name of an attribute comes from: one without a name has the empty one. */
  lemma AttributeNames(a: Attr)
    ensures AttrName(a) == match a.name case Some(n) => n case None => ""
  {
  }

  // ---------- in a query ----------

  /** `child::q` selects the children that are elements named q, `@q` the attribute of that name. */
  lemma ChildNamed(env: Env, c: Context, i: int, y: XNode, q: string)
    requires env.Valid() && c.n == Some(NodeAt(i)) && GoodContext(env, c) && env.Has(y) && q != ""
    ensures y in Evaluate(env, Step(FromContext, TreeAxis(Child), NameTest(q), NoPreds), c).nodes <==>
      y.NodeAt? && y.i > 0 && env.doc.shape.par[y.i] == i && env.doc.kind[y.i] == Element && env.doc.name[y.i] == Some(q)
    ensures y in Evaluate(env, Step(FromContext, AttributeAxis, NameTest(q), NoPreds), c).nodes <==>
      y.AttrAt? && y.i == i && AttrName(env.attrs[i][y.k]) == q && !Declares(q) && forall m :: 0 <= m < y.k ==> AttrName(env.attrs[i][m]) != q
  {
    var x := NodeAt(i);
    StepIsAxis(env, c, x, TreeAxis(Child), q, y);
    StepIsAxis(env, c, x, AttributeAxis, q, y);
    if y.AttrAt? {
      DeclaresExactly(AttrName(env.attrs[y.i][y.k]));
    } else {
      ChildSelected(env, i, y.i, q);
    }
  }

  lemma ChildSelected(env: Env, i: int, j: int, q: string)
    requires env.Valid() && env.Has(NodeAt(i)) && env.Has(NodeAt(j))
    ensures Selects(env, NodeAt(i), TreeAxis(Child), NameTest(q), NodeAt(j)) <==>
      j > 0 && env.doc.shape.par[j] == i && env.doc.kind[j] == Element && env.doc.name[j] == Some(q)
  {
  }

  lemma StepIsAxis(env: Env, c: Context, x: XNode, axis: XAxis, q: string, y: XNode)
    requires env.Valid() && c.n == Some(x) && GoodContext(env, c) && env.Has(y) && q != ""
    ensures y in Evaluate(env, Step(FromContext, axis, NameTest(q), NoPreds), c).nodes <==> Selects(env, x, axis, NameTest(q), y)
  {
    assert y in AxisSet(env, x, axis, NameTest(q)) <==> Selects(env, x, axis, NameTest(q), y);
    assert StepFrom(env, x, axis, NameTest(q), NoPreds) == AxisSet(env, x, axis, NameTest(q));
  }
}
