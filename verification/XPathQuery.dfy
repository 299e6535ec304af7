/** Queries as a caller sees them: optimized once, then evaluated for all nodes or for the first. */
module XPathQuery {
  import opened Wrappers
  import opened Order
  import opened XPathSpec
  import opened XPathReading
  import opened XPathNodeSet
  import opened XPathModes
  import opened XPathEval
  import opened XPathOptimize

  /** A query as it comes from the parser, and a context node in the document. */
  ghost predicate Asked(env: Env, query: Expr, n: Option<XNode>) {
    env.Valid() && Typed(env, query) && Fresh(query) && (n.Some? ==> env.Has(n.value))
  }

  /** What the query text means, from context node `n`, under a reading of the relational operators. */
  ghost function Meaning(env: Env, r: Reading, query: Expr, n: Option<XNode>): (v: Value)
    requires Asked(env, query, n)
    ensures GoodValue(env, v) && (TypeOf(query) == NodeSetType ==> v.NodesV?)
  {
    ValidBy(env, r);
    TypedBy(env, r, query);
    Evaluate(env.By(r), query, Context(n, 1, 1))
  }

  /** Without a relational operator between a node set and a boolean there is only one meaning. */
  lemma OneMeaning(env: Env, query: Expr, n: Option<XNode>)
    requires Asked(env, query, n) && Standard(query)
    ensures Meaning(env, Library, query, n) == Meaning(env, Recommendation, query, n)
  {
    EvaluateBy(env, Library, query, Context(n, 1, 1));
    EvaluateBy(env, Recommendation, query, Context(n, 1, 1));
  }

  /** The optimized query, ready for the evaluator. */
  lemma Prepared(env: Env, query: Expr, n: Option<XNode>)
    requires Asked(env, query, n)
    ensures var lib, c := env.By(Library), Context(n, 1, 1);
      Ready(lib, Optimize(query), c) && Evaluate(lib, Optimize(query), c) == Meaning(env, Library, query, n)
    ensures TypeOf(Optimize(query)) == TypeOf(query)
  {
    ValidBy(env, Library);
    TypedBy(env, Library, query);
    OptimizeTyped(env.By(Library), query);
    OptimizeSound(env.By(Library), query, Context(n, 1, 1));
  }

  /** evaluate_node_set: every node of the answer once, in the order the result claims. */
  method SelectNodes(env: Env, query: Expr, n: Option<XNode>) returns (ns: NodeSet)
    requires Asked(env, query, n) && TypeOf(query) == NodeSetType
    ensures GoodSet(env, ns) && Elements(ns.items) == Meaning(env, Library, query, n).nodes
    ensures Standard(query) ==> Elements(ns.items) == Meaning(env, Recommendation, query, n).nodes
  {
    Prepared(env, query, n);
    ns := EvalNodeSet(env.By(Library), Optimize(query), Context(n, 1, 1), EvalAll);
    if Standard(query) { OneMeaning(env, query, n); }
  }

  /** The first node in document order, if there is one. */
  ghost function FirstIn(s: set<XNode>): Option<XNode> {
    if s == {} then None else Some(FirstOf(s))
  }

  /** evaluate_node: the first node of the answer in document order, if there is one. */
  method SelectNode(env: Env, query: Expr, n: Option<XNode>) returns (x: Option<XNode>)
    requires Asked(env, query, n) && TypeOf(query) == NodeSetType
    ensures x == FirstIn(Meaning(env, Library, query, n).nodes)
    ensures Standard(query) ==> x == FirstIn(Meaning(env, Recommendation, query, n).nodes)
  {
    Prepared(env, query, n);
    var ns := EvalNodeSet(env.By(Library), Optimize(query), Context(n, 1, 1), EvalFirst);
    if Standard(query) { OneMeaning(env, query, n); }
    if ns.items == [] { return None; }
    var f := First(ns);
    FirstCovered(ns, Meaning(env, Library, query, n).nodes, f);
    return Some(f);
  }

  /** evaluate_boolean: what the query means, as a boolean. */
  method QueryBoolean(env: Env, query: Expr, n: Option<XNode>) returns (b: bool)
    requires Asked(env, query, n)
    ensures b == ToBool(env, Meaning(env, Library, query, n))
    ensures Standard(query) ==> b == ToBool(env, Meaning(env, Recommendation, query, n))
  {
    Prepared(env, query, n);
    b := EvalBoolean(env.By(Library), Optimize(query), Context(n, 1, 1));
    if Standard(query) { OneMeaning(env, query, n); }
  }

  /** evaluate_number */
  method QueryNumber(env: Env, query: Expr, n: Option<XNode>) returns (x: real)
    requires Asked(env, query, n)
    ensures x == ToNum(env, Meaning(env, Library, query, n))
    ensures Standard(query) ==> x == ToNum(env, Meaning(env, Recommendation, query, n))
  {
    Prepared(env, query, n);
    ConversionsBy(env, Library, Meaning(env, Library, query, n));
    x := EvalNumber(env.By(Library), Optimize(query), Context(n, 1, 1));
    if Standard(query) { OneMeaning(env, query, n); }
  }

  /** evaluate_string */
  method QueryString(env: Env, query: Expr, n: Option<XNode>) returns (s: string)
    requires Asked(env, query, n)
    ensures s == ToStr(env, Meaning(env, Library, query, n))
    ensures Standard(query) ==> s == ToStr(env, Meaning(env, Recommendation, query, n))
  {
    Prepared(env, query, n);
    ConversionsBy(env, Library, Meaning(env, Library, query, n));
    s := EvalString(env.By(Library), Optimize(query), Context(n, 1, 1));
    if Standard(query) { OneMeaning(env, query, n); }
  }
}
