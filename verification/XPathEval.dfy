/** The evaluator. Every method is proved against Evaluate, which knows neither modes nor classes, under
    the library's reading of the relational operators. */
module XPathEval {
  import opened Wrappers
  import opened Axes
  import opened Order
  import opened XPathSpec
  import opened XPathNodeSet
  import opened XPathModes

  ghost predicate Ready(env: Env, e: Expr, c: Context) {
    env.Valid() && env.reading.Library? && Typed(env, e) && Classified(e) && GoodContext(env, c)
  }

  /** Recursion order: an expression is evaluated at its own type before it is converted. */
  ghost function Level(want: RetType, have: RetType): nat {
    if want == have then 1 else if want == NumberType && have == NodeSetType then 3 else 2
  }

  ghost predicate AllHere(env: Env, items: seq<XNode>) { forall x <- items :: env.Has(x) }

  // ---------- comparison loops ----------

  method AnyPair(env: Env, negated: bool, ls: seq<XNode>, rs: seq<XNode>) returns (r: bool)
    requires AllHere(env, ls) && AllHere(env, rs)
    ensures r <==> exists x, y :: x in Elements(ls) && y in Elements(rs) && Same(negated, env.StringValue(x), env.StringValue(y))
  {
    for i := 0 to |ls|
      invariant forall x, y :: x in ls[..i] && y in rs ==> !Same(negated, env.StringValue(x), env.StringValue(y))
    {
      for j := 0 to |rs|
        invariant forall y :: y in rs[..j] ==> !Same(negated, env.StringValue(ls[i]), env.StringValue(y))
      {
        if Same(negated, env.StringValue(ls[i]), env.StringValue(rs[j])) { return true; }
      }
      assert rs[..|rs|] == rs;
    }
    assert ls[..|ls|] == ls;
    return false;
  }

  method AnyNumber(env: Env, negated: bool, l: real, rs: seq<XNode>) returns (r: bool)
    requires AllHere(env, rs)
    ensures r <==> exists x :: x in Elements(rs) && Same(negated, l, env.toNumber(env.StringValue(x)))
  {
    for j := 0 to |rs|
      invariant forall y :: y in rs[..j] ==> !Same(negated, l, env.toNumber(env.StringValue(y)))
    {
      if Same(negated, l, env.toNumber(env.StringValue(rs[j]))) { return true; }
    }
    assert rs[..|rs|] == rs;
    return false;
  }

  method AnyString(env: Env, negated: bool, l: string, rs: seq<XNode>) returns (r: bool)
    requires AllHere(env, rs)
    ensures r <==> exists x :: x in Elements(rs) && Same(negated, l, env.StringValue(x))
  {
    for j := 0 to |rs|
      invariant forall y :: y in rs[..j] ==> !Same(negated, l, env.StringValue(y))
    {
      if Same(negated, l, env.StringValue(rs[j])) { return true; }
    }
    assert rs[..|rs|] == rs;
    return false;
  }

  function Numbers(env: Env, items: seq<XNode>): (r: seq<real>)
    requires forall x <- items :: env.Has(x)
    ensures |r| == |items| && forall k :: 0 <= k < |r| ==> r[k] == env.toNumber(env.StringValue(items[k]))
  {
    if items == [] then [] else Numbers(env, items[..|items| - 1]) + [env.toNumber(env.StringValue(items[|items| - 1]))]
  }

  /** The loops of compare_rel. */
  method AnyBelow(orEqual: bool, ls: seq<real>, rs: seq<real>) returns (r: bool)
    ensures r <==> exists x, y :: x in ls && y in rs && Below(orEqual, x, y)
  {
    for i := 0 to |ls|
      invariant forall x, y :: x in ls[..i] && y in rs ==> !Below(orEqual, x, y)
    {
      for j := 0 to |rs|
        invariant forall y :: y in rs[..j] ==> !Below(orEqual, ls[i], y)
      {
        if Below(orEqual, ls[i], rs[j]) { return true; }
      }
      assert rs[..|rs|] == rs;
    }
    assert ls[..|ls|] == ls;
    return false;
  }

  // ---------- the value-typed evaluators ----------

  method EvalBoolean(env: Env, e: Expr, c: Context) returns (r: bool)
    requires Ready(env, e, c)
    ensures r == ToBool(env, Evaluate(env, e, c))
    decreases e, Level(BooleanType, TypeOf(e))
  {
    match TypeOf(e)
    case BooleanType => r := EvalBooleanHere(env, e, c);
    case NumberType => var n := EvalNumber(env, e, c); r := n != 0.0;
    case StringType => var s := EvalString(env, e, c); r := s != "";
    case NodeSetType =>
      var ns := EvalNodeSet(env, e, c, EvalAny);
      r := ns.items != [];
      AnyCovered(ns, Evaluate(env, e, c).nodes);
  }

  method EvalNumber(env: Env, e: Expr, c: Context) returns (r: real)
    requires Ready(env, e, c)
    ensures r == ToNum(env, Evaluate(env, e, c))
    decreases e, Level(NumberType, TypeOf(e))
  {
    match TypeOf(e)
    case NumberType => r := EvalNumberHere(env, e, c);
    case BooleanType => var b := EvalBoolean(env, e, c); r := if b then 1.0 else 0.0;
    case StringType => var s := EvalString(env, e, c); r := env.toNumber(s);
    case NodeSetType => var s := EvalString(env, e, c); r := env.toNumber(s);
  }

  method EvalString(env: Env, e: Expr, c: Context) returns (r: string)
    requires Ready(env, e, c)
    ensures r == ToStr(env, Evaluate(env, e, c))
    decreases e, Level(StringType, TypeOf(e))
  {
    match TypeOf(e)
    case StringType => r := EvalStringHere(env, e, c);
    case BooleanType => var b := EvalBoolean(env, e, c); r := if b then "true" else "false";
    case NumberType => var n := EvalNumber(env, e, c); r := env.toText(n);
    case NodeSetType =>
      var ns := EvalNodeSet(env, e, c, EvalFirst);
      if ns.items == [] { return ""; }
      var x := First(ns);
      FirstCovered(ns, Evaluate(env, e, c).nodes, x);
      r := env.StringValue(x);
  }

  /** In any mode something is delivered exactly when there is something. */
  lemma AnyCovered(ns: NodeSet, s: set<XNode>)
    requires Covers(EvalAny, ns.items, s)
    ensures ns.items != [] <==> s != {}
  {
    if ns.items != [] { assert ns.items[0] in Elements(ns.items); }
  }

  /** In first mode the first of what was delivered is the first of the whole set. */
  lemma FirstCovered(ns: NodeSet, s: set<XNode>, x: XNode)
    requires Covers(EvalFirst, ns.items, s) && ns.items != [] && IsFirst(Elements(ns.items), x)
    ensures s != {} && x == FirstOf(s)
  {
    assert ns.items[0] in ns.items;
    assert ns.items[0] in Elements(ns.items);
    assert FirstOf(s) in Elements(ns.items) && x in s;
    assert IsFirst(s, FirstOf(s));
  }

  method EvalStringHere(env: Env, e: Expr, c: Context) returns (r: string)
    requires Ready(env, e, c) && TypeOf(e) == StringType
    ensures Evaluate(env, e, c) == StringV(r)
    decreases e, 0
  {
    match e
    case Str(s) => r := s;
    case Var(v) => r := v.s;
    case ContextString => r := if c.n.Some? then env.StringValue(c.n.value) else "";
    case Un(_, a) => r := EvalString(env, a, c);
    case Bin(_, a, b) =>
      var x := EvalString(env, a, c);
      var y := EvalString(env, b, c);
      r := x + y;
  }

  method EvalNumberHere(env: Env, e: Expr, c: Context) returns (r: real)
    requires Ready(env, e, c) && TypeOf(e) == NumberType
    ensures Evaluate(env, e, c) == NumberV(r)
    decreases e, 0
  {
    match e
    case Num(n) => r := n;
    case Var(v) => r := v.n;
    case Position => r := c.position as real;
    case Last => r := c.size as real;
    case Un(op, a) =>
      if op.CountOp? {
        var ns := EvalNodeSet(env, a, c, EvalAll);
        GoodSetSize(ns);
        r := |ns.items| as real;
      } else {
        r := EvalNumber(env, a, c);
        if op.NegateOp? { r := -r; }
      }
    case Bin(_, _, _) => r := EvalArithmetic(env, e, c);
  }

  method EvalArithmetic(env: Env, e: Expr, c: Context) returns (r: real)
    requires Ready(env, e, c) && e.Bin? && (e.bop.AddOp? || e.bop.SubOp? || e.bop.MulOp?)
    ensures Evaluate(env, e, c) == NumberV(r)
    decreases e, 0, 0
  {
    var x := EvalNumber(env, e.l, c);
    var y := EvalNumber(env, e.r, c);
    r := if e.bop.AddOp? then x + y else if e.bop.SubOp? then x - y else x * y;
  }

  lemma GoodSetSize(ns: NodeSet)
    requires InOrder(ns.items, ns.ty)
    ensures |Elements(ns.items)| == |ns.items|
  {
    OrderedNoRepeat(ns.items, ns.ty);
    ElementsSize(ns.items);
  }

  method EvalBooleanHere(env: Env, e: Expr, c: Context) returns (r: bool)
    requires Ready(env, e, c) && TypeOf(e) == BooleanType
    ensures Evaluate(env, e, c) == BooleanV(r)
    decreases e, 0
  {
    match e
    case Bool(b) => r := b;
    case Var(v) => r := v.b;
    case Un(op, a) =>
      r := EvalBoolean(env, a, c);
      if op.NotOp? { r := !r; }
    case Bin(op, _, _) =>
      match op
      case EqualOp => r := EvalCompareEq(env, e, c, false);
      case NotEqualOp => r := EvalCompareEq(env, e, c, true);
      case LessOp => r := EvalCompareRel(env, e, c, false, false);
      case GreaterOp => r := EvalCompareRel(env, e, c, false, true);
      case LessEqOp => r := EvalCompareRel(env, e, c, true, false);
      case GreaterEqOp => r := EvalCompareRel(env, e, c, true, true);
      case OptCompareAttribute => r := CompareAttribute(env, e, c);
      case OrOp => r := EvalLogical(env, e, c);
      case AndOp => r := EvalLogical(env, e, c);
      case StartsWithOp => r := EvalLogical(env, e, c);
  }

  /** or, and, starts-with. */
  method EvalLogical(env: Env, e: Expr, c: Context) returns (r: bool)
    requires Ready(env, e, c) && e.Bin? && (e.bop.OrOp? || e.bop.AndOp? || e.bop.StartsWithOp?)
    ensures Evaluate(env, e, c) == BooleanV(r)
    decreases e, 0, 0
  {
    match e.bop
    case OrOp =>
      r := EvalBoolean(env, e.l, c);
      if !r { r := EvalBoolean(env, e.r, c); }
    case AndOp =>
      r := EvalBoolean(env, e.l, c);
      if r { r := EvalBoolean(env, e.r, c); }
    case StartsWithOp =>
      var x := EvalString(env, e.l, c);
      var y := EvalString(env, e.r, c);
      r := Prefixes(y, x);
  }

  /** compare_eq. */
  method EvalCompareEq(env: Env, e: Expr, c: Context, negated: bool) returns (r: bool)
    requires Ready(env, e, c) && e.Bin?
    ensures r == CompareEq(env, negated, Evaluate(env, e.l, c), Evaluate(env, e.r, c))
    decreases e, 0, 1
  {
    var lt, rt := TypeOf(e.l), TypeOf(e.r);
    if lt == NodeSetType && rt == NodeSetType {
      var ls := EvalNodeSet(env, e.l, c, EvalAll);
      var rs := EvalNodeSet(env, e.r, c, EvalAll);
      r := AnyPair(env, negated, ls.items, rs.items);
    } else if lt == BooleanType || rt == BooleanType {
      var x := EvalBoolean(env, e.l, c);
      var y := EvalBoolean(env, e.r, c);
      r := Same(negated, x, y);
    } else if lt == NodeSetType {
      r := EvalCompareSet(env, e, c, negated, e.r, e.l);
    } else if rt == NodeSetType {
      r := EvalCompareSet(env, e, c, negated, e.l, e.r);
    } else if lt == NumberType || rt == NumberType {
      var x := EvalNumber(env, e.l, c);
      var y := EvalNumber(env, e.r, c);
      r := Same(negated, x, y);
    } else {
      var x := EvalString(env, e.l, c);
      var y := EvalString(env, e.r, c);
      r := Same(negated, x, y);
    }
  }

  /** The part of compare_eq that has swapped the node set to the right. */
  method EvalCompareSet(env: Env, ghost outer: Expr, c: Context, negated: bool, lhs: Expr, rhs: Expr) returns (r: bool)
    requires Ready(env, lhs, c) && Ready(env, rhs, c)
    requires outer.Bin? && ((lhs == outer.l && rhs == outer.r) || (lhs == outer.r && rhs == outer.l))
    requires TypeOf(rhs) == NodeSetType && (TypeOf(lhs) == NumberType || TypeOf(lhs) == StringType)
    ensures r == CompareToNodes(env, negated, Evaluate(env, lhs, c), Evaluate(env, rhs, c).nodes)
    decreases outer, 0, 0
  {
    if TypeOf(lhs) == NumberType {
      var l := EvalNumber(env, lhs, c);
      var rs := EvalNodeSet(env, rhs, c, EvalAll);
      r := AnyNumber(env, negated, l, rs.items);
    } else {
      var l := EvalString(env, lhs, c);
      var rs := EvalNodeSet(env, rhs, c, EvalAll);
      r := AnyString(env, negated, l, rs.items);
    }
  }

  /** compare_rel, `swapped` for > and >=. */
  method EvalCompareRel(env: Env, e: Expr, c: Context, orEqual: bool, swapped: bool) returns (r: bool)
    requires Ready(env, e, c) && e.Bin?
    ensures r == if swapped then CompareRel(env, orEqual, Evaluate(env, e.r, c), Evaluate(env, e.l, c))
                 else CompareRel(env, orEqual, Evaluate(env, e.l, c), Evaluate(env, e.r, c))
    decreases e, 0, 0
  {
    var ls := EvalNumbers(env, e.l, c);
    var rs := EvalNumbers(env, e.r, c);
    if swapped { r := AnyBelow(orEqual, rs, ls); } else { r := AnyBelow(orEqual, ls, rs); }
  }

  /** The numbers an operand of compare_rel stands for: its own, or one for every node. */
  method EvalNumbers(env: Env, e: Expr, c: Context) returns (r: seq<real>)
    requires Ready(env, e, c)
    ensures forall x :: x in r <==> NumberOf(env, Evaluate(env, e, c), x)
    decreases e, 4
  {
    if TypeOf(e) == NodeSetType {
      var ns := EvalNodeSet(env, e, c, EvalAll);
      r := Numbers(env, ns.items);
      ghost var s := Evaluate(env, e, c).nodes;
      assert s == Elements(ns.items);
      forall x ensures x in r <==> exists y :: y in s && x == env.toNumber(env.StringValue(y)) {
        if y :| y in s && x == env.toNumber(env.StringValue(y)) {
          var k :| 0 <= k < |ns.items| && ns.items[k] == y;
          assert r[k] == x;
        }
        if x in r {
          var k :| 0 <= k < |r| && r[k] == x;
          assert ns.items[k] in s;
        }
      }
    } else {
      var n := EvalNumber(env, e, c);
      r := [n];
    }
  }

  /** ast_opt_compare_attribute: the first attribute of the name decides. */
  method CompareAttribute(env: Env, e: Expr, c: Context) returns (r: bool)
    requires Ready(env, e, c) && e.Bin? && e.bop.OptCompareAttribute?
    ensures Evaluate(env, e, c) == BooleanV(r)
    decreases e, 0, 0
  {
    var value := if e.r.Str? then e.r.s else e.r.v.s;
    r := false;
    if c.n == None || c.n.value.AttrAt? {
      NoAttributes(env, e, c);
      return;
    }
    var i, q := c.n.value.i, e.l.test.qname;
    for k := 0 to |env.attrs[i]|
      invariant forall m :: 0 <= m < k ==> env.attrs[i][m].name != Some(q)
      invariant !r
    {
      var a := env.attrs[i][k];
      if a.name == Some(q) {
        r := a.value == value && IsXPathAttribute(q);
        NamedAttribute(env, e, c, i, k);
        return;
      }
    }
    NoNamedAttribute(env, e, c, i);
  }

  // ---------- node sets ----------

  /** eval_node_set. */
  method EvalNodeSet(env: Env, e: Expr, c: Context, mode: Mode) returns (ns: NodeSet)
    requires Ready(env, e, c) && TypeOf(e) == NodeSetType
    ensures GoodSet(env, ns) && Covers(mode, ns.items, Evaluate(env, e, c).nodes)
    decreases e, 1
  {
    match e
    case Var(v) =>
      ns := v.ns;
      AllCover(mode, ns.items);
    case Un(_, _) => ns := NodeSet(TypeUnsorted, []);
    case Root => ns := NodeSet(TypeSorted, if c.n.Some? then [NodeAt(0)] else []);
      assert Elements(ns.items) == Evaluate(env, e, c).nodes;
      AllCover(mode, ns.items);
    case Bin(_, _, _) => ns := EvalUnion(env, e, c, mode);
    case Step(_, _, _, _) => ns := StepDo(env, e, c, mode);
    case Filter(_, _, _) => ns := EvalFilter(env, e, c, mode);
  }

  lemma AllCover(mode: Mode, items: seq<XNode>)
    ensures Covers(mode, items, Elements(items))
  {
    if items != [] { assert items[0] in Elements(items); }
  }

  method EvalUnion(env: Env, e: Expr, c: Context, mode: Mode) returns (ns: NodeSet)
    requires Ready(env, e, c) && e.Bin? && e.bop.UnionOp?
    ensures GoodSet(env, ns) && Covers(mode, ns.items, Evaluate(env, e, c).nodes)
    decreases e, 0
  {
    var ls := EvalNodeSet(env, e.l, c, mode);
    var rs := EvalNodeSet(env, e.r, c, mode);
    ghost var a, b := Evaluate(env, e.l, c).nodes, Evaluate(env, e.r, c).nodes;
    JoinCovers(mode, rs.items, ls.items, b, a);
    assert a + b == b + a;
    var items := RemoveDuplicates(env, rs.items + ls.items);
    SameElementsCover(mode, rs.items + ls.items, items, a + b);
    ns := NodeSet(TypeUnsorted, items);
    assert forall x <- items :: x in Elements(rs.items + ls.items);
  }

  /** sort_do. */
  method SortDo(env: Env, ns0: NodeSet) returns (ns: NodeSet)
    requires GoodSet(env, ns0)
    ensures GoodSet(env, ns) && ns.ty == TypeSorted && Elements(ns.items) == Elements(ns0.items)
  {
    var items, ty := XPathSort(ns0.items, ns0.ty, false);
    ns := NodeSet(ty, items);
    assert forall x <- items :: x in Elements(ns0.items);
  }

  method EvalFilter(env: Env, e: Expr, c: Context, mode: Mode) returns (ns: NodeSet)
    requires Ready(env, e, c) && e.Filter?
    ensures GoodSet(env, ns) && Covers(mode, ns.items, Evaluate(env, e, c).nodes)
    decreases e, 0, 1
  {
    var set0 := FilterInput(env, e, c);
    var out := ApplyPredicate(env, set0.items, 0, e.pred, e.ptest, EvalOnce(set0.ty, mode));
    assert set0.items[0..] == set0.items && set0.items[..0] == [];
    FilterNodes(env, e, c);
    FilterCovers(env, e, Evaluate(env, e.of, c).nodes, set0.items, set0.ty, mode);
    ns := NodeSet(set0.ty, out);
  }

  /** The set a filter works on: only its first node for [1]; sorted unless positions do not matter. */
  method FilterInput(env: Env, e: Expr, c: Context) returns (ns: NodeSet)
    requires Ready(env, e, c) && e.Filter?
    ensures GoodSet(env, ns) && (e.ptest != PredPosInv ==> ns.ty == TypeSorted)
    ensures Covers(FilterMode(e), ns.items, Evaluate(env, e.of, c).nodes)
    decreases e, 0, 0
  {
    ns := EvalNodeSet(env, e.of, c, if e.ptest == PredConstantOne then EvalFirst else EvalAll);
    if e.ptest != PredPosInv {
      ghost var items := ns.items;
      ns := SortDo(env, ns);
      SameElementsCover(FilterMode(e), items, ns.items, Evaluate(env, e.of, c).nodes);
    }
  }

  ghost function FilterMode(e: Expr): Mode
    requires e.Filter?
  {
    if e.ptest == PredConstantOne then EvalFirst else EvalAll
  }

  lemma FilterNodes(env: Env, e: Expr, c: Context)
    requires Ready(env, e, c) && e.Filter?
    ensures Evaluate(env, e, c).nodes == Kept(env, Evaluate(env, e.of, c).nodes, false, e.pred)
  {
  }

  /** A filter over what eval_node_set delivered, in each of the optimizer's classes. */
  lemma FilterCovers(env: Env, e: Expr, s: set<XNode>, items: seq<XNode>, ty: SetType, mode: Mode)
    requires e.Filter? && ReadyPred(env, e.pred, e.ptest, items) && forall x <- s :: env.Has(x)
    requires InOrder(items, ty) && Covers(FilterMode(e), items, s)
    requires e.ptest != PredPosInv ==> ty == TypeSorted
    ensures var out := First1(EvalOnce(ty, mode), Passing(env, e.pred, items, |items|));
            GoodSet(env, NodeSet(ty, out)) && Covers(mode, out, Kept(env, s, false, e.pred))
  {
    var all := Passing(env, e.pred, items, |items|);
    if e.ptest == PredPosInv {
      PassingIsKeptAnyOrder(env, e.pred, items, ty, false);
    } else {
      PassingIsKept(env, e.pred, items, ty);
      if e.ptest == PredConstantOne {
        FirstHead(items, s);
        KeptFirst(env, s, e.pred);
        if s != {} { KeptFirst(env, Elements(items), e.pred); }
      }
    }
    LimitCovers(mode, ty, all);
    var out := First1(EvalOnce(ty, mode), all);
    assert forall x <- out :: x in Elements(all);
  }

  lemma FirstHead(items: seq<XNode>, s: set<XNode>)
    requires InOrder(items, TypeSorted) && Elements(items) <= s && (s != {} ==> FirstOf(s) in items)
    ensures s != {} ==> Elements(items) != {} && FirstOf(Elements(items)) == FirstOf(s)
    ensures s == {} ==> Elements(items) == {}
  {
    if s != {} {
      var m := FirstOf(s);
      assert m in Elements(items);
      FirstIsUnique(Elements(items), m);
    }
  }

  /** The predicate [1] keeps the first node. */
  lemma KeptFirst(env: Env, s: set<XNode>, pred: Expr)
    requires env.Valid() && pred == Num(1.0) && forall x <- s :: env.Has(x)
    ensures Kept(env, s, false, pred) == if s == {} then {} else {FirstOf(s)}
  {
    if s != {} {
      var m := FirstOf(s);
      forall y ensures y in Kept(env, s, false, pred) <==> y == m {
        if y in s {
          var earlier := NoLater(s, y, false);
          if y == m {
            assert earlier == {m};
          } else {
            assert {m, y} <= earlier;
            TwoElements(earlier, m, y);
          }
        }
      }
    }
  }

  lemma TwoElements(s: set<XNode>, x: XNode, y: XNode)
    requires x in s && y in s && x != y
    ensures |s| >= 2
  {
    assert |s - {x}| > 0 by { assert y in s - {x}; }
  }

  /** apply_predicates on ns.items[first..], a stretch in axis order; only the last one may stop early. */
  method ApplyPredicates(env: Env, ns: NodeSet, first: nat, preds: Preds, mode: Mode, ghost aty: SetType)
      returns (out: NodeSet, ghost full: seq<XNode>)
    requires env.Valid() && env.reading.Library? && TypedPreds(env, preds) && ClassifiedPreds(preds) && preds.Preds?
    requires first <= |ns.items| && AllHere(env, ns.items) && InOrder(ns.items[first..], aty) && !aty.TypeUnsorted?
    ensures out.ty == ns.ty && InOrder(full, aty) && AllHere(env, full)
    ensures Elements(full) == KeptAll(env, Elements(ns.items[first..]), aty.TypeSortedReverse?, preds)
    ensures out.items == ns.items[..first] + First1(EvalOnce(ns.ty, mode), full)
    decreases preds, 10
  {
    full := ns.items[first..];
    if |ns.items| == first {
      assert ns.items[..first] == ns.items && full == [] && Elements(full) == {};
      return ns, full;
    }
    var items;
    items, full := FilterStretch(env, ns.items, first, preds, EvalOnce(ns.ty, mode), aty);
    out := NodeSet(ns.ty, items);
  }

  /** The loop over the predicates. */
  method FilterStretch(env: Env, items0: seq<XNode>, first: nat, preds: Preds, lastOnce: bool, ghost aty: SetType)
      returns (items: seq<XNode>, ghost full: seq<XNode>)
    requires env.reading.Library? && ClassifiedPreds(preds) && preds.Preds? && first <= |items0|
    requires env.Valid() && TypedPreds(env, preds) && AllHere(env, items0) && InOrder(items0[first..], aty) && !aty.TypeUnsorted?
    ensures Filtering(env, full, aty, NoPreds, KeptAll(env, Elements(items0[first..]), aty.TypeSortedReverse?, preds))
    ensures items == items0[..first] + First1(lastOnce, full)
    decreases preds, 9
  {
    var p := preds;
    items, full := items0, items0[first..];
    ghost var goal := KeptAll(env, Elements(full), aty.TypeSortedReverse?, preds);
    assert items == items0[..first] + full;
    while p.Preds?
      invariant p == preds || p < preds
      invariant ClassifiedPreds(p) && Filtering(env, full, aty, p, goal)
      invariant items == items0[..first] + First1(p.NoPreds? && lastOnce, full)
      decreases p
    {
      assert items[first..] == full && items[..first] == items0[..first];
      items := ApplyPredicate(env, items, first, p.expr, p.ptest, p.next.NoPreds? && lastOnce);
      FilteringNext(env, full, aty, p, goal);
      full := Passing(env, p.expr, full, |full|);
      p := p.next;
    }
  }

  /** `items` is in axis order, and the remaining predicates turn it into `goal`. */
  ghost predicate Filtering(env: Env, items: seq<XNode>, aty: SetType, p: Preds, goal: set<XNode>) {
    env.Valid() && TypedPreds(env, p) && !aty.TypeUnsorted? && InOrder(items, aty) && AllHere(env, items)
    && goal == KeptAll(env, Elements(items), aty.TypeSortedReverse?, p)
  }

  lemma FilteringNext(env: Env, items: seq<XNode>, aty: SetType, p: Preds, goal: set<XNode>)
    requires Filtering(env, items, aty, p, goal) && p.Preds?
    ensures Filtering(env, Passing(env, p.expr, items, |items|), aty, p.next, goal)
  {
    PassingIsKept(env, p.expr, items, aty);
    var q := Passing(env, p.expr, items, |items|);
    assert forall x <- q :: x in Elements(q);
  }

  // ---------- steps ----------

  predicate IsSelf(axis: XAxis) { axis == TreeAxis(Self) }

  predicate ByName(e: Expr)
    requires e.Step?
  {
    e.axis.AttributeAxis? && e.test.NameTest?
  }

  /** step_do's `once`: when step_fill may stop at its first node. */
  predicate StepOnce(e: Expr, mode: Mode)
    requires e.Step?
  {
    || ByName(e)
    || (e.preds.NoPreds? && EvalOnce(AxisType(e.axis), mode))
    || (e.preds.Preds? && e.preds.next.NoPreds? && e.preds.ptest == PredConstantOne)
  }

  ghost predicate ReadyStep(env: Env, e: Expr) {
    env.Valid() && env.reading.Library? && e.Step? && TypedPreds(env, e.preds) && ClassifiedPreds(e.preds)
  }

  /** The type the set under construction may have while the next node is processed. */
  ghost predicate StepType(e: Expr, ty: SetType)
    requires e.Step?
  {
    IsSelf(e.axis) || ty == AxisType(e.axis) || ty == TypeUnsorted
  }

  lemma OrderWeaker(s: seq<XNode>, ty: SetType)
    requires InOrder(s, ty)
    ensures InOrder(s, TypeUnsorted)
  {
  }

  lemma First1Order(once: bool, s: seq<XNode>, ty: SetType)
    requires InOrder(s, ty)
    ensures InOrder(First1(once, s), ty) && Elements(First1(once, s)) <= Elements(s)
  {
  }

  lemma {:induction false} KeptOne(env: Env, items: seq<XNode>, ty: SetType)
    requires env.Valid() && AllHere(env, items) && InOrder(items, ty) && !ty.TypeUnsorted?
    ensures Kept(env, Elements(items), ty.TypeSortedReverse?, Num(1.0)) == Elements(First1(true, items))
  {
    PassingConstant(env, Num(1.0), items, |items|, 1.0, Context(None, 1, |items|));
    PassingIsKept(env, Num(1.0), items, ty);
  }

  /** Stopping step_fill early does not change what the predicates keep. */
  lemma FillSuffices(env: Env, e: Expr, x: XNode, mode: Mode)
    requires ReadyStep(env, e) && env.Has(x) && e.preds.Preds?
    ensures var l := First1(StepOnce(e, mode), AxisSeq(env, x, e.axis, e.test));
            && InOrder(l, AxisType(e.axis)) && AllHere(env, l)
            && KeptAll(env, Elements(l), ReverseAxis(e.axis), e.preds) == StepFrom(env, x, e.axis, e.test, e.preds)
            && (IsSelf(e.axis) ==> |l| <= 1)
  {
    AxisMeaning(env, x, e.axis, e.test);
    var all := AxisNodes(env, x, e.axis, e.test);
    assert forall y <- all :: y in Elements(all);
    if StepOnce(e, mode) && !ByName(e) {
      First1Order(true, all, AxisType(e.axis));
      KeptOne(env, all, AxisType(e.axis));
      KeptOne(env, First1(true, all), AxisType(e.axis));
      assert e.preds.expr == Num(1.0);
    }
    if IsSelf(e.axis) { SelfIsSingle(env, x, e.test); }
  }

  lemma SelfIsSingle(env: Env, x: XNode, test: NodeTest)
    requires env.Valid() && env.Has(x)
    ensures |AxisSeq(env, x, TreeAxis(Self), test)| <= 1
    ensures forall y <- AxisSeq(env, x, TreeAxis(Self), test) :: y == x
  {
    AxisMeaning(env, x, TreeAxis(Self), test);
    var r := AxisNodes(env, x, TreeAxis(Self), test);
    forall y | y in r ensures y == x {
      assert y in Elements(r);
      assert Selects(env, x, TreeAxis(Self), test, y);
    }
    OrderedNoRepeat(r, TypeSorted);
    AllSame(r, x);
  }

  lemma AllSame(s: seq<XNode>, x: XNode)
    requires NoRepeat(s) && forall y <- s :: y == x
    ensures |s| <= 1
  {
    if s != [] {
      assert s[0] in s && s[|s| - 1] in s;
    }
  }

  lemma StepChunkCovers(env: Env, e: Expr, x: XNode, mode: Mode, ty: SetType, full: seq<XNode>)
    requires ReadyStep(env, e) && env.Has(x) && e.preds.Preds? && StepType(e, ty)
    requires InOrder(full, AxisType(e.axis)) && Elements(full) == StepFrom(env, x, e.axis, e.test, e.preds)
    requires IsSelf(e.axis) ==> |full| <= 1
    ensures Covers(mode, First1(EvalOnce(ty, mode), full), StepFrom(env, x, e.axis, e.test, e.preds))
  {
    OrderWeaker(full, AxisType(e.axis));
    if IsSelf(e.axis) { AllCover(mode, full); } else { LimitCovers(mode, ty, full); }
  }

  /** One round of step_do: the axis from `x`, then the predicates on what it added. */
  method StepOne(env: Env, e: Expr, ns: NodeSet, x: XNode, mode: Mode) returns (out: NodeSet, ghost chunk: seq<XNode>)
    requires ReadyStep(env, e) && env.Has(x) && AllHere(env, ns.items) && StepType(e, ns.ty)
    ensures out.ty == ns.ty && out.items == ns.items + chunk
    ensures InOrder(chunk, AxisType(e.axis)) && AllHere(env, chunk)
    ensures Covers(mode, chunk, StepFrom(env, x, e.axis, e.test, e.preds))
    decreases e, 0, 0, 0
  {
    var filled := First1(StepOnce(e, mode), AxisSeq(env, x, e.axis, e.test));
    out := NodeSet(ns.ty, ns.items + filled);
    if e.preds.Preds? {
      FillSuffices(env, e, x, mode);
      assert out.items[|ns.items|..] == filled && out.items[..|ns.items|] == ns.items;
      ghost var full;
      out, full := ApplyPredicates(env, out, |ns.items|, e.preds, mode, AxisType(e.axis));
      OrderedNoRepeat(full, AxisType(e.axis));
      SelfStays(filled, full);
      chunk := First1(EvalOnce(ns.ty, mode), full);
      StepChunkCovers(env, e, x, mode, ns.ty, full);
    } else {
      chunk := filled;
      PlainStep(env, e, x, mode);
    }
  }

  lemma SelfStays(filled: seq<XNode>, full: seq<XNode>)
    requires NoRepeat(full) && Elements(full) <= Elements(filled)
    ensures |filled| <= 1 ==> |full| <= 1
  {
    if |full| >= 2 {
      assert full[0] in Elements(full) && full[1] in Elements(full);
      assert full[0] in filled && full[1] in filled;
    }
  }

  lemma PlainStep(env: Env, e: Expr, x: XNode, mode: Mode)
    requires ReadyStep(env, e) && env.Has(x) && e.preds.NoPreds?
    ensures var filled := First1(StepOnce(e, mode), AxisSeq(env, x, e.axis, e.test));
            && InOrder(filled, AxisType(e.axis)) && AllHere(env, filled)
            && Covers(mode, filled, StepFrom(env, x, e.axis, e.test, e.preds))
  {
    AxisMeaning(env, x, e.axis, e.test);
    var all := AxisNodes(env, x, e.axis, e.test);
    var filled := First1(StepOnce(e, mode), AxisSeq(env, x, e.axis, e.test));
    if ByName(e) {
      AllCover(mode, filled);
    } else {
      LimitCovers(mode, AxisType(e.axis), all);
      First1Order(StepOnce(e, mode), all, AxisType(e.axis));
    }
    assert forall y <- filled :: y in Elements(all);
  }

  /** What the step selects from the first `m` context nodes. */
  ghost function SelectedBy(env: Env, e: Expr, src: seq<XNode>, m: nat): (s: set<XNode>)
    requires ReadyStep(env, e) && m <= |src| && AllHere(env, src)
    ensures forall y <- s :: env.Has(y)
  {
    if m == 0 then {}
    else SelectedBy(env, e, src, m - 1) + StepFrom(env, src[m - 1], e.axis, e.test, e.preds)
  }

  /** The step finds `y` from context node `k`. */
  ghost predicate FoundAt(env: Env, e: Expr, src: seq<XNode>, k: int, y: XNode)
    requires ReadyStep(env, e) && AllHere(env, src)
  {
    0 <= k < |src| && y in StepFrom(env, src[k], e.axis, e.test, e.preds)
  }

  ghost predicate FoundBelow(env: Env, e: Expr, src: seq<XNode>, m: int, y: XNode)
    requires ReadyStep(env, e) && AllHere(env, src)
  {
    exists k {:trigger FoundAt(env, e, src, k, y)} :: k < m && FoundAt(env, e, src, k, y)
  }

  lemma {:induction false} SelectedByOne(env: Env, e: Expr, src: seq<XNode>, m: nat, y: XNode)
    requires ReadyStep(env, e) && m <= |src| && AllHere(env, src)
    ensures y in SelectedBy(env, e, src, m) <==> FoundBelow(env, e, src, m, y)
  {
    if m > 0 {
      SelectedByOne(env, e, src, m - 1, y);
      SelectedByNext(env, e, src, m, y);
      FoundBelowNext(env, e, src, m, y);
    }
  }

  lemma FoundBelowNext(env: Env, e: Expr, src: seq<XNode>, m: nat, y: XNode)
    requires ReadyStep(env, e) && 0 < m <= |src| && AllHere(env, src)
    ensures FoundBelow(env, e, src, m, y) <==> FoundBelow(env, e, src, m - 1, y) || FoundAt(env, e, src, m - 1, y)
  {
    if FoundBelow(env, e, src, m, y) {
      var k :| k < m && FoundAt(env, e, src, k, y);
      assert k < m - 1 || k == m - 1;
    }
  }

  lemma SelectedByNext(env: Env, e: Expr, src: seq<XNode>, m: nat, y: XNode)
    requires ReadyStep(env, e) && 0 < m <= |src| && AllHere(env, src)
    ensures y in SelectedBy(env, e, src, m) <==> y in SelectedBy(env, e, src, m - 1) || FoundAt(env, e, src, m - 1, y)
  {
  }

  lemma StepNodes(env: Env, e: Expr, c: Context, src: seq<XNode>)
    requires Ready(env, e, c) && e.Step? && AllHere(env, src)
    requires Elements(src) == if e.left.From? then Evaluate(env, e.left.e, c).nodes else if c.n.Some? then {c.n.value} else {}
    ensures Evaluate(env, e, c).nodes == SelectedBy(env, e, src, |src|)
  {
    var r, all := Evaluate(env, e, c).nodes, SelectedBy(env, e, src, |src|);
    forall y ensures y in r <==> y in all {
      SelectedByOne(env, e, src, |src|, y);
      if y in r {
        var x :| x in Elements(src) && y in StepFrom(env, x, e.axis, e.test, e.preds);
        var k :| 0 <= k < |src| && src[k] == x;
        assert FoundAt(env, e, src, k, y);
      }
      if y in all {
        var k :| k < |src| && FoundAt(env, e, src, k, y);
        assert src[k] in Elements(src);
      }
    }
    assert r == all;
  }

  /** The node that owns what a child, attribute or self step found. */
  ghost function Owner(env: Env, axis: XAxis, y: XNode): XNode
    requires env.Valid() && env.Has(y)
  {
    if axis.AttributeAxis? then NodeAt(y.i)
    else if axis == TreeAxis(Child) then NodeAt(env.doc.shape.par[y.i])
    else y
  }

  /** Axes that find every node from one place only, so that no duplicates can arise. */
  predicate FromOnePlace(axis: XAxis) {
    axis.AttributeAxis? || axis == TreeAxis(Child) || axis == TreeAxis(Self)
  }

  lemma StepOwner(env: Env, e: Expr, x: XNode, y: XNode)
    requires ReadyStep(env, e) && env.Has(x) && FromOnePlace(e.axis)
    requires y in StepFrom(env, x, e.axis, e.test, e.preds)
    ensures env.Has(y) && Owner(env, e.axis, y) == x
  {
    assert y in AxisSet(env, x, e.axis, e.test);
    assert Selects(env, x, e.axis, e.test, y);
  }

  /** step_do after `m` context nodes. */
  ghost predicate StepState(env: Env, e: Expr, src: seq<XNode>, styp: SetType, m: nat, ns: NodeSet, mode: Mode) {
    && ReadyStep(env, e) && AllHere(env, src) && m <= |src| && InOrder(src, styp)
    && AllHere(env, ns.items) && Covers(mode, ns.items, SelectedBy(env, e, src, m))
    && (if IsSelf(e.axis) then ns.ty == styp && InOrder(ns.items, styp)
        else if ns.ty == TypeUnsorted then FromOnePlace(e.axis) ==> NoRepeat(ns.items)
        else ns.ty == AxisType(e.axis) && InOrder(ns.items, ns.ty))
    && (FromOnePlace(e.axis) ==> forall y <- ns.items :: Owner(env, e.axis, y) in src[..m])
  }

  lemma StepStateNext(env: Env, e: Expr, src: seq<XNode>, styp: SetType, m: nat, ns: NodeSet, mode: Mode,
                      ty: SetType, chunk: seq<XNode>)
    requires StepState(env, e, src, styp, m, ns, mode) && m < |src|
    requires ty == if !IsSelf(e.axis) && ns.items != [] then TypeUnsorted else ns.ty
    requires InOrder(chunk, AxisType(e.axis)) && AllHere(env, chunk)
    requires Covers(mode, chunk, StepFrom(env, src[m], e.axis, e.test, e.preds))
    ensures StepState(env, e, src, styp, m + 1, NodeSet(ty, ns.items + chunk), mode)
  {
    JoinCovers(mode, ns.items, chunk, SelectedBy(env, e, src, m), StepFrom(env, src[m], e.axis, e.test, e.preds));
    OrderedNoRepeat(chunk, AxisType(e.axis));
    if FromOnePlace(e.axis) {
      OwnersApart(env, e, src, styp, m, ns.items, chunk);
      if IsSelf(e.axis) { SelfAppends(env, e, src, styp, m, ns.items, chunk); }
    }
    if ns.items == [] { assert ns.items + chunk == chunk; OrderWeaker(chunk, AxisType(e.axis)); }
  }

  lemma OwnersApart(env: Env, e: Expr, src: seq<XNode>, styp: SetType, m: nat, items: seq<XNode>, chunk: seq<XNode>)
    requires ReadyStep(env, e) && AllHere(env, src) && m < |src| && InOrder(src, styp) && FromOnePlace(e.axis)
    requires AllHere(env, items) && AllHere(env, chunk) && NoRepeat(chunk)
    requires forall y <- items :: Owner(env, e.axis, y) in src[..m]
    requires Elements(chunk) <= StepFrom(env, src[m], e.axis, e.test, e.preds)
    ensures NoRepeat(items) ==> NoRepeat(items + chunk)
    ensures forall y <- chunk :: Owner(env, e.axis, y) == src[m]
    ensures forall y <- items + chunk :: Owner(env, e.axis, y) in src[..m + 1]
  {
    OrderedNoRepeat(src, styp);
    forall y | y in chunk ensures Owner(env, e.axis, y) == src[m] {
      assert y in Elements(chunk);
      StepOwner(env, e, src[m], y);
    }
    assert src[..m + 1] == src[..m] + [src[m]];
    assert src[m] !in src[..m];
    forall i, j | 0 <= i < |items| && 0 <= j < |chunk| ensures items[i] != chunk[j] {
      assert items[i] in items && chunk[j] in chunk;
    }
  }

  lemma SelfAppends(env: Env, e: Expr, src: seq<XNode>, styp: SetType, m: nat, items: seq<XNode>, chunk: seq<XNode>)
    requires ReadyStep(env, e) && AllHere(env, src) && m < |src| && InOrder(src, styp) && IsSelf(e.axis)
    requires AllHere(env, items) && AllHere(env, chunk) && InOrder(items, styp) && NoRepeat(chunk)
    requires forall y <- items :: Owner(env, e.axis, y) in src[..m]
    requires forall y <- chunk :: Owner(env, e.axis, y) == src[m]
    ensures InOrder(items + chunk, styp)
  {
    assert forall j :: 0 <= j < |chunk| ==> chunk[j] in chunk;
    AllSame(chunk, src[m]);
    forall i | 0 <= i < |items| ensures exists k :: 0 <= k < m && items[i] == src[k] {
      assert items[i] in items;
    }
  }

  lemma StepStateStarts(env: Env, e: Expr, src: seq<XNode>, styp: SetType, mode: Mode)
    requires ReadyStep(env, e) && AllHere(env, src) && InOrder(src, styp)
    ensures StepState(env, e, src, styp, 0, NodeSet(if IsSelf(e.axis) then styp else AxisType(e.axis), []), mode)
  {
    var none: seq<XNode> := [];
    assert Elements(none) == {};
  }

  /** step_do. */
  method StepDo(env: Env, e: Expr, c: Context, mode: Mode) returns (ns: NodeSet)
    requires Ready(env, e, c) && e.Step?
    ensures GoodSet(env, ns) && Covers(mode, ns.items, Evaluate(env, e, c).nodes)
    decreases e, 0, 2
  {
    ghost var src, styp;
    ns, src, styp := StepFromAll(env, e, c, mode);
    StepNodes(env, e, c, src);
    if !FromOnePlace(e.axis) && ns.ty == TypeUnsorted {
      var items := RemoveDuplicates(env, ns.items);
      SameElementsCover(mode, ns.items, items, Evaluate(env, e, c).nodes);
      assert forall y <- items :: y in Elements(ns.items);
      ns := NodeSet(TypeUnsorted, items);
    }
  }

  /** step_do without the final removal of duplicates. */
  method StepFromAll(env: Env, e: Expr, c: Context, mode: Mode) returns (ns: NodeSet, ghost src: seq<XNode>, ghost styp: SetType)
    requires Ready(env, e, c) && e.Step?
    ensures Elements(src) == if e.left.From? then Evaluate(env, e.left.e, c).nodes else if c.n.Some? then {c.n.value} else {}
    ensures StepState(env, e, src, styp, |src|, ns, mode)
    decreases e, 0, 1
  {
    if e.left.From? {
      var s := EvalNodeSet(env, e.left.e, c, EvalAll);
      src, styp := s.items, s.ty;
      ns := StepFromSet(env, e, s, mode);
    } else {
      src, styp := if c.n.Some? then [c.n.value] else [], AxisType(e.axis);
      ns := NodeSet(AxisType(e.axis), []);
      StepStateStarts(env, e, src, styp, mode);
      if c.n.Some? {
        ns := StepNext(env, e, [c.n.value], AxisType(e.axis), 0, ns, mode);
      }
    }
  }

  /** The loop over the nodes the left operand delivers; the self axis keeps their order. */
  method StepFromSet(env: Env, e: Expr, s: NodeSet, mode: Mode) returns (ns: NodeSet)
    requires ReadyStep(env, e) && GoodSet(env, s)
    ensures StepState(env, e, s.items, s.ty, |s.items|, ns, mode)
    decreases e, 0, 0, 2
  {
    ns := NodeSet(if IsSelf(e.axis) then s.ty else AxisType(e.axis), []);
    StepStateStarts(env, e, s.items, s.ty, mode);
    for it := 0 to |s.items|
      invariant StepState(env, e, s.items, s.ty, it, ns, mode)
    {
      ns := StepNext(env, e, s.items, s.ty, it, ns, mode);
    }
  }

  /** A round of the loop; once something has been found the order across rounds is not known. */
  method StepNext(env: Env, e: Expr, src: seq<XNode>, ghost styp: SetType, m: nat, ns: NodeSet, mode: Mode) returns (out: NodeSet)
    requires StepState(env, e, src, styp, m, ns, mode) && m < |src|
    ensures StepState(env, e, src, styp, m + 1, out, mode)
    decreases e, 0, 0, 1
  {
    var ty := if !IsSelf(e.axis) && ns.items != [] then TypeUnsorted else ns.ty;
    ghost var chunk;
    out, chunk := StepOne(env, e, NodeSet(ty, ns.items), src[m], mode);
    StepStateNext(env, e, src, styp, m, ns, mode, ty, chunk);
  }

  // ---------- predicates ----------

  lemma {:induction false} PassingPrefix(env: Env, pred: Expr, items: seq<XNode>, m: nat, n: nat)
    requires env.Valid() && Typed(env, pred) && m <= n <= |items| && AllHere(env, items)
    ensures Passing(env, pred, items, m) <= Passing(env, pred, items, n)
    decreases n - m
  {
    if m < n { PassingPrefix(env, pred, items, m, n - 1); }
  }

  ghost predicate ReadyPred(env: Env, pred: Expr, ptest: PredTest, items: seq<XNode>) {
    env.Valid() && env.reading.Library? && Typed(env, pred) && Classified(pred) && SoundTest(pred, ptest) && AllHere(env, items)
  }

  /** The predicate at one node, for a boolean-like and for a numeric predicate. */
  method HoldsBoolean(env: Env, pred: Expr, y: XNode, position: int, size: int) returns (b: bool)
    requires Ready(env, pred, Context(Some(y), position, size)) && TypeOf(pred) != NumberType
    ensures b == Holds(env, pred, y, position, size)
    decreases pred, 5
  {
    b := EvalBoolean(env, pred, Context(Some(y), position, size));
  }

  method HoldsNumber(env: Env, pred: Expr, y: XNode, position: int, size: int) returns (b: bool)
    requires Ready(env, pred, Context(Some(y), position, size)) && TypeOf(pred) == NumberType
    ensures b == Holds(env, pred, y, position, size)
    decreases pred, 5
  {
    var n := EvalNumber(env, pred, Context(Some(y), position, size));
    b := n == position as real;
  }

  /** The compaction loop after `k` nodes of the stretch. */
  ghost predicate Compacting(env: Env, pred: Expr, items: seq<XNode>, first: nat, k: nat, once: bool, out: seq<XNode>) {
    && env.Valid() && Typed(env, pred) && AllHere(env, items) && first + k <= |items|
    && out == items[..first] + Passing(env, pred, items[first..], k)
    && (once ==> Passing(env, pred, items[first..], k) == [])
  }

  lemma CompactingNext(env: Env, pred: Expr, items: seq<XNode>, first: nat, k: nat, once: bool, out: seq<XNode>)
    requires Compacting(env, pred, items, first, k, once, out) && first + k < |items|
    ensures var x, size := items[first + k], |items| - first;
            if !Holds(env, pred, x, k + 1, size) then Compacting(env, pred, items, first, k + 1, once, out)
            else if once then out + [x] == items[..first] + First1(true, Passing(env, pred, items[first..], size))
            else Compacting(env, pred, items, first, k + 1, once, out + [x])
  {
    var chunk := items[first..];
    var x := chunk[k];
    assert x == items[first + k];
    PassingPrefix(env, pred, chunk, k + 1, |chunk|);
    if Holds(env, pred, x, k + 1, |chunk|) && once {
      var all := Passing(env, pred, chunk, |chunk|);
      assert Passing(env, pred, chunk, k + 1) == [x] && [x] <= all;
      assert First1(true, all) == [x];
    }
  }

  /** apply_predicate_boolean on items[first..]. */
  method ApplyPredicateBoolean(env: Env, items: seq<XNode>, first: nat, pred: Expr, once: bool) returns (out: seq<XNode>)
    requires first <= |items| && ReadyPred(env, pred, PredDefault, items) && TypeOf(pred) != NumberType
    ensures out == items[..first] + First1(once, Passing(env, pred, items[first..], |items| - first))
    decreases pred, 8
  {
    out := items[..first];
    for k := 0 to |items| - first
      invariant Compacting(env, pred, items, first, k, once, out)
    {
      var keep := HoldsBoolean(env, pred, items[first + k], k + 1, |items| - first);
      CompactingNext(env, pred, items, first, k, once, out);
      if keep {
        out := out + [items[first + k]];
        if once { return; }
      }
    }
  }

  /** apply_predicate_number: the value of the predicate is the place to keep. */
  method ApplyPredicateNumber(env: Env, items: seq<XNode>, first: nat, pred: Expr, once: bool) returns (out: seq<XNode>)
    requires first <= |items| && ReadyPred(env, pred, PredDefault, items) && TypeOf(pred) == NumberType
    ensures out == items[..first] + First1(once, Passing(env, pred, items[first..], |items| - first))
    decreases pred, 8
  {
    out := items[..first];
    for k := 0 to |items| - first
      invariant Compacting(env, pred, items, first, k, once, out)
    {
      var keep := HoldsNumber(env, pred, items[first + k], k + 1, |items| - first);
      CompactingNext(env, pred, items, first, k, once, out);
      if keep {
        out := out + [items[first + k]];
        if once { return; }
      }
    }
  }

  /** `er` is the number of one of the first `n` places. */
  predicate Names(er: real, n: int) {
    1.0 <= er <= n as real && er == er.Floor as real
  }

  lemma NamesNext(er: real, n: int)
    requires n > 0
    ensures Names(er, n) <==> Names(er, n - 1) || er == n as real
    ensures er == n as real ==> er.Floor == n && !Names(er, n - 1)
    ensures Names(er, n) ==> 1 <= er.Floor <= n
  {
    var k := er.Floor;
    if er == k as real {
      PlaceAsReal(k, n);
      PlaceAsReal(k, n - 1);
      PlaceAsReal(1, k);
    }
    assert (n as real).Floor == n;
  }

  lemma PlaceAsReal(k: int, n: int)
    ensures k as real <= n as real <==> k <= n
    ensures k as real == n as real <==> k == n
  {
  }

  /** The one of the first `n` items whose place `er` names. */
  function Named(items: seq<XNode>, n: nat, er: real): (r: seq<XNode>)
    requires n <= |items|
    ensures |r| <= 1
  {
    if 1.0 <= er <= n as real && er == er.Floor as real && er.Floor <= n then [items[er.Floor - 1]] else []
  }

  lemma NamedNext(items: seq<XNode>, n: nat, er: real)
    requires 0 < n <= |items|
    ensures Named(items, n, er) == Named(items, n - 1, er) + (if er == n as real then [items[n - 1]] else [])
  {
    NamesNext(er, n);
    NamesNext(er, if n > 1 then n - 1 else n);
  }

  lemma {:induction false} PassingConstant(env: Env, pred: Expr, items: seq<XNode>, n: nat, er: real, c: Context)
    requires env.Valid() && Typed(env, pred) && n <= |items| && AllHere(env, items) && IsConstant(pred)
    requires c == Context(None, 1, |items|) && Evaluate(env, pred, c).n == er
    ensures Passing(env, pred, items, n) == Named(items, n, er)
  {
    if n > 0 {
      PassingConstant(env, pred, items, n - 1, er, c);
      NamedNext(items, n, er);
      ConstantHolds(env, pred, items[n - 1], n, |items|, c);
    }
  }

  lemma NamedIs(items: seq<XNode>, first: nat, er: real)
    requires first <= |items|
    ensures var size := |items| - first;
      if er >= 1.0 && er <= size as real && er == er.Floor as real
      then 0 <= er.Floor - 1 < size && Named(items[first..], size, er) == [items[first + er.Floor - 1]]
      else Named(items[first..], size, er) == []
  {
    if |items| > first { NamesNext(er, |items| - first); }
  }

  /** The part of apply_predicate_number_const that looks at the number. */
  method KeepPlace(items: seq<XNode>, first: nat, er: real) returns (out: seq<XNode>)
    requires first <= |items|
    ensures out == items[..first] + Named(items[first..], |items| - first, er)
  {
    var size := |items| - first;
    NamedIs(items, first, er);
    out := items[..first];
    if er >= 1.0 && er <= size as real {
      var eri := er.Floor;
      if er == eri as real {
        out := out + [items[first + eri - 1]];
      }
    }
  }

  /** apply_predicate_number_const: no loop, at most one node is looked at. */
  method ApplyPredicateConst(env: Env, items: seq<XNode>, first: nat, pred: Expr) returns (out: seq<XNode>)
    requires first <= |items| && ReadyPred(env, pred, PredConstant, items)
    ensures out == items[..first] + Passing(env, pred, items[first..], |items| - first)
    ensures |out| <= first + 1
    decreases pred, 8
  {
    var size := |items| - first;
    var er := EvalNumber(env, pred, Context(None, 1, size));
    PassingConstant(env, pred, items[first..], size, er, Context(None, 1, size));
    out := KeepPlace(items, first, er);
  }

  /** apply_predicate. */
  method ApplyPredicate(env: Env, items: seq<XNode>, first: nat, pred: Expr, ptest: PredTest, once: bool)
      returns (out: seq<XNode>)
    requires first <= |items| && ReadyPred(env, pred, ptest, items)
    ensures out == items[..first] + First1(once, Passing(env, pred, items[first..], |items| - first))
    decreases pred, 9
  {
    if |items| == first { return items; }
    if ptest == PredConstant || ptest == PredConstantOne {
      out := ApplyPredicateConst(env, items, first, pred);
    } else if TypeOf(pred) == NumberType {
      out := ApplyPredicateNumber(env, items, first, pred, once);
    } else {
      out := ApplyPredicateBoolean(env, items, first, pred, once);
    }
  }

  // ---------- the attribute shortcut ----------

  lemma AttributeStepNodes(env: Env, e: Expr, c: Context)
    requires Ready(env, e, c) && IsAttributeStep(e)
    ensures Evaluate(env, e, c) == NodesV(if c.n.Some? then AxisSet(env, c.n.value, AttributeAxis, e.test) else {})
  {
    if c.n.Some? {
      var from := {c.n.value};
      var s := AxisSet(env, c.n.value, AttributeAxis, e.test);
      assert StepFrom(env, c.n.value, e.axis, e.test, e.preds) == s;
      assert (set x, y | x in from && y in StepFrom(env, x, e.axis, e.test, e.preds) :: y) == s;
    }
  }

  lemma NoAttributes(env: Env, e: Expr, c: Context)
    requires Ready(env, e, c) && e.Bin? && e.bop.OptCompareAttribute?
    requires c.n == None || c.n.value.AttrAt?
    ensures Evaluate(env, e, c) == BooleanV(false)
  {
    AttributeStepNodes(env, e.l, c);
  }

  lemma NoNamedAttribute(env: Env, e: Expr, c: Context, i: int)
    requires Ready(env, e, c) && e.Bin? && e.bop.OptCompareAttribute?
    requires c.n == Some(NodeAt(i))
    requires forall m :: 0 <= m < |env.attrs[i]| ==> env.attrs[i][m].name != Some(e.l.test.qname)
    ensures Evaluate(env, e, c) == BooleanV(false)
  {
    AttributeStepNodes(env, e.l, c);
    assert e.l.test.qname != "";
  }

  lemma NamedAttribute(env: Env, e: Expr, c: Context, i: int, k: int)
    requires Ready(env, e, c) && e.Bin? && e.bop.OptCompareAttribute?
    requires c.n == Some(NodeAt(i)) && 0 <= k < |env.attrs[i]|
    requires env.attrs[i][k].name == Some(e.l.test.qname)
    requires forall m :: 0 <= m < k ==> env.attrs[i][m].name != Some(e.l.test.qname)
    ensures Evaluate(env, e, c) ==
      BooleanV(env.attrs[i][k].value == (if e.r.Str? then e.r.s else e.r.v.s) && IsXPathAttribute(e.l.test.qname))
  {
    var q, x := e.l.test.qname, AttrAt(i, k);
    AttributeStepNodes(env, e.l, c);
    assert q != "";
    var s := AxisSet(env, NodeAt(i), AttributeAxis, e.l.test);
    forall y ensures y in s <==> y == x && IsXPathAttribute(q) {
      if y in s { assert AttrName(env.attrs[y.i][y.k]) == q; }
    }
    var v := if e.r.Str? then e.r.s else e.r.v.s;
    assert Evaluate(env, e.r, c) == StringV(v);
    assert CompareToNodes(env, false, StringV(v), s) <==> IsXPathAttribute(q) && v == env.attrs[i][k].value by {
      if IsXPathAttribute(q) { assert x in s && env.StringValue(x) == env.attrs[i][k].value; }
    }
  }
}
