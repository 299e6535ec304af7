/** Relational operators between a node set and a boolean: where the library's reading and that of
    section 3.4 of XPath 1.0 part, and that they agree everywhere else. */
module XPathReading {
  import opened Wrappers
  import opened Axes
  import opened Order
  import opened XPathSpec

  predicate Relational(op: BinOp) {
    op.LessOp? || op.GreaterOp? || op.LessEqOp? || op.GreaterEqOp?
  }

  predicate Mixed(l: RetType, r: RetType) {
    (l.NodeSetType? && r.BooleanType?) || (l.BooleanType? && r.NodeSetType?)
  }

  /** No relational operator of the query stands between a node set and a boolean. */
  predicate Standard(e: Expr) {
    match e
    case Un(_, a) => Standard(a)
    case Bin(op, l, r) => Standard(l) && Standard(r) && !(Relational(op) && Mixed(TypeOf(l), TypeOf(r)))
    case Step(left, _, _, preds) => (left.From? ==> Standard(left.e)) && StandardPreds(preds)
    case Filter(of, pred, _) => Standard(of) && Standard(pred)
    case _ => true
  }

  predicate StandardPreds(ps: Preds) {
    ps.Preds? ==> Standard(ps.expr) && StandardPreds(ps.next)
  }

  // ---------- what does not depend on the reading ----------

  lemma {:induction false} TypedBy(env: Env, r: Reading, e: Expr)
    ensures Typed(env.By(r), e) <==> Typed(env, e)
    decreases e
  {
    match e
    case Un(_, a) => TypedBy(env, r, a);
    case Bin(_, l, r') =>
      TypedBy(env, r, l);
      TypedBy(env, r, r');
    case Step(left, _, _, preds) =>
      if left.From? { TypedBy(env, r, left.e); }
      TypedPredsBy(env, r, preds);
    case Filter(of, pred, _) =>
      TypedBy(env, r, of);
      TypedBy(env, r, pred);
    case _ =>
  }

  lemma {:induction false} TypedPredsBy(env: Env, r: Reading, ps: Preds)
    ensures TypedPreds(env.By(r), ps) <==> TypedPreds(env, ps)
    decreases ps
  {
    if ps.Preds? {
      TypedBy(env, r, ps.expr);
      TypedPredsBy(env, r, ps.next);
    }
  }

  lemma ValidBy(env: Env, r: Reading)
    requires env.Valid()
    ensures env.By(r).Valid()
  {
  }

  lemma SelectsBy(env: Env, r: Reading, x: XNode, axis: XAxis, test: NodeTest, y: XNode)
    requires env.Valid() && env.Has(x) && env.Has(y)
    ensures env.By(r).Valid() && (Selects(env.By(r), x, axis, test, y) <==> Selects(env, x, axis, test, y))
  {
    ValidBy(env, r);
    assert forall i, k :: 0 <= i < |env.attrs| && 0 <= k < |env.attrs[i]| ==> (FirstOfName(env.By(r), i, k) <==> FirstOfName(env, i, k));
  }

  lemma AxisSetBy(env: Env, r: Reading, x: XNode, axis: XAxis, test: NodeTest)
    requires env.Valid() && env.Has(x)
    ensures env.By(r).Valid() && AxisSet(env.By(r), x, axis, test) == AxisSet(env, x, axis, test)
  {
    ValidBy(env, r);
    var a, b := AxisSet(env.By(r), x, axis, test), AxisSet(env, x, axis, test);
    forall y ensures y in a <==> y in b {
      if env.Has(y) { SelectsBy(env, r, x, axis, test, y); }
    }
  }

  lemma ConversionsBy(env: Env, r: Reading, v: Value)
    requires GoodValue(env, v)
    ensures GoodValue(env.By(r), v) && ToStr(env.By(r), v) == ToStr(env, v) && ToNum(env.By(r), v) == ToNum(env, v)
    ensures ToBool(env.By(r), v) == ToBool(env, v)
  {
  }

  lemma NumberOfBy(env: Env, r: Reading, v: Value, n: real)
    requires GoodValue(env, v)
    ensures GoodValue(env.By(r), v) && (NumberOf(env.By(r), v, n) <==> NumberOf(env, v, n))
  {
    ConversionsBy(env, r, v);
    if v.NodesV? {
      assert forall x <- v.nodes :: env.By(r).StringValue(x) == env.StringValue(x);
    }
  }

  lemma SomeBelowBy(env: Env, r: Reading, orEqual: bool, a: Value, b: Value)
    requires GoodValue(env, a) && GoodValue(env, b)
    ensures GoodValue(env.By(r), a) && GoodValue(env.By(r), b)
    ensures SomeBelow(env.By(r), orEqual, a, b) <==> SomeBelow(env, orEqual, a, b)
  {
    forall n ensures (NumberOf(env.By(r), a, n) <==> NumberOf(env, a, n)) && (NumberOf(env.By(r), b, n) <==> NumberOf(env, b, n)) {
      NumberOfBy(env, r, a, n);
      NumberOfBy(env, r, b, n);
    }
  }

  lemma CompareEqBy(env: Env, r: Reading, negated: bool, a: Value, b: Value)
    requires GoodValue(env, a) && GoodValue(env, b)
    ensures GoodValue(env.By(r), a) && GoodValue(env.By(r), b)
    ensures CompareEq(env.By(r), negated, a, b) <==> CompareEq(env, negated, a, b)
  {
    ConversionsBy(env, r, a);
    ConversionsBy(env, r, b);
    assert forall x | env.Has(x) :: env.By(r).StringValue(x) == env.StringValue(x);
  }

  lemma BinBy(env: Env, r: Reading, op: BinOp, a: Value, b: Value)
    requires GoodValue(env, a) && GoodValue(env, b) && (op.UnionOp? ==> a.NodesV? && b.NodesV?)
    requires !(Relational(op) && SetWithBoolean(a, b))
    ensures GoodValue(env.By(r), a) && GoodValue(env.By(r), b)
    ensures EvaluateBin(env.By(r), op, a, b) == EvaluateBin(env, op, a, b)
  {
    ConversionsBy(env, r, a);
    ConversionsBy(env, r, b);
    CompareEqBy(env, r, op.NotEqualOp?, a, b);
    SomeBelowBy(env, r, op.LessEqOp? || op.GreaterEqOp?, a, b);
    SomeBelowBy(env, r, op.LessEqOp? || op.GreaterEqOp?, b, a);
  }

  lemma UnBy(env: Env, r: Reading, op: UnOp, v: Value, isSet: bool)
    requires GoodValue(env, v) && (op.CountOp? ==> v.NodesV?)
    ensures GoodValue(env.By(r), v) && EvaluateUn(env.By(r), op, v, isSet) == EvaluateUn(env, op, v, isSet)
  {
    ConversionsBy(env, r, v);
  }

  // ---------- queries that mean the same under both readings ----------

  lemma {:induction false} HoldsBy(env: Env, r: Reading, pred: Expr, y: XNode, position: int, size: int)
    requires env.Valid() && Typed(env, pred) && env.Has(y) && Standard(pred)
    ensures env.By(r).Valid() && Typed(env.By(r), pred)
    ensures Holds(env.By(r), pred, y, position, size) <==> Holds(env, pred, y, position, size)
    decreases pred, 4
  {
    EvaluateBy(env, r, pred, Context(Some(y), position, size));
    ConversionsBy(env, r, Evaluate(env, pred, Context(Some(y), position, size)));
  }

  lemma {:induction false} KeptBy(env: Env, r: Reading, s: set<XNode>, reverse: bool, pred: Expr)
    requires env.Valid() && Typed(env, pred) && Standard(pred) && forall y <- s :: env.Has(y)
    ensures env.By(r).Valid() && Typed(env.By(r), pred) && forall y <- s :: env.By(r).Has(y)
    ensures Kept(env.By(r), s, reverse, pred) == Kept(env, s, reverse, pred)
    decreases pred, 5
  {
    ValidBy(env, r);
    TypedBy(env, r, pred);
    forall y | y in s
      ensures Holds(env.By(r), pred, y, PositionIn(s, y, reverse), |s|) <==> Holds(env, pred, y, PositionIn(s, y, reverse), |s|)
    {
      HoldsBy(env, r, pred, y, PositionIn(s, y, reverse), |s|);
    }
  }

  lemma {:induction false} KeptAllBy(env: Env, r: Reading, s: set<XNode>, reverse: bool, preds: Preds)
    requires env.Valid() && TypedPreds(env, preds) && StandardPreds(preds) && forall y <- s :: env.Has(y)
    ensures env.By(r).Valid() && TypedPreds(env.By(r), preds) && forall y <- s :: env.By(r).Has(y)
    ensures KeptAll(env.By(r), s, reverse, preds) == KeptAll(env, s, reverse, preds)
    decreases preds, 0
  {
    ValidBy(env, r);
    TypedPredsBy(env, r, preds);
    if preds.Preds? {
      KeptBy(env, r, s, reverse, preds.expr);
      KeptAllBy(env, r, Kept(env, s, reverse, preds.expr), reverse, preds.next);
    }
  }

  lemma {:induction false} StepFromBy(env: Env, r: Reading, x: XNode, axis: XAxis, test: NodeTest, preds: Preds)
    requires env.Valid() && env.Has(x) && TypedPreds(env, preds) && StandardPreds(preds)
    ensures env.By(r).Valid() && env.By(r).Has(x) && TypedPreds(env.By(r), preds)
    ensures StepFrom(env.By(r), x, axis, test, preds) == StepFrom(env, x, axis, test, preds)
    decreases preds, 1
  {
    AxisSetBy(env, r, x, axis, test);
    KeptAllBy(env, r, AxisSet(env, x, axis, test), ReverseAxis(axis), preds);
  }

  lemma {:induction false} StepBy(env: Env, r: Reading, e: Expr, c: Context)
    requires env.Valid() && Typed(env, e) && GoodContext(env, c) && Standard(e) && e.Step?
    ensures env.By(r).Valid() && Typed(env.By(r), e) && GoodContext(env.By(r), c)
    ensures Evaluate(env.By(r), e, c) == Evaluate(env, e, c)
    decreases e, 2
  {
    ValidBy(env, r);
    TypedBy(env, r, e);
    if e.left.From? { EvaluateBy(env, r, e.left.e, c); }
    var from := if e.left.From? then Evaluate(env, e.left.e, c).nodes else if c.n.Some? then {c.n.value} else {};
    forall x | x in from
      ensures StepFrom(env.By(r), x, e.axis, e.test, e.preds) == StepFrom(env, x, e.axis, e.test, e.preds)
    {
      StepFromBy(env, r, x, e.axis, e.test, e.preds);
    }
  }

  /** A query without such an operator means the same under both readings, in every context. */
  lemma {:induction false} EvaluateBy(env: Env, r: Reading, e: Expr, c: Context)
    requires env.Valid() && Typed(env, e) && GoodContext(env, c) && Standard(e)
    ensures env.By(r).Valid() && Typed(env.By(r), e) && GoodContext(env.By(r), c)
    ensures Evaluate(env.By(r), e, c) == Evaluate(env, e, c)
    decreases e, 3
  {
    ValidBy(env, r);
    TypedBy(env, r, e);
    match e
    case Un(op, a) =>
      EvaluateBy(env, r, a, c);
      UnBy(env, r, op, Evaluate(env, a, c), TypeOf(a) == NodeSetType);
    case Bin(op, left, right) =>
      EvaluateBy(env, r, left, c);
      EvaluateBy(env, r, right, c);
      BinBy(env, r, op, Evaluate(env, left, c), Evaluate(env, right, c));
    case Step(_, _, _, _) => StepBy(env, r, e, c);
    case Filter(of, pred, _) =>
      EvaluateBy(env, r, of, c);
      KeptBy(env, r, Evaluate(env, of, c).nodes, false, pred);
    case _ =>
  }

  // ---------- where the readings part ----------

  ghost predicate SomeNumber(env: Env, s: set<XNode>, p: real -> bool)
    requires forall x <- s :: env.Has(x)
  {
    exists x :: x in s && p(env.toNumber(env.StringValue(x)))
  }

  /** When both readings of "`s` compared with `b`" agree; `setLeft` says on which side `s` stands. */
  ghost predicate Agree(env: Env, orEqual: bool, setLeft: bool, s: set<XNode>, b: bool)
    requires forall x <- s :: env.Has(x)
  {
    match (setLeft, orEqual, b)
    case (true, false, true) => s != {} && !SomeNumber(env, s, n => n < 1.0)
    case (true, false, false) => !SomeNumber(env, s, n => n < 0.0)
    case (true, true, true) => SomeNumber(env, s, n => n <= 1.0)
    case (true, true, false) => s != {} && !SomeNumber(env, s, n => n <= 0.0)
    case (false, false, true) => !SomeNumber(env, s, n => n > 1.0)
    case (false, false, false) => s == {} || SomeNumber(env, s, n => n > 0.0)
    case (false, true, true) => s == {} || SomeNumber(env, s, n => n >= 1.0)
    case (false, true, false) => SomeNumber(env, s, n => n >= 0.0)
  }

  /** What the library computes for such a pair. */
  lemma LibraryCompares(env: Env, orEqual: bool, setLeft: bool, s: set<XNode>, b: bool)
    requires forall x <- s :: env.Has(x)
    ensures var v, w := NodesV(s), BooleanV(b);
      if setLeft then SomeBelow(env, orEqual, v, w) <==> SomeNumber(env, s, n => Below(orEqual, n, Unit(b)))
      else SomeBelow(env, orEqual, w, v) <==> SomeNumber(env, s, n => Below(orEqual, Unit(b), n))
  {
    var v, w := NodesV(s), BooleanV(b);
    assert NumberOf(env, w, Unit(b));
    forall x | x in s ensures NumberOf(env, v, env.toNumber(env.StringValue(x))) {
    }
  }

  ghost function OnLeft(setLeft: bool, s: set<XNode>, b: bool): Value { if setLeft then NodesV(s) else BooleanV(b) }

  ghost function OnRight(setLeft: bool, s: set<XNode>, b: bool): Value { if setLeft then BooleanV(b) else NodesV(s) }

  /** The two readings of a comparison between a node set and a boolean agree exactly then. */
  lemma ComparisonsAgree(env: Env, orEqual: bool, setLeft: bool, s: set<XNode>, b: bool, v: Value, w: Value)
    requires v == OnLeft(setLeft, s, b) && w == OnRight(setLeft, s, b)
    requires (forall x <- s :: env.Has(x)) && GoodValue(env, v) && GoodValue(env, w)
    ensures GoodValue(env.By(Recommendation), v) && GoodValue(env.By(Recommendation), w)
    ensures GoodValue(env.By(Library), v) && GoodValue(env.By(Library), w)
    ensures CompareRel(env.By(Recommendation), orEqual, v, w) == CompareRel(env.By(Library), orEqual, v, w)
      <==> Agree(env, orEqual, setLeft, s, b)
  {
    LibraryCompares(env, orEqual, setLeft, s, b);
    SomeBelowBy(env, Library, orEqual, v, w);
  }

  /** The parts of a relational operator between a node set and a boolean. */
  ghost predicate Parts(env: Env, e: Expr, c: Context, setLeft: bool, s: set<XNode>, b: bool)
    requires env.Valid() && Typed(env, e) && GoodContext(env, c)
  {
    e.Bin? && Relational(e.bop) && Evaluate(env, e.l, c) == OnLeft(setLeft, s, b) && Evaluate(env, e.r, c) == OnRight(setLeft, s, b)
  }

  /** The comparison such an operator makes; > and >= exchange the operands. */
  lemma Compared(env: Env, e: Expr, c: Context, setLeft: bool, s: set<XNode>, b: bool)
    requires env.Valid() && Typed(env, e) && GoodContext(env, c) && Parts(env, e, c, setLeft, s, b)
    ensures forall x <- s :: env.Has(x)
    ensures var left := if e.bop.GreaterOp? || e.bop.GreaterEqOp? then !setLeft else setLeft;
      GoodValue(env, OnLeft(left, s, b)) && GoodValue(env, OnRight(left, s, b)) &&
      Evaluate(env, e, c) == BooleanV(CompareRel(env, e.bop.LessEqOp? || e.bop.GreaterEqOp?, OnLeft(left, s, b), OnRight(left, s, b)))
  {
    assert GoodValue(env, Evaluate(env, e.l, c)) && GoodValue(env, Evaluate(env, e.r, c));
  }

  /** For a relational operator between a node set and a boolean, with nothing of the kind inside, the
      library's value is that of section 3.4 if and only if the node set and the boolean are such that
      both comparisons agree. */
  lemma RelationalExactly(env: Env, e: Expr, c: Context, setLeft: bool, s: set<XNode>, b: bool)
    requires env.Valid() && Typed(env, e) && GoodContext(env, c) && Parts(env, e, c, setLeft, s, b)
    requires Standard(e.l) && Standard(e.r)
    ensures forall x <- s :: env.Has(x)
    ensures env.By(Recommendation).Valid() && Typed(env.By(Recommendation), e) && GoodContext(env.By(Recommendation), c)
    ensures env.By(Library).Valid() && Typed(env.By(Library), e) && GoodContext(env.By(Library), c)
    ensures Evaluate(env.By(Recommendation), e, c) == Evaluate(env.By(Library), e, c)
      <==> Agree(env, e.bop.LessEqOp? || e.bop.GreaterEqOp?, if e.bop.GreaterOp? || e.bop.GreaterEqOp? then !setLeft else setLeft, s, b)
  {
    var left := if e.bop.GreaterOp? || e.bop.GreaterEqOp? then !setLeft else setLeft;
    Compared(env, e, c, setLeft, s, b);
    ComparedBy(env, Recommendation, e, c, setLeft, s, b);
    ComparedBy(env, Library, e, c, setLeft, s, b);
    ComparisonsAgree(env, e.bop.LessEqOp? || e.bop.GreaterEqOp?, left, s, b, OnLeft(left, s, b), OnRight(left, s, b));
  }

  lemma ComparedBy(env: Env, r: Reading, e: Expr, c: Context, setLeft: bool, s: set<XNode>, b: bool)
    requires env.Valid() && Typed(env, e) && GoodContext(env, c) && Parts(env, e, c, setLeft, s, b)
    requires Standard(e.l) && Standard(e.r)
    ensures env.By(r).Valid() && Typed(env.By(r), e) && GoodContext(env.By(r), c) && Parts(env.By(r), e, c, setLeft, s, b)
    ensures var left := if e.bop.GreaterOp? || e.bop.GreaterEqOp? then !setLeft else setLeft;
      GoodValue(env.By(r), OnLeft(left, s, b)) && GoodValue(env.By(r), OnRight(left, s, b)) &&
      Evaluate(env.By(r), e, c) == BooleanV(CompareRel(env.By(r), e.bop.LessEqOp? || e.bop.GreaterEqOp?, OnLeft(left, s, b), OnRight(left, s, b)))
  {
    ValidBy(env, r);
    TypedBy(env, r, e);
    EvaluateBy(env, r, e.l, c);
    EvaluateBy(env, r, e.r, c);
    Compared(env.By(r), e, c, setLeft, s, b);
  }

  // ---------- inputs on which they part ----------

  /** `x < true()` at a node without children: section 3.4 makes it true, the library false. */
  lemma EmptyBelowTrue(env: Env, c: Context, e: Expr)
    requires env.Valid() && env.doc.shape.Size() == 1 && c == Context(Some(NodeAt(0)), 1, 1)
    requires e == Bin(LessOp, Step(FromContext, TreeAxis(Child), NameTest("x"), NoPreds), Bool(true))
    ensures env.By(Recommendation).Valid() && Typed(env.By(Recommendation), e) && GoodContext(env.By(Recommendation), c)
    ensures env.By(Library).Valid() && Typed(env.By(Library), e) && GoodContext(env.By(Library), c)
    ensures Evaluate(env.By(Recommendation), e, c) == BooleanV(true)
    ensures Evaluate(env.By(Library), e, c) == BooleanV(false)
  {
    EmptyCompared(env, Recommendation, e, c);
    EmptyCompared(env, Library, e, c);
    LibraryCompares(env.By(Library), false, true, {}, true);
  }

  lemma EmptyCompared(env: Env, r: Reading, e: Expr, c: Context)
    requires env.Valid() && env.doc.shape.Size() == 1 && c == Context(Some(NodeAt(0)), 1, 1)
    requires e == Bin(LessOp, Step(FromContext, TreeAxis(Child), NameTest("x"), NoPreds), Bool(true))
    ensures env.By(r).Valid() && Typed(env.By(r), e) && GoodContext(env.By(r), c)
    ensures Evaluate(env.By(r), e, c) == BooleanV(CompareRel(env.By(r), false, NodesV({}), BooleanV(true)))
  {
    EmptyStep(env, r, e.l, c);
    TypedBy(env, r, e);
  }

  lemma EmptyStep(env: Env, r: Reading, e: Expr, c: Context)
    requires env.Valid() && env.doc.shape.Size() == 1 && c == Context(Some(NodeAt(0)), 1, 1)
    requires e == Step(FromContext, TreeAxis(Child), NameTest("x"), NoPreds)
    ensures Typed(env, e) && env.By(r).Valid() && Typed(env.By(r), e) && GoodContext(env.By(r), c)
    ensures Evaluate(env.By(r), e, c) == NodesV({})
  {
    ValidBy(env, r);
    NoChildren(env.By(r));
    TypedBy(env, r, e);
    assert Evaluate(env.By(r), e, c).nodes == {};
  }

  lemma NoChildren(env: Env)
    requires env.Valid() && env.doc.shape.Size() == 1
    ensures StepFrom(env, NodeAt(0), TreeAxis(Child), NameTest("x"), NoPreds) == {}
  {
  }

  /** `/ < true()` in a document whose text is worth 0: section 3.4 makes it false, the library true. */
  lemma ZeroBelowTrue(env: Env, c: Context, e: Expr)
    requires env.Valid() && c == Context(Some(NodeAt(0)), 1, 1) && env.Has(NodeAt(0)) && env.toNumber(env.StringValue(NodeAt(0))) == 0.0
    requires e == Bin(LessOp, Root, Bool(true))
    ensures env.By(Recommendation).Valid() && Typed(env.By(Recommendation), e) && GoodContext(env.By(Recommendation), c)
    ensures env.By(Library).Valid() && Typed(env.By(Library), e) && GoodContext(env.By(Library), c)
    ensures Evaluate(env.By(Recommendation), e, c) == BooleanV(false)
    ensures Evaluate(env.By(Library), e, c) == BooleanV(true)
  {
    var s := {NodeAt(0)};
    assert env.By(Library).StringValue(NodeAt(0)) == env.StringValue(NodeAt(0));
    LibraryCompares(env.By(Library), false, true, s, true);
    assert NodeAt(0) in s;
    assert SomeNumber(env.By(Library), s, n => Below(false, n, Unit(true)));
  }

  // ---------- which queries are standard ----------

  /** The query has no <, <=, > or >= in it. */
  predicate NoRelational(e: Expr) {
    match e
    case Un(_, a) => NoRelational(a)
    case Bin(op, l, r) => NoRelational(l) && NoRelational(r) && op != LessOp && op != LessEqOp && op != GreaterOp && op != GreaterEqOp
    case Step(left, _, _, preds) => (left.From? ==> NoRelational(left.e)) && NoRelationalPreds(preds)
    case Filter(of, pred, _) => NoRelational(of) && NoRelational(pred)
    case _ => true
  }

  predicate NoRelationalPreds(ps: Preds) {
    ps.Preds? ==> NoRelational(ps.expr) && NoRelationalPreds(ps.next)
  }

  lemma {:induction false} WithoutRelational(e: Expr)
    requires NoRelational(e)
    ensures Standard(e)
    decreases e
  {
    match e
    case Un(_, a) => WithoutRelational(a);
    case Bin(_, l, r) =>
      WithoutRelational(l);
      WithoutRelational(r);
    case Step(left, _, _, preds) =>
      if left.From? { WithoutRelational(left.e); }
      WithoutRelationalPreds(preds);
    case Filter(of, pred, _) =>
      WithoutRelational(of);
      WithoutRelational(pred);
    case _ =>
  }

  lemma {:induction false} WithoutRelationalPreds(ps: Preds)
    requires NoRelationalPreds(ps)
    ensures StandardPreds(ps)
    decreases ps
  {
    if ps.Preds? {
      WithoutRelational(ps.expr);
      WithoutRelationalPreds(ps.next);
    }
  }

  /** With such an operator on top, a query is standard unless one operand is a node set and the other a boolean. */
  lemma StandardOnTop(op: BinOp, l: Expr, r: Expr)
    requires op == LessOp || op == LessEqOp || op == GreaterOp || op == GreaterEqOp
    ensures Standard(Bin(op, l, r)) <==>
      (Standard(l) && Standard(r) &&
       !(TypeOf(l) == NodeSetType && TypeOf(r) == BooleanType) && !(TypeOf(l) == BooleanType && TypeOf(r) == NodeSetType))
  {
  }
}
