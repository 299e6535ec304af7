/** The query optimizer: classifies predicates and merges steps, bottom up. */
module XPathOptimize {
  import opened Wrappers
  import opened Tree
  import opened Axes
  import opened Order
  import opened XPathSpec
  import opened XPathModes

  /** A query as the parser builds it: nothing classified, no optimized operator. */
  predicate Fresh(e: Expr) {
    match e
    case Un(_, a) => Fresh(a)
    case Bin(op, l, r) => Fresh(l) && Fresh(r) && !op.OptCompareAttribute?
    case Step(left, _, _, preds) => (left.From? ==> Fresh(left.e)) && FreshPreds(preds)
    case Filter(of, pred, ptest) => Fresh(of) && Fresh(pred) && ptest == PredDefault
    case _ => true
  }

  predicate FreshPreds(ps: Preds) {
    ps.Preds? ==> Fresh(ps.expr) && ps.ptest == PredDefault && FreshPreds(ps.next)
  }

  /** [position() = n] becomes [n]. */
  function DropPosition(e: Expr): Expr {
    if e.Bin? && e.bop == EqualOp && e.l.Position? && TypeOf(e.r) == NumberType then e.r else e
  }

  function Classify(e: Expr): PredTest {
    if e == Num(1.0) then PredConstantOne
    else if TypeOf(e) == NumberType && IsConstant(e) then PredConstant
    else if TypeOf(e) != NumberType && IsPosInvExpr(e) then PredPosInv
    else PredDefault
  }

  /** is_posinv_step. */
  predicate IsPosInvStep(ps: Preds) {
    ps.Preds? ==> ps.ptest == PredPosInv && IsPosInvStep(ps.next)
  }

  predicate Mergeable(axis: XAxis) {
    axis == TreeAxis(Child) || axis == TreeAxis(Self) || axis == TreeAxis(Descendant) || axis == TreeAxis(DescendantOrSelf)
  }

  function MergedAxis(axis: XAxis): XAxis {
    if axis == TreeAxis(Child) || axis == TreeAxis(Descendant) then TreeAxis(Descendant) else TreeAxis(DescendantOrSelf)
  }

  /** descendant-or-self::node() without predicates: the middle of `//`. */
  predicate IsDoubleSlash(e: Expr) {
    e.Step? && e.axis == TreeAxis(DescendantOrSelf) && e.test.TypeNode? && e.preds.NoPreds?
  }

  function MergeStep(e: Expr): Expr
    requires e.Step?
  {
    if Mergeable(e.axis) && e.left.From? && IsDoubleSlash(e.left.e) && IsPosInvStep(e.preds)
    then e.(axis := MergedAxis(e.axis), left := e.left.e.left)
    else e
  }

  function CompareShortcut(e: Expr): Expr
    requires e.Bin?
  {
    if e.bop == EqualOp && IsAttributeStep(e.l) && IsStringOperand(e.r) then e.(bop := OptCompareAttribute) else e
  }

  /** optimize, with optimize_self at every node. */
  function Optimize(e: Expr): Expr {
    match e
    case Un(op, a) => Un(op, Optimize(a))
    case Bin(op, l, r) => CompareShortcut(Bin(op, Optimize(l), Optimize(r)))
    case Step(left, axis, test, preds) =>
      MergeStep(Step(if left.From? then From(Optimize(left.e)) else left, axis, test, OptimizePreds(preds)))
    case Filter(of, pred, ptest) =>
      var p := DropPosition(Optimize(pred));
      Filter(Optimize(of), p, Classify(p))
    case _ => e
  }

  function OptimizePreds(ps: Preds): Preds {
    match ps
    case NoPreds => ps
    case Preds(expr, ptest, next) =>
      var p := DropPosition(Optimize(expr));
      Preds(p, Classify(p), OptimizePreds(next))
  }

  // ---------- merging steps ----------

  /** Every predicate holds for `y`, whatever its position. */
  ghost predicate HoldsAll(env: Env, y: XNode, preds: Preds)
    requires env.Valid() && TypedPreds(env, preds) && env.Has(y)
  {
    preds.Preds? ==> Holds(env, preds.expr, y, 1, 1) && HoldsAll(env, y, preds.next)
  }

  /** Position independent predicates filter node by node. */
  lemma {:induction false} KeptAllPosInv(env: Env, s: set<XNode>, reverse: bool, preds: Preds)
    requires env.Valid() && TypedPreds(env, preds) && ClassifiedPreds(preds) && IsPosInvStep(preds)
    requires forall y <- s :: env.Has(y)
    ensures forall y :: y in KeptAll(env, s, reverse, preds) <==> y in s && HoldsAll(env, y, preds)
  {
    if preds.Preds? {
      var k := Kept(env, s, reverse, preds.expr);
      KeptAllPosInv(env, k, reverse, preds.next);
      forall y | y in s ensures y in k <==> Holds(env, preds.expr, y, 1, 1) {
        var p := PositionIn(s, y, reverse);
        PosInvIndependent(env, preds.expr, Some(y), p, |s|, 1, 1);
        assert Holds(env, preds.expr, y, p, |s|) == Holds(env, preds.expr, y, 1, 1);
      }
    }
  }

  /** `x` is `w` or below it: the nodes the middle of `//` goes through. */
  lemma DoubleSlashNodes(env: Env, w: XNode, x: XNode)
    requires env.Valid() && env.Has(w) && env.Has(x) && w.NodeAt?
    ensures x in AxisSet(env, w, TreeAxis(DescendantOrSelf), TypeNode) <==>
              x.NodeAt? && w.i <= x.i < env.doc.shape.end[w.i]
  {
    AxisPositions(env.doc.shape, DescendantOrSelf, w.i, x.i);
  }

  /** What the merged step finds from `w`, the step finds from some node on the way. */
  lemma MergedGives(env: Env, w: XNode, a: Axis, test: NodeTest, y: XNode) returns (x: XNode)
    requires env.Valid() && env.Has(w) && env.Has(y) && Mergeable(TreeAxis(a))
    requires Selects(env, w, MergedAxis(TreeAxis(a)), test, y)
    ensures x in AxisSet(env, w, TreeAxis(DescendantOrSelf), TypeNode) && Selects(env, x, TreeAxis(a), test, y)
  {
    if w.AttrAt? { return w; }
    var s := env.doc.shape;
    AxisPositions(s, MergedAxis(TreeAxis(a)).axis, w.i, y.i);
    x := if a.Self? then y else if a.Child? then NodeAt(s.par[y.i]) else w;
    DoubleSlashNodes(env, w, x);
    AxisPositions(s, a, x.i, y.i);
  }

  /** What the step finds from a node on the way, the merged step finds from `w`. */
  lemma MergedTakes(env: Env, w: XNode, x: XNode, a: Axis, test: NodeTest, y: XNode)
    requires env.Valid() && env.Has(w) && env.Has(x) && env.Has(y) && Mergeable(TreeAxis(a))
    requires x in AxisSet(env, w, TreeAxis(DescendantOrSelf), TypeNode) && Selects(env, x, TreeAxis(a), test, y)
    ensures Selects(env, w, MergedAxis(TreeAxis(a)), test, y)
  {
    if w.NodeAt? {
      DoubleSlashNodes(env, w, x);
      MergedInterval(env.doc.shape, w.i, x.i, a, y.i);
    } else {
      assert Selects(env, w, TreeAxis(DescendantOrSelf), TypeNode, x);
    }
  }

  lemma MergedInterval(s: Shape, w: int, x: int, a: Axis, y: int)
    requires s.Valid() && s.Has(w) && s.Has(x) && s.Has(y) && Mergeable(TreeAxis(a))
    requires w <= x < s.end[w] && OnAxis(s, a, x, y)
    ensures OnAxis(s, MergedAxis(TreeAxis(a)).axis, w, y)
  {
    AxisPositions(s, a, x, y);
    AxisPositions(s, MergedAxis(TreeAxis(a)).axis, w, y);
    assert x > w ==> s.par[x] >= w;
  }

  lemma StepFromPosInv(env: Env, x: XNode, axis: XAxis, test: NodeTest, preds: Preds, y: XNode)
    requires env.Valid() && env.Has(x) && TypedPreds(env, preds) && ClassifiedPreds(preds) && IsPosInvStep(preds)
    ensures y in StepFrom(env, x, axis, test, preds) <==>
              env.Has(y) && Selects(env, x, axis, test, y) && HoldsAll(env, y, preds)
  {
    KeptAllPosInv(env, AxisSet(env, x, axis, test), ReverseAxis(axis), preds);
  }

  ghost function StepSources(env: Env, left: Source, c: Context): (s: set<XNode>)
    requires env.Valid() && GoodContext(env, c) && (left.From? ==> Typed(env, left.e) && TypeOf(left.e) == NodeSetType)
    ensures forall x <- s :: env.Has(x)
  {
    if left.From? then Evaluate(env, left.e, c).nodes else if c.n.Some? then {c.n.value} else {}
  }

  lemma InStep(env: Env, e: Expr, c: Context, y: XNode)
    requires env.Valid() && Typed(env, e) && GoodContext(env, c) && e.Step?
    ensures y in Evaluate(env, e, c).nodes <==>
              exists x :: x in StepSources(env, e.left, c) && y in StepFrom(env, x, e.axis, e.test, e.preds)
  {
    var from := StepSources(env, e.left, c);
    var all := set x, y' | x in from && y' in StepFrom(env, x, e.axis, e.test, e.preds) :: y';
    assert Evaluate(env, e, c) == NodesV(all);
    if x :| x in from && y in StepFrom(env, x, e.axis, e.test, e.preds) {
      assert y in all;
    }
  }

  ghost predicate CanMerge(e: Expr) {
    e.Step? && Mergeable(e.axis) && e.left.From? && IsDoubleSlash(e.left.e) && IsPosInvStep(e.preds) && ClassifiedPreds(e.preds)
  }

  lemma MergeTyped(env: Env, e: Expr)
    requires env.Valid() && Typed(env, e) && CanMerge(e)
    ensures Typed(env, MergeStep(e))
  {
    assert Typed(env, e.left.e);
  }

  lemma MergedReaches(env: Env, e: Expr, w: XNode, x: XNode, y: XNode)
    requires env.Valid() && Typed(env, e) && CanMerge(e) && env.Has(w)
    requires x in AxisSet(env, w, TreeAxis(DescendantOrSelf), TypeNode)
    requires y in StepFrom(env, x, e.axis, e.test, e.preds)
    ensures y in StepFrom(env, w, MergedAxis(e.axis), e.test, e.preds)
  {
    StepFromPosInv(env, x, e.axis, e.test, e.preds, y);
    StepFromPosInv(env, w, MergedAxis(e.axis), e.test, e.preds, y);
    MergedTakes(env, w, x, e.axis.axis, e.test, y);
  }

  lemma DoubleSlashStep(env: Env, mid: Expr, w: XNode)
    requires env.Valid() && IsDoubleSlash(mid) && env.Has(w)
    ensures StepFrom(env, w, mid.axis, mid.test, mid.preds) == AxisSet(env, w, TreeAxis(DescendantOrSelf), TypeNode)
  {
  }

  lemma MergedHas(env: Env, e: Expr, c: Context, y: XNode)
    requires env.Valid() && Typed(env, e) && GoodContext(env, c) && CanMerge(e) && Typed(env, MergeStep(e))
    ensures y in Evaluate(env, e, c).nodes ==> y in Evaluate(env, MergeStep(e), c).nodes
  {
    var m, mid := MergeStep(e), e.left.e;
    InStep(env, e, c, y);
    InStep(env, m, c, y);
    if y in Evaluate(env, e, c).nodes {
      var x :| x in StepSources(env, e.left, c) && y in StepFrom(env, x, e.axis, e.test, e.preds);
      InStep(env, mid, c, x);
      var w :| w in StepSources(env, mid.left, c) && x in StepFrom(env, w, mid.axis, mid.test, mid.preds);
      DoubleSlashStep(env, mid, w);
      MergedReaches(env, e, w, x, y);
    }
  }

  lemma MergedHasOnly(env: Env, e: Expr, c: Context, y: XNode)
    requires env.Valid() && Typed(env, e) && GoodContext(env, c) && CanMerge(e) && Typed(env, MergeStep(e))
    ensures y in Evaluate(env, MergeStep(e), c).nodes ==> y in Evaluate(env, e, c).nodes
  {
    var m, mid := MergeStep(e), e.left.e;
    InStep(env, e, c, y);
    InStep(env, m, c, y);
    if y in Evaluate(env, m, c).nodes {
      var w :| w in StepSources(env, m.left, c) && y in StepFrom(env, w, m.axis, m.test, m.preds);
      StepFromPosInv(env, w, m.axis, m.test, m.preds, y);
      var x := MergedGives(env, w, e.axis.axis, e.test, y);
      DoubleSlashStep(env, mid, w);
      InStep(env, mid, c, x);
      StepFromPosInv(env, x, e.axis, e.test, e.preds, y);
    }
  }

  /** Merging descendant-or-self::node() with the step after it selects the same nodes from every
      context, provided the step's predicates are position independent. */
  lemma MergeSound(env: Env, e: Expr, c: Context)
    requires env.Valid() && Typed(env, e) && GoodContext(env, c) && CanMerge(e)
    ensures Typed(env, MergeStep(e)) && Evaluate(env, MergeStep(e), c) == Evaluate(env, e, c)
  {
    MergeTyped(env, e);
    var a, b := Evaluate(env, MergeStep(e), c).nodes, Evaluate(env, e, c).nodes;
    forall y ensures y in a <==> y in b {
      MergedHas(env, e, c, y);
      MergedHasOnly(env, e, c, y);
    }
    assert a == b;
  }

  // ---------- the optimizer as a whole ----------

  lemma {:induction false} OptimizeTyped(env: Env, e: Expr)
    requires env.Valid() && Typed(env, e) && Fresh(e)
    ensures Typed(env, Optimize(e)) && TypeOf(Optimize(e)) == TypeOf(e) && Classified(Optimize(e))
    decreases e
  {
    match e
    case Un(_, a) => OptimizeTyped(env, a);
    case Bin(_, l, r) =>
      OptimizeTyped(env, l);
      OptimizeTyped(env, r);
    case Step(left, axis, test, preds) =>
      if left.From? { OptimizeTyped(env, left.e); }
      OptimizePredsTyped(env, preds);
      var s := Step(if left.From? then From(Optimize(left.e)) else left, axis, test, OptimizePreds(preds));
      if CanMerge(s) { MergeTyped(env, s); }
    case Filter(of, pred, _) =>
      OptimizeTyped(env, of);
      OptimizeTyped(env, pred);
    case _ =>
  }

  lemma {:induction false} OptimizePredsTyped(env: Env, ps: Preds)
    requires env.Valid() && TypedPreds(env, ps) && FreshPreds(ps)
    ensures TypedPreds(env, OptimizePreds(ps)) && ClassifiedPreds(OptimizePreds(ps))
    decreases ps
  {
    if ps.Preds? {
      OptimizeTyped(env, ps.expr);
      OptimizePredsTyped(env, ps.next);
    }
  }

  /** [position() = n] and [n] hold for the same nodes. */
  lemma DropPositionHolds(env: Env, e: Expr, y: XNode, position: int, size: int)
    requires env.Valid() && Typed(env, e) && env.Has(y)
    ensures Typed(env, DropPosition(e)) && Holds(env, DropPosition(e), y, position, size) == Holds(env, e, y, position, size)
  {
    if DropPosition(e) != e {
      var c := Context(Some(y), position, size);
      assert Evaluate(env, e.l, c) == NumberV(position as real);
      assert Evaluate(env, e, c) == BooleanV(CompareEq(env, false, Evaluate(env, e.l, c), Evaluate(env, e.r, c)));
    }
  }

  /** An optimized predicate holds where the original does. */
  lemma {:induction false} OptimizedHolds(env: Env, pred: Expr, y: XNode, position: int, size: int)
    requires env.Valid() && Typed(env, pred) && Fresh(pred) && env.Has(y)
    ensures Typed(env, DropPosition(Optimize(pred)))
    ensures Holds(env, DropPosition(Optimize(pred)), y, position, size) == Holds(env, pred, y, position, size)
    decreases pred, 2
  {
    OptimizeTyped(env, pred);
    OptimizeSound(env, pred, Context(Some(y), position, size));
    DropPositionHolds(env, Optimize(pred), y, position, size);
  }

  lemma {:induction false} OptimizedKept(env: Env, s: set<XNode>, reverse: bool, pred: Expr)
    requires env.Valid() && Typed(env, pred) && Fresh(pred) && forall y <- s :: env.Has(y)
    ensures Typed(env, DropPosition(Optimize(pred)))
    ensures Kept(env, s, reverse, DropPosition(Optimize(pred))) == Kept(env, s, reverse, pred)
    decreases pred, 3
  {
    OptimizeTyped(env, pred);
    forall y | y in s
      ensures Holds(env, DropPosition(Optimize(pred)), y, PositionIn(s, y, reverse), |s|)
           == Holds(env, pred, y, PositionIn(s, y, reverse), |s|)
    {
      OptimizedHolds(env, pred, y, PositionIn(s, y, reverse), |s|);
    }
  }

  lemma {:induction false} OptimizedKeptAll(env: Env, s: set<XNode>, reverse: bool, ps: Preds)
    requires env.Valid() && TypedPreds(env, ps) && FreshPreds(ps) && forall y <- s :: env.Has(y)
    ensures TypedPreds(env, OptimizePreds(ps))
    ensures KeptAll(env, s, reverse, OptimizePreds(ps)) == KeptAll(env, s, reverse, ps)
    decreases ps
  {
    OptimizePredsTyped(env, ps);
    if ps.Preds? {
      OptimizedKept(env, s, reverse, ps.expr);
      OptimizedKeptAll(env, Kept(env, s, reverse, ps.expr), reverse, ps.next);
    }
  }

  lemma CompareShortcutSound(env: Env, e: Expr, c: Context)
    requires env.Valid() && Typed(env, e) && GoodContext(env, c) && e.Bin? && !e.bop.OptCompareAttribute?
    ensures Typed(env, CompareShortcut(e)) && Evaluate(env, CompareShortcut(e), c) == Evaluate(env, e, c)
  {
  }

  lemma {:induction false} OptimizedStep(env: Env, e: Expr, c: Context)
    requires env.Valid() && Typed(env, e) && Fresh(e) && GoodContext(env, c) && e.Step?
    ensures Typed(env, Optimize(e)) && Evaluate(env, Optimize(e), c) == Evaluate(env, e, c)
    decreases e, 0
  {
    OptimizeTyped(env, e);
    OptimizePredsTyped(env, e.preds);
    if e.left.From? {
      OptimizeTyped(env, e.left.e);
      OptimizeSound(env, e.left.e, c);
    }
    var s := Step(if e.left.From? then From(Optimize(e.left.e)) else e.left, e.axis, e.test, OptimizePreds(e.preds));
    assert StepSources(env, s.left, c) == StepSources(env, e.left, c);
    forall x | x in StepSources(env, e.left, c)
      ensures StepFrom(env, x, s.axis, s.test, s.preds) == StepFrom(env, x, e.axis, e.test, e.preds)
    {
      OptimizedKeptAll(env, AxisSet(env, x, e.axis, e.test), ReverseAxis(e.axis), e.preds);
    }
    var a, b := Evaluate(env, s, c).nodes, Evaluate(env, e, c).nodes;
    forall y ensures y in a <==> y in b {
      InStep(env, s, c, y);
      InStep(env, e, c, y);
    }
    assert a == b;
    if CanMerge(s) { MergeSound(env, s, c); }
  }

  /** The optimizer preserves the meaning of every query in every context. */
  lemma {:induction false} OptimizeSound(env: Env, e: Expr, c: Context)
    requires env.Valid() && Typed(env, e) && Fresh(e) && GoodContext(env, c)
    ensures Typed(env, Optimize(e)) && Evaluate(env, Optimize(e), c) == Evaluate(env, e, c)
    decreases e, 1
  {
    OptimizeTyped(env, e);
    match e
    case Un(_, a) =>
      OptimizeTyped(env, a);
      OptimizeSound(env, a, c);
    case Bin(op, l, r) =>
      OptimizeTyped(env, l);
      OptimizeTyped(env, r);
      OptimizeSound(env, l, c);
      OptimizeSound(env, r, c);
      CompareShortcutSound(env, Bin(op, Optimize(l), Optimize(r)), c);
    case Step(_, _, _, _) => OptimizedStep(env, e, c);
    case Filter(of, pred, _) =>
      OptimizeTyped(env, of);
      OptimizeSound(env, of, c);
      OptimizedKept(env, Evaluate(env, of, c).nodes, false, pred);
    case _ =>
  }

  // ---------- that it does rewrite ----------

  /** Any number of predicates whose value is no number and uses neither position() nor last(). */
  predicate Unpositioned(ps: Preds) {
    ps.Preds? ==> TypeOf(DropPosition(Optimize(ps.expr))) != NumberType && IsPosInvExpr(DropPosition(Optimize(ps.expr))) && Unpositioned(ps.next)
  }

  lemma {:induction false} UnpositionedMarked(ps: Preds)
    requires Unpositioned(ps)
    ensures IsPosInvStep(OptimizePreds(ps))
  {
    if ps.Preds? {
      UnpositionedMarked(ps.next);
    }
  }

  /** `//x` becomes one step on the descendant axis, `//.` and the like one on descendant-or-self, when the
      predicates do not ask for positions. */
  lemma DoubleSlashMerged(left: Source, axis: XAxis, test: NodeTest, ps: Preds)
    requires Unpositioned(ps)
    requires left.From? ==> !IsDoubleSlash(Optimize(left.e))
    ensures var from := if left.From? then From(Optimize(left.e)) else left;
      var double := From(Step(left, TreeAxis(DescendantOrSelf), TypeNode, NoPreds));
      && (axis == TreeAxis(Child) || axis == TreeAxis(Descendant) ==>
          Optimize(Step(double, axis, test, ps)) == Step(from, TreeAxis(Descendant), test, OptimizePreds(ps)))
      && (axis == TreeAxis(Self) || axis == TreeAxis(DescendantOrSelf) ==>
          Optimize(Step(double, axis, test, ps)) == Step(from, TreeAxis(DescendantOrSelf), test, OptimizePreds(ps)))
  {
    UnpositionedMarked(ps);
    assert Optimize(Step(left, TreeAxis(DescendantOrSelf), TypeNode, NoPreds)) == Step(if left.From? then From(Optimize(left.e)) else left, TreeAxis(DescendantOrSelf), TypeNode, NoPreds);
  }

  /** `@q = 'text'` becomes the comparison that looks at one attribute. */
  lemma ComparisonShortened(q: string, t: string)
    ensures var a := Step(FromContext, AttributeAxis, NameTest(q), NoPreds);
      Optimize(Bin(EqualOp, a, Str(t))) == Bin(OptCompareAttribute, a, Str(t))
  {
    var a, b := Step(FromContext, AttributeAxis, NameTest(q), NoPreds), Str(t);
    assert OptimizePreds(NoPreds) == NoPreds;
    assert Optimize(a) == MergeStep(a) == a;
    assert b.Str? && Optimize(b) == b;
    assert IsAttributeStep(a) && IsStringOperand(b);
    assert Optimize(Bin(EqualOp, a, b)) == CompareShortcut(Bin(EqualOp, Optimize(a), Optimize(b)));
  }

  /** Numbers in predicates are marked: `[1]` apart from the others, and `[position() = n]` is `[n]`. */
  lemma NumbersMarked(n: real, next: Preds)
    ensures OptimizePreds(Preds(Num(n), PredDefault, next)).ptest == if n == 1.0 then PredConstantOne else PredConstant
    ensures OptimizePreds(Preds(Bin(EqualOp, Position, Num(n)), PredDefault, next)) == OptimizePreds(Preds(Num(n), PredDefault, next))
  {
    assert Optimize(Bin(EqualOp, Position, Num(n))) == Bin(EqualOp, Position, Num(n));
  }

  /** Asking for an attribute, for a text or for a child is asking for no position. */
  lemma UsualPredicates(q: string, t: string)
    ensures var a := Step(FromContext, AttributeAxis, NameTest(q), NoPreds);
      Unpositioned(Preds(a, PredDefault, NoPreds)) && Unpositioned(Preds(Bin(EqualOp, a, Str(t)), PredDefault, NoPreds))
    ensures Unpositioned(Preds(Step(FromContext, TreeAxis(Child), NameTest(q), NoPreds), PredDefault, NoPreds))
    ensures !Unpositioned(Preds(Position, PredDefault, NoPreds))
  {
    var a, b := Step(FromContext, AttributeAxis, NameTest(q), NoPreds), Step(FromContext, TreeAxis(Child), NameTest(q), NoPreds);
    assert OptimizePreds(NoPreds) == NoPreds;
    assert Optimize(a) == MergeStep(a) == a && Optimize(b) == MergeStep(b) == b;
    ComparisonShortened(q, t);
  }
}
