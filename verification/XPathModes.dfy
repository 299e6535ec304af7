/** Evaluation modes, the optimizer's predicate classes, and axes seen from nodes and attributes. */
module XPathModes {
  import opened Wrappers
  import opened Tree
  import opened Axes
  import opened Order
  import opened XPathSpec
  import opened XPathNodeSet

  /** nodeset_eval_t: all nodes wanted, any one node, or the first in document order. */
  datatype Mode = EvalAll | EvalAny | EvalFirst

  /** What a mode promises about the nodes delivered for the set `s`. */
  ghost predicate Covers(mode: Mode, items: seq<XNode>, s: set<XNode>) {
    && Elements(items) <= s
    && match mode
       case EvalAll => Elements(items) == s
       case EvalAny => s != {} ==> items != []
       case EvalFirst => s != {} ==> FirstOf(s) in items
  }

  function AxisType(axis: XAxis): SetType {
    if ReverseAxis(axis) then TypeSortedReverse else TypeSorted
  }

  /** eval_once: whether the first node found settles the matter. */
  predicate EvalOnce(ty: SetType, mode: Mode) {
    if ty == TypeSorted then mode != EvalAll else mode == EvalAny
  }

  // ---------- position independence ----------

  /** is_posinv_expr. */
  predicate IsPosInvExpr(e: Expr) {
    match e
    case Position => false
    case Last => false
    case Step(_, _, _, _) => true
    case Filter(_, _, _) => true
    case Un(_, a) => IsPosInvExpr(a)
    case Bin(_, l, r) => IsPosInvExpr(l) && IsPosInvExpr(r)
    case _ => true
  }

  /** The syntactic check is sound: position and size of the context do not matter. Node sets never
      depend on them, since predicates bring their own. */
  lemma {:induction false} PosInvIndependent(env: Env, e: Expr, n: Option<XNode>, p: int, s: int, p': int, s': int)
    requires env.Valid() && Typed(env, e) && GoodContext(env, Context(n, p, s))
    requires IsPosInvExpr(e) || TypeOf(e) == NodeSetType
    ensures Evaluate(env, e, Context(n, p, s)) == Evaluate(env, e, Context(n, p', s'))
  {
    match e
    case Un(op, a) =>
      if !op.IdOp? { PosInvIndependent(env, a, n, p, s, p', s'); }
    case Bin(_, l, r) =>
      PosInvIndependent(env, l, n, p, s, p', s');
      PosInvIndependent(env, r, n, p, s, p', s');
    case Step(left, _, _, _) =>
      if left.From? { PosInvIndependent(env, left.e, n, p, s, p', s'); }
    case Filter(of, _, _) => PosInvIndependent(env, of, n, p, s, p', s');
    case _ =>
  }

  predicate IsConstant(e: Expr) {
    e.Num? || e.Last? || (e.Var? && e.v.VNum?)
  }

  /** The optimizer's mark on a predicate says something true about it. */
  predicate SoundTest(pred: Expr, ptest: PredTest) {
    match ptest
    case PredDefault => true
    case PredPosInv => TypeOf(pred) != NumberType && IsPosInvExpr(pred)
    case PredConstant => IsConstant(pred)
    case PredConstantOne => pred == Num(1.0)
  }

  predicate Classified(e: Expr) {
    match e
    case Un(_, a) => Classified(a)
    case Bin(_, l, r) => Classified(l) && Classified(r)
    case Step(left, _, _, preds) => (left.From? ==> Classified(left.e)) && ClassifiedPreds(preds)
    case Filter(of, pred, ptest) => Classified(of) && Classified(pred) && SoundTest(pred, ptest)
    case _ => true
  }

  predicate ClassifiedPreds(ps: Preds) {
    ps.Preds? ==> Classified(ps.expr) && SoundTest(ps.expr, ps.ptest) && ClassifiedPreds(ps.next)
  }

  // ---------- one axis from one node ----------

  function Lift(s: seq<int>): (r: seq<XNode>)
    ensures |r| == |s| && forall k :: 0 <= k < |s| ==> r[k] == NodeAt(s[k])
  {
    if s == [] then [] else Lift(s[..|s| - 1]) + [NodeAt(s[|s| - 1])]
  }

  function AttrSeq(env: Env, i: int, test: NodeTest, n: nat): seq<XNode>
    requires 0 <= i < |env.attrs| && n <= |env.attrs[i]|
  {
    if n == 0 then []
    else AttrSeq(env, i, test, n - 1) + (if PassesAttr(test, AttrName(env.attrs[i][n - 1])) then [AttrAt(i, n - 1)] else [])
  }

  function SelfAttr(env: Env, x: XNode, test: NodeTest): seq<XNode>
    requires env.Has(x) && x.AttrAt?
  {
    if test.TypeNode? && IsXPathAttribute(AttrName(env.attrs[x.i][x.k])) then [x] else []
  }

  /** What step_fill pushes without `once`, in its order, for a node or for an attribute. */
  function AxisSeq(env: Env, x: XNode, axis: XAxis, test: NodeTest): seq<XNode>
    requires env.Valid() && env.Has(x)
  {
    match axis
    case AttributeAxis => if x.NodeAt? then AttrSeq(env, x.i, test, |env.attrs[x.i]|) else []
    case TreeAxis(a) =>
      if x.NodeAt? then Lift(StepSeq(env.doc, a, test, x.i))
      else match a
        case AncestorAxis => Lift(StepSeq(env.doc, AncestorOrSelf, test, x.i))
        case AncestorOrSelf => SelfAttr(env, x, test) + Lift(StepSeq(env.doc, AncestorOrSelf, test, x.i))
        case DescendantOrSelf => SelfAttr(env, x, test)
        case Self => SelfAttr(env, x, test)
        case Following => Lift(StepSeq(env.doc, Descendant, test, x.i)) + Lift(StepSeq(env.doc, Following, test, x.i))
        case Parent => Lift(StepSeq(env.doc, Self, test, x.i))
        case Preceding => Lift(StepSeq(env.doc, Preceding, test, x.i))
        case _ => []
  }

  function First1(once: bool, s: seq<XNode>): seq<XNode> {
    if once && |s| > 1 then s[..1] else s
  }

  /** The nodes of one axis, the name test on attributes stopping at the first hit. */
  function AxisNodes(env: Env, x: XNode, axis: XAxis, test: NodeTest): seq<XNode>
    requires env.Valid() && env.Has(x)
  {
    First1(axis.AttributeAxis? && test.NameTest?, AxisSeq(env, x, axis, test))
  }

  lemma LiftMeaning(d: Doc, axis: Axis, test: NodeTest, i: int)
    requires d.Valid() && d.Has(i)
    ensures InOrder(Lift(StepSeq(d, axis, test, i)), if IsReverse(axis) then TypeSortedReverse else TypeSorted)
    ensures forall y :: y in Lift(StepSeq(d, axis, test, i)) <==>
              y.NodeAt? && d.Has(y.i) && OnAxis(d.shape, axis, i, y.i) && Passes(test, d.kind[y.i], d.name[y.i])
  {
    StepSeqMeaning(d, axis, test, i);
    var s := StepSeq(d, axis, test, i);
    var r := Lift(s);
    forall y ensures y in r <==> y.NodeAt? && y.i in s {
      if y.NodeAt? && y.i in s {
        var k :| 0 <= k < |s| && s[k] == y.i;
        assert r[k] == y;
      }
    }
  }

  lemma {:induction false} AttrSeqMeaning(env: Env, i: int, test: NodeTest, n: nat)
    requires 0 <= i < |env.attrs| && n <= |env.attrs[i]|
    ensures var r := AttrSeq(env, i, test, n);
            && InOrder(r, TypeSorted)
            && (forall y :: y in r <==> y.AttrAt? && y.i == i && y.k < n && PassesAttr(test, AttrName(env.attrs[i][y.k])))
  {
    if n > 0 {
      AttrSeqMeaning(env, i, test, n - 1);
      var q := AttrSeq(env, i, test, n - 1);
      assert forall k :: 0 <= k < |q| ==> q[k] in q;
    }
  }

  lemma ConcatOrder(s: seq<XNode>, t: seq<XNode>, ty: SetType)
    requires InOrder(s, ty) && InOrder(t, ty) && !ty.TypeUnsorted?
    requires forall x <- s, y <- t :: if ty.TypeSorted? then Before(x, y) else Before(y, x)
    ensures InOrder(s + t, ty)
  {
    assert forall k :: 0 <= k < |s| ==> s[k] in s;
    assert forall k :: 0 <= k < |t| ==> t[k] in t;
  }

  /** From a node, AxisNodes is section 2.2's axis in axis order. */
  lemma NodeAxisMeaning(env: Env, x: XNode, a: Axis, test: NodeTest)
    requires env.Valid() && env.Has(x) && x.NodeAt?
    ensures var r := AxisNodes(env, x, TreeAxis(a), test);
            InOrder(r, AxisType(TreeAxis(a))) && Elements(r) == AxisSet(env, x, TreeAxis(a), test)
  {
    LiftMeaning(env.doc, a, test, x.i);
    var r := AxisNodes(env, x, TreeAxis(a), test);
    forall y ensures y in r <==> env.Has(y) && Selects(env, x, TreeAxis(a), test, y) {
    }
  }

  lemma AttributeAxisMeaning(env: Env, x: XNode, test: NodeTest)
    requires env.Valid() && env.Has(x)
    ensures var r := AxisNodes(env, x, AttributeAxis, test);
            InOrder(r, TypeSorted) && Elements(r) == AxisSet(env, x, AttributeAxis, test)
  {
    if x.NodeAt? {
      var n := |env.attrs[x.i]|;
      AttrSeqMeaning(env, x.i, test, n);
      var q, r := AttrSeq(env, x.i, test, n), AxisNodes(env, x, AttributeAxis, test);
      forall y ensures y in r <==> env.Has(y) && Selects(env, x, AttributeAxis, test, y) {
        if test.NameTest? {
          FirstNamed(env, x.i, test, q, y);
        }
      }
    }
  }

  /** The first attribute that passes a name test is the first of its name. */
  lemma FirstNamed(env: Env, i: int, test: NodeTest, q: seq<XNode>, y: XNode)
    requires 0 <= i < |env.attrs| && test.NameTest? && InOrder(q, TypeSorted)
    requires forall y :: y in q <==> y.AttrAt? && y.i == i && y.k < |env.attrs[i]| && PassesAttr(test, AttrName(env.attrs[i][y.k]))
    ensures y in First1(true, q) <==> y in q && FirstOfName(env, i, y.k)
  {
    if q != [] {
      assert q[0] in q;
      if y in q {
        assert y != q[0] ==> Before(q[0], y);
        if !FirstOfName(env, i, y.k) {
          var m :| 0 <= m < y.k && AttrName(env.attrs[i][m]) == AttrName(env.attrs[i][y.k]);
          assert AttrAt(i, m) in q;
        }
      }
    }
  }

  lemma AttrAncestors(env: Env, x: XNode, test: NodeTest)
    requires env.Valid() && env.Has(x) && x.AttrAt?
    ensures var r := AxisNodes(env, x, TreeAxis(AncestorAxis), test);
            InOrder(r, AxisType(TreeAxis(AncestorAxis))) && Elements(r) == AxisSet(env, x, TreeAxis(AncestorAxis), test)
  {
    LiftMeaning(env.doc, AncestorOrSelf, test, x.i);
    AncestorsOfAttr(env, x, test);
  }

  lemma AncestorsOfAttr(env: Env, x: XNode, test: NodeTest)
    requires env.Valid() && env.Has(x) && x.AttrAt?
    ensures AxisNodes(env, x, TreeAxis(AncestorAxis), test) == Lift(StepSeq(env.doc, AncestorOrSelf, test, x.i))
    ensures forall y :: y in AxisSet(env, x, TreeAxis(AncestorAxis), test) <==>
              y.NodeAt? && env.doc.Has(y.i) && OnAxis(env.doc.shape, AncestorOrSelf, x.i, y.i) && Passes(test, env.doc.kind[y.i], env.doc.name[y.i])
  {
  }

  lemma AttrAncestorOrSelf(env: Env, x: XNode, test: NodeTest)
    requires env.Valid() && env.Has(x) && x.AttrAt?
    ensures var r := AxisNodes(env, x, TreeAxis(AncestorOrSelf), test);
            InOrder(r, AxisType(TreeAxis(AncestorOrSelf))) && Elements(r) == AxisSet(env, x, TreeAxis(AncestorOrSelf), test)
  {
    var own, above := SelfAttr(env, x, test), Lift(StepSeq(env.doc, AncestorOrSelf, test, x.i));
    LiftMeaning(env.doc, AncestorOrSelf, test, x.i);
    AncestorsFirst(env.doc.shape, x.i);
    ConcatOrder(own, above, TypeSortedReverse);
    SelfAndAncestors(env, x, test);
  }

  lemma SelfAndAncestors(env: Env, x: XNode, test: NodeTest)
    requires env.Valid() && env.Has(x) && x.AttrAt?
    ensures AxisNodes(env, x, TreeAxis(AncestorOrSelf), test) == SelfAttr(env, x, test) + Lift(StepSeq(env.doc, AncestorOrSelf, test, x.i))
    ensures forall y :: y in AxisSet(env, x, TreeAxis(AncestorOrSelf), test) <==>
              (y in SelfAttr(env, x, test) ||
               (y.NodeAt? && env.doc.Has(y.i) && OnAxis(env.doc.shape, AncestorOrSelf, x.i, y.i) && Passes(test, env.doc.kind[y.i], env.doc.name[y.i])))
  {
  }

  lemma AttrFollowing(env: Env, x: XNode, test: NodeTest)
    requires env.Valid() && env.Has(x) && x.AttrAt?
    ensures var r := AxisNodes(env, x, TreeAxis(Following), test);
            InOrder(r, AxisType(TreeAxis(Following))) && Elements(r) == AxisSet(env, x, TreeAxis(Following), test)
  {
    LiftMeaning(env.doc, Descendant, test, x.i);
    LiftMeaning(env.doc, Following, test, x.i);
    DescendantsFirst(env.doc.shape, x.i);
    ConcatOrder(Lift(StepSeq(env.doc, Descendant, test, x.i)), Lift(StepSeq(env.doc, Following, test, x.i)), TypeSorted);
    FollowingSeq(env, x, test);
    FollowingAttr(env, x, test);
  }

  lemma FollowingSeq(env: Env, x: XNode, test: NodeTest)
    requires env.Valid() && env.Has(x) && x.AttrAt?
    ensures AxisNodes(env, x, TreeAxis(Following), test)
      == Lift(StepSeq(env.doc, Descendant, test, x.i)) + Lift(StepSeq(env.doc, Following, test, x.i))
  {
  }

  lemma FollowingAttr(env: Env, x: XNode, test: NodeTest)
    requires env.Valid() && env.Has(x) && x.AttrAt?
    requires forall y :: env.doc.Has(y) ==>
              (y > x.i <==> OnAxis(env.doc.shape, Descendant, x.i, y) || OnAxis(env.doc.shape, Following, x.i, y))
    ensures forall y :: y in AxisSet(env, x, TreeAxis(Following), test) <==>
              (y.NodeAt? && env.doc.Has(y.i) && Passes(test, env.doc.kind[y.i], env.doc.name[y.i])
               && (OnAxis(env.doc.shape, Descendant, x.i, y.i) || OnAxis(env.doc.shape, Following, x.i, y.i)))
  {
  }

  lemma AttrParent(env: Env, x: XNode, test: NodeTest)
    requires env.Valid() && env.Has(x) && x.AttrAt?
    ensures var r := AxisNodes(env, x, TreeAxis(Parent), test);
            InOrder(r, AxisType(TreeAxis(Parent))) && Elements(r) == AxisSet(env, x, TreeAxis(Parent), test)
  {
    LiftMeaning(env.doc, Self, test, x.i);
    OwnerIsParent(env, x, test, Lift(StepSeq(env.doc, Self, test, x.i)));
  }

  lemma OwnerIsParent(env: Env, x: XNode, test: NodeTest, r: seq<XNode>)
    requires env.Valid() && env.Has(x) && x.AttrAt?
    requires forall y :: y in r <==> y.NodeAt? && env.doc.Has(y.i) && OnAxis(env.doc.shape, Self, x.i, y.i)
                                     && Passes(test, env.doc.kind[y.i], env.doc.name[y.i])
    ensures Elements(r) == AxisSet(env, x, TreeAxis(Parent), test)
  {
    forall y ensures y in r <==> env.Has(y) && Selects(env, x, TreeAxis(Parent), test, y) {
    }
  }

  lemma AttrPreceding(env: Env, x: XNode, test: NodeTest)
    requires env.Valid() && env.Has(x) && x.AttrAt?
    ensures var r := AxisNodes(env, x, TreeAxis(Preceding), test);
            InOrder(r, AxisType(TreeAxis(Preceding))) && Elements(r) == AxisSet(env, x, TreeAxis(Preceding), test)
  {
    LiftMeaning(env.doc, Preceding, test, x.i);
    forall y ensures y in AxisNodes(env, x, TreeAxis(Preceding), test) <==> env.Has(y) && Selects(env, x, TreeAxis(Preceding), test, y) {
    }
  }

  lemma AttrOthers(env: Env, x: XNode, a: Axis, test: NodeTest)
    requires env.Valid() && env.Has(x) && x.AttrAt?
    requires a.Self? || a.DescendantOrSelf? || a.Child? || a.Descendant? || a.FollowingSibling? || a.PrecedingSibling?
    ensures var r := AxisNodes(env, x, TreeAxis(a), test);
            InOrder(r, AxisType(TreeAxis(a))) && Elements(r) == AxisSet(env, x, TreeAxis(a), test)
  {
    forall y ensures y in AxisNodes(env, x, TreeAxis(a), test) <==> env.Has(y) && Selects(env, x, TreeAxis(a), test, y) {
    }
  }

  lemma AttrContextMeaning(env: Env, x: XNode, a: Axis, test: NodeTest)
    requires env.Valid() && env.Has(x) && x.AttrAt?
    ensures var r := AxisNodes(env, x, TreeAxis(a), test);
            InOrder(r, AxisType(TreeAxis(a))) && Elements(r) == AxisSet(env, x, TreeAxis(a), test)
  {
    match a
    case AncestorAxis => AttrAncestors(env, x, test);
    case AncestorOrSelf => AttrAncestorOrSelf(env, x, test);
    case Following => AttrFollowing(env, x, test);
    case Parent => AttrParent(env, x, test);
    case Preceding => AttrPreceding(env, x, test);
    case _ => AttrOthers(env, x, a, test);
  }

  lemma AncestorsFirst(s: Shape, i: int)
    requires s.Valid() && s.Has(i)
    ensures forall j {:trigger OnAxis(s, AncestorOrSelf, i, j)} :: s.Has(j) && OnAxis(s, AncestorOrSelf, i, j) ==> j <= i
  {
    forall j | s.Has(j) && OnAxis(s, AncestorOrSelf, i, j) ensures j <= i {
      AxisPositions(s, AncestorOrSelf, i, j);
    }
  }

  lemma DescendantsFirst(s: Shape, i: int)
    requires s.Valid() && s.Has(i)
    ensures forall j {:trigger s.Has(j)} :: s.Has(j) ==>
              (OnAxis(s, Descendant, i, j) <==> i < j < s.end[i]) && (OnAxis(s, Following, i, j) <==> s.end[i] <= j)
  {
    forall j | s.Has(j)
      ensures (OnAxis(s, Descendant, i, j) <==> i < j < s.end[i]) && (OnAxis(s, Following, i, j) <==> s.end[i] <= j)
    {
      AxisPositions(s, Descendant, i, j);
      AxisPositions(s, Following, i, j);
    }
  }

  /** The walk along an axis, seen from any context node, delivers exactly the axis, in axis order. */
  lemma AxisMeaning(env: Env, x: XNode, axis: XAxis, test: NodeTest)
    requires env.Valid() && env.Has(x)
    ensures InOrder(AxisNodes(env, x, axis, test), AxisType(axis))
    ensures Elements(AxisNodes(env, x, axis, test)) == AxisSet(env, x, axis, test)
  {
    match axis
    case AttributeAxis => AttributeAxisMeaning(env, x, test);
    case TreeAxis(a) => if x.NodeAt? { NodeAxisMeaning(env, x, a, test); } else { AttrContextMeaning(env, x, a, test); }
  }

  // ---------- modes ----------

  lemma FirstIsUnique(s: set<XNode>, x: XNode)
    requires IsFirst(s, x)
    ensures x == FirstOf(s)
  {
  }

  /** Stopping at the first node is right whenever eval_once says so. */
  lemma LimitCovers(mode: Mode, ty: SetType, items: seq<XNode>)
    requires InOrder(items, ty)
    ensures Covers(mode, First1(EvalOnce(ty, mode), items), Elements(items))
  {
    if items != [] {
      assert items[0] in items;
      if ty == TypeSorted {
        assert IsFirst(Elements(items), items[0]);
        FirstIsUnique(Elements(items), items[0]);
      }
    }
  }

  lemma JoinCovers(mode: Mode, a: seq<XNode>, b: seq<XNode>, s: set<XNode>, t: set<XNode>)
    requires Covers(mode, a, s) && Covers(mode, b, t)
    ensures Covers(mode, a + b, s + t)
  {
    if mode == EvalFirst && s + t != {} {
      var m := FirstOf(s + t);
      if m in s { FirstIsUnique(s, m); } else { FirstIsUnique(t, m); }
    }
  }

  lemma SameElementsCover(mode: Mode, a: seq<XNode>, b: seq<XNode>, s: set<XNode>)
    requires Covers(mode, a, s) && Elements(a) == Elements(b)
    ensures Covers(mode, b, s)
  {
    if mode == EvalFirst && s != {} { assert FirstOf(s) in Elements(a); }
    if mode == EvalAny && s != {} { assert a[0] in Elements(a); }
  }

  // ---------- predicates over sequences ----------

  /** The nodes among the first `n` of `items` that pass, each judged by its place in `items`. */
  ghost function Passing(env: Env, pred: Expr, items: seq<XNode>, n: nat): seq<XNode>
    requires env.Valid() && Typed(env, pred) && n <= |items| && forall x <- items :: env.Has(x)
  {
    if n == 0 then []
    else Passing(env, pred, items, n - 1) + (if Holds(env, pred, items[n - 1], n, |items|) then [items[n - 1]] else [])
  }

  lemma {:induction false} PassingElements(env: Env, pred: Expr, items: seq<XNode>, n: nat)
    requires env.Valid() && Typed(env, pred) && n <= |items| && forall x <- items :: env.Has(x)
    ensures forall x :: x in Passing(env, pred, items, n) <==>
              exists k :: 0 <= k < n && items[k] == x && Holds(env, pred, items[k], k + 1, |items|)
    ensures |Passing(env, pred, items, n)| <= n
  {
    if n > 0 {
      PassingElements(env, pred, items, n - 1);
    }
  }

  lemma {:induction false} PassingOrder(env: Env, pred: Expr, items: seq<XNode>, n: nat, ty: SetType)
    requires env.Valid() && Typed(env, pred) && n <= |items| && forall x <- items :: env.Has(x)
    requires InOrder(items, ty)
    ensures InOrder(Passing(env, pred, items, n), ty)
  {
    if n > 0 {
      PassingOrder(env, pred, items, n - 1, ty);
      PassingElements(env, pred, items, n - 1);
      var q := Passing(env, pred, items, n - 1);
      forall a | 0 <= a < |q|
        ensures exists k :: 0 <= k < n - 1 && items[k] == q[a]
      {
        assert q[a] in q;
      }
    }
  }

  lemma {:induction false} ElementsSize(s: seq<XNode>)
    requires NoRepeat(s)
    ensures |Elements(s)| == |s|
  {
    if s != [] {
      var k := |s| - 1;
      ElementsSize(s[..k]);
      assert s == s[..k] + [s[k]];
      ElementsSnoc(s[..k], s[k]);
    }
  }

  /** In a sequence in axis order the place of a node is its proximity position. */
  lemma PlaceIsPosition(s: seq<XNode>, ty: SetType, k: int)
    requires InOrder(s, ty) && !ty.TypeUnsorted? && 0 <= k < |s|
    ensures PositionIn(Elements(s), s[k], ty.TypeSortedReverse?) == k + 1
    ensures |Elements(s)| == |s|
  {
    var reverse := ty.TypeSortedReverse?;
    var y := s[k];
    var earlier := NoLater(Elements(s), y, reverse);
    forall z ensures z in earlier <==> z in s[..k + 1] {
      if z in s {
        var j :| 0 <= j < |s| && s[j] == z;
        if j <= k { assert s[..k + 1][j] == z; }
      }
    }
    assert earlier == Elements(s[..k + 1]);
    ElementsSize(s[..k + 1]);
    ElementsSize(s);
  }

  lemma PassingIffHolds(env: Env, pred: Expr, items: seq<XNode>, k: int)
    requires env.Valid() && Typed(env, pred) && forall x <- items :: env.Has(x)
    requires NoRepeat(items) && 0 <= k < |items|
    ensures items[k] in Passing(env, pred, items, |items|) <==> Holds(env, pred, items[k], k + 1, |items|)
  {
    PassingElements(env, pred, items, |items|);
  }

  lemma PassingAt(env: Env, pred: Expr, items: seq<XNode>, ty: SetType, k: int)
    requires env.Valid() && Typed(env, pred) && forall x <- items :: env.Has(x)
    requires InOrder(items, ty) && !ty.TypeUnsorted? && 0 <= k < |items|
    ensures items[k] in Passing(env, pred, items, |items|) <==> items[k] in Kept(env, Elements(items), ty.TypeSortedReverse?, pred)
  {
    OrderedNoRepeat(items, ty);
    PassingIffHolds(env, pred, items, k);
    PlaceIsPosition(items, ty, k);
  }

  /** Filtering a sequence in axis order is the predicate of section 2.4. */
  lemma PassingIsKept(env: Env, pred: Expr, items: seq<XNode>, ty: SetType)
    requires env.Valid() && Typed(env, pred) && forall x <- items :: env.Has(x)
    requires InOrder(items, ty) && !ty.TypeUnsorted?
    ensures InOrder(Passing(env, pred, items, |items|), ty)
    ensures Elements(Passing(env, pred, items, |items|)) == Kept(env, Elements(items), ty.TypeSortedReverse?, pred)
  {
    PassingOrder(env, pred, items, |items|, ty);
    PassingElements(env, pred, items, |items|);
    var p, q := Passing(env, pred, items, |items|), Kept(env, Elements(items), ty.TypeSortedReverse?, pred);
    forall x ensures x in p <==> x in q {
      if x in items {
        var k :| 0 <= k < |items| && items[k] == x;
        PassingAt(env, pred, items, ty, k);
      }
    }
  }

  /** For a position independent predicate the order does not matter. */
  lemma PassingIsKeptAnyOrder(env: Env, pred: Expr, items: seq<XNode>, ty: SetType, reverse: bool)
    requires env.Valid() && Typed(env, pred) && forall x <- items :: env.Has(x)
    requires InOrder(items, ty) && TypeOf(pred) != NumberType && IsPosInvExpr(pred)
    ensures InOrder(Passing(env, pred, items, |items|), ty)
    ensures Elements(Passing(env, pred, items, |items|)) == Kept(env, Elements(items), reverse, pred)
  {
    PassingOrder(env, pred, items, |items|, ty);
    PassingElements(env, pred, items, |items|);
    forall y, p, s, p', s' | env.Has(y)
      ensures Holds(env, pred, y, p, s) == Holds(env, pred, y, p', s')
    {
      PosInvIndependent(env, pred, Some(y), p, s, p', s');
    }
  }

  /** A predicate classified as constant selects at most the place it names. */
  lemma ConstantHolds(env: Env, pred: Expr, y: XNode, position: int, size: int, c: Context)
    requires env.Valid() && Typed(env, pred) && env.Has(y) && IsConstant(pred) && c == Context(None, 1, size)
    ensures Holds(env, pred, y, position, size) <==> Evaluate(env, pred, c).n == position as real
  {
  }
}
