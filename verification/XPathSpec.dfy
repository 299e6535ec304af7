/** XPath expressions and what they mean (XPath 1.0, sections 2 to 4), stated on sets of nodes and
    without any of the evaluator's shortcuts. */
module XPathSpec {
  import opened Wrappers
  import opened Tree
  import opened Axes
  import opened Order

  /** A document with its attributes, the string values of its nodes, and the conversions between
      strings and numbers. `addr` stands for the addresses nodes and attributes happen to have. */
  datatype Env = Env(doc: Doc, attrs: seq<seq<Attr>>, text: int -> string,
                     toNumber: string -> real, toText: real -> string, addr: XNode -> int, reading: Reading) {
    ghost predicate Valid() {
      doc.Valid() && |attrs| == doc.shape.Size()
      && forall x, y :: x != y ==> addr(x) != addr(y)
    }

    predicate Has(x: XNode) {
      0 <= x.i < |attrs| && (x.AttrAt? ==> 0 <= x.k < |attrs[x.i]|)
    }

    /** The same document under another reading of the relational operators. */
    function By(r: Reading): Env { this.(reading := r) }

    function StringValue(x: XNode): string
      requires Has(x)
    {
      if x.NodeAt? then text(x.i) else attrs[x.i][x.k].value
    }
  }

  /** How <, <=, > and >= take a node set against a boolean: section 3.4 of XPath 1.0 converts the node
      set to a boolean; the library compares the number of each node. */
  datatype Reading = Recommendation | Library

  datatype XAxis = TreeAxis(axis: Axis) | AttributeAxis

  datatype SetType = TypeUnsorted | TypeSorted | TypeSortedReverse

  /** xpath_node_set_raw: an array of nodes and the order it is in. */
  datatype NodeSet = NodeSet(ty: SetType, items: seq<XNode>)

  datatype VarValue = VNum(n: real) | VStr(s: string) | VBool(b: bool) | VSet(ns: NodeSet)

  datatype BinOp =
    | OrOp | AndOp | EqualOp | NotEqualOp | LessOp | GreaterOp | LessEqOp | GreaterEqOp
    | AddOp | SubOp | MulOp | ConcatOp | StartsWithOp | UnionOp | OptCompareAttribute

  datatype UnOp = NegateOp | CountOp | IdOp | StringOp | NumberOp | BooleanOp | NotOp

  /** How a predicate was classified by the optimizer. */
  datatype PredTest = PredDefault | PredPosInv | PredConstant | PredConstantOne

  datatype Expr =
    | Str(s: string) | Num(n: real) | Bool(b: bool) | Var(v: VarValue)
    | Position | Last | ContextString
    | Un(uop: UnOp, arg: Expr)
    | Bin(bop: BinOp, l: Expr, r: Expr)
    | Root
    | Step(left: Source, axis: XAxis, test: NodeTest, preds: Preds)
    | Filter(of: Expr, pred: Expr, ptest: PredTest)

  datatype Source = FromContext | From(e: Expr)

  datatype Preds = NoPreds | Preds(expr: Expr, ptest: PredTest, next: Preds)

  datatype RetType = NodeSetType | NumberType | StringType | BooleanType

  function TypeOf(e: Expr): RetType {
    match e
    case Str(_) => StringType
    case Num(_) => NumberType
    case Bool(_) => BooleanType
    case Var(v) => (match v case VNum(_) => NumberType case VStr(_) => StringType case VBool(_) => BooleanType case VSet(_) => NodeSetType)
    case Position => NumberType
    case Last => NumberType
    case ContextString => StringType
    case Un(op, _) =>
      (match op case NegateOp => NumberType case CountOp => NumberType case NumberOp => NumberType
                case IdOp => NodeSetType case StringOp => StringType case BooleanOp => BooleanType case NotOp => BooleanType)
    case Bin(op, _, _) =>
      if op.AddOp? || op.SubOp? || op.MulOp? then NumberType
      else if op.ConcatOp? then StringType
      else if op.UnionOp? then NodeSetType
      else BooleanType
    case Root => NodeSetType
    case Step(_, _, _, _) => NodeSetType
    case Filter(_, _, _) => NodeSetType
  }

  /** The strict sequence order a set type promises. */
  ghost predicate InOrder(items: seq<XNode>, ty: SetType) {
    match ty
    case TypeSorted => forall a, b :: 0 <= a < b < |items| ==> Before(items[a], items[b])
    case TypeSortedReverse => forall a, b :: 0 <= a < b < |items| ==> Before(items[b], items[a])
    case TypeUnsorted => forall a, b :: 0 <= a < b < |items| ==> items[a] != items[b]
  }

  ghost predicate GoodSet(env: Env, ns: NodeSet) {
    InOrder(ns.items, ns.ty) && forall x <- ns.items :: env.Has(x)
  }

  /** What the parser guarantees: node sets where node sets are needed, non-empty names in name tests;
      and a node-set variable holds a set in the order its type says. */
  ghost predicate Typed(env: Env, e: Expr) {
    match e
    case Var(v) => v.VSet? ==> GoodSet(env, v.ns)
    case Un(op, a) => Typed(env, a) && (op.CountOp? ==> TypeOf(a) == NodeSetType)
    case Bin(op, l, r) =>
      && Typed(env, l) && Typed(env, r)
      && (op.UnionOp? ==> TypeOf(l) == TypeOf(r) == NodeSetType)
      && (op.OptCompareAttribute? ==> IsAttributeStep(l) && IsStringOperand(r))
    case Step(left, _, test, preds) =>
      && (left.From? ==> Typed(env, left.e) && TypeOf(left.e) == NodeSetType)
      && (test.NameTest? ==> test.qname != "") && TypedPreds(env, preds)
    case Filter(of, pred, _) => Typed(env, of) && TypeOf(of) == NodeSetType && Typed(env, pred)
    case _ => true
  }

  ghost predicate TypedPreds(env: Env, ps: Preds) {
    ps.Preds? ==> Typed(env, ps.expr) && TypedPreds(env, ps.next)
  }

  /** `@name`, from the context node, without predicates. */
  predicate IsAttributeStep(e: Expr) {
    e.Step? && e.axis.AttributeAxis? && e.test.NameTest? && e.left.FromContext? && e.preds.NoPreds?
  }

  predicate IsStringOperand(e: Expr) {
    e.Str? || (e.Var? && e.v.VStr?)
  }

  datatype Context = Context(n: Option<XNode>, position: int, size: int)

  ghost predicate GoodContext(env: Env, c: Context) {
    c.n.Some? ==> env.Has(c.n.value)
  }

  datatype Value = NodesV(nodes: set<XNode>) | NumberV(n: real) | StringV(s: string) | BooleanV(b: bool)

  // ---------- axes over nodes and attributes ----------

  function AttrName(a: Attr): string { if a.name.Some? then a.name.value else "" }

  /** Namespace declarations are not attributes to XPath (section 5.3). */
  predicate IsXPathAttribute(name: string) {
    !(Prefixes("xmlns", name) && (|name| == 5 || name[5] == ':'))
  }

  /** The node test on the attribute axis, whose principal node type is attribute (section 2.3). */
  predicate PassesAttr(test: NodeTest, name: string) {
    IsXPathAttribute(name) &&
    match test
    case NameTest(q) => name == q
    case TypeNode => true
    case All => true
    case AllInNamespace(p) => Prefixes(p, name)
    case _ => false
  }

  /** An element is taken to have one attribute of a name: the first. */
  ghost predicate FirstOfName(env: Env, i: int, k: int)
    requires 0 <= i < |env.attrs| && 0 <= k < |env.attrs[i]|
  {
    forall m :: 0 <= m < k ==> AttrName(env.attrs[i][m]) != AttrName(env.attrs[i][k])
  }

  /** `y` is on the axis of `x` and passes the test. An attribute has a parent and ancestors, is itself
      and its own descendant-or-self, and shares what precedes and follows with the nodes around it. */
  ghost predicate Selects(env: Env, x: XNode, axis: XAxis, test: NodeTest, y: XNode)
    requires env.Valid() && env.Has(x) && env.Has(y)
  {
    var d := env.doc;
    match axis
    case AttributeAxis =>
      x.NodeAt? && y.AttrAt? && y.i == x.i && PassesAttr(test, AttrName(env.attrs[y.i][y.k]))
      && (test.NameTest? ==> FirstOfName(env, y.i, y.k))
    case TreeAxis(a) =>
      if y.AttrAt? then
        x == y && (a.Self? || a.DescendantOrSelf? || a.AncestorOrSelf?) && test.TypeNode?
        && IsXPathAttribute(AttrName(env.attrs[y.i][y.k]))
      else
        && Passes(test, d.kind[y.i], d.name[y.i])
        && if x.NodeAt? then OnAxis(d.shape, a, x.i, y.i)
           else match a
             case AncestorAxis => y.i == x.i || d.shape.Ancestor(y.i, x.i)
             case AncestorOrSelf => y.i == x.i || d.shape.Ancestor(y.i, x.i)
             case Parent => y.i == x.i
             case Following => y.i > x.i
             case Preceding => y.i < x.i && !d.shape.Ancestor(y.i, x.i)
             case _ => false
  }

  ghost function Everything(env: Env): (s: set<XNode>)
    ensures forall x :: x in s <==> env.Has(x)
  {
    (set i | 0 <= i < |env.attrs| :: NodeAt(i)) +
    (set i, k | 0 <= i < |env.attrs| && 0 <= k < |env.attrs[i]| :: AttrAt(i, k))
  }

  ghost function AxisSet(env: Env, x: XNode, axis: XAxis, test: NodeTest): (s: set<XNode>)
    requires env.Valid() && env.Has(x)
  {
    set y | y in Everything(env) && Selects(env, x, axis, test, y)
  }

  predicate ReverseAxis(axis: XAxis) {
    axis.TreeAxis? && IsReverse(axis.axis)
  }

  // ---------- conversions (sections 3.2, 4.2, 4.3, 4.4) ----------

  /** The first of a non-empty set in document order. */
  ghost predicate IsFirst(s: set<XNode>, x: XNode) {
    x in s && forall y <- s :: y != x ==> Before(x, y)
  }

  ghost function FirstOf(s: set<XNode>): (x: XNode)
    requires s != {}
    ensures IsFirst(s, x)
  {
    var y :| y in s;
    var t := s - {y};
    if t == {} then
      assert forall z <- s :: z == y by { assert forall z <- s :: z != y ==> z in t; }
      y
    else
      var m := FirstOf(t);
      assert forall z <- s :: z != y ==> z in t;
      if Before(y, m) then y else m
  }

  ghost predicate GoodValue(env: Env, v: Value) {
    v.NodesV? ==> forall x <- v.nodes :: env.Has(x)
  }

  ghost function ToStr(env: Env, v: Value): string
    requires GoodValue(env, v)
  {
    match v
    case NodesV(s) => if s == {} then "" else env.StringValue(FirstOf(s))
    case NumberV(n) => env.toText(n)
    case StringV(s) => s
    case BooleanV(b) => if b then "true" else "false"
  }

  ghost function ToNum(env: Env, v: Value): real
    requires GoodValue(env, v)
  {
    match v
    case NumberV(n) => n
    case BooleanV(b) => if b then 1.0 else 0.0
    case _ => env.toNumber(ToStr(env, v))
  }

  ghost function ToBool(env: Env, v: Value): bool {
    match v
    case NodesV(s) => s != {}
    case NumberV(n) => n != 0.0
    case StringV(s) => s != ""
    case BooleanV(b) => b
  }

  // ---------- comparisons (section 3.4) ----------

  predicate Same<T(==)>(negated: bool, x: T, y: T) { if negated then x != y else x == y }

  ghost predicate CompareEq(env: Env, negated: bool, a: Value, b: Value)
    requires GoodValue(env, a) && GoodValue(env, b)
  {
    if a.NodesV? && b.NodesV? then
      exists x, y :: x in a.nodes && y in b.nodes && Same(negated, env.StringValue(x), env.StringValue(y))
    else if a.BooleanV? || b.BooleanV? then Same(negated, ToBool(env, a), ToBool(env, b))
    else if a.NodesV? then CompareToNodes(env, negated, b, a.nodes)
    else if b.NodesV? then CompareToNodes(env, negated, a, b.nodes)
    else if a.NumberV? || b.NumberV? then Same(negated, ToNum(env, a), ToNum(env, b))
    else Same(negated, ToStr(env, a), ToStr(env, b))
  }

  ghost predicate CompareToNodes(env: Env, negated: bool, v: Value, s: set<XNode>)
    requires (v.NumberV? || v.StringV?) && forall x <- s :: env.Has(x)
  {
    if v.NumberV? then exists x :: x in s && Same(negated, v.n, env.toNumber(env.StringValue(x)))
    else exists x :: x in s && Same(negated, v.s, env.StringValue(x))
  }

  predicate Below(orEqual: bool, x: real, y: real) { if orEqual then x <= y else x < y }

  ghost predicate NumberOf(env: Env, v: Value, n: real)
    requires GoodValue(env, v)
  {
    if v.NodesV? then exists x :: x in v.nodes && n == env.toNumber(env.StringValue(x)) else n == ToNum(env, v)
  }

  function Unit(b: bool): real { if b then 1.0 else 0.0 }

  /** A node set on one side and a boolean on the other. */
  predicate SetWithBoolean(a: Value, b: Value) {
    (a.NodesV? && b.BooleanV?) || (a.BooleanV? && b.NodesV?)
  }

  /** Some number of the one operand against some number of the other. */
  ghost predicate SomeBelow(env: Env, orEqual: bool, a: Value, b: Value)
    requires GoodValue(env, a) && GoodValue(env, b)
  {
    exists x, y :: NumberOf(env, a, x) && NumberOf(env, b, y) && Below(orEqual, x, y)
  }

  ghost predicate CompareRel(env: Env, orEqual: bool, a: Value, b: Value)
    requires GoodValue(env, a) && GoodValue(env, b)
  {
    if env.reading.Recommendation? && SetWithBoolean(a, b) then Below(orEqual, Unit(ToBool(env, a)), Unit(ToBool(env, b)))
    else SomeBelow(env, orEqual, a, b)
  }

  // ---------- evaluation ----------

  /** Proximity position (section 2.4): how many nodes of the set come no later along the axis. */
  ghost function PositionIn(s: set<XNode>, y: XNode, reverse: bool): int {
    |NoLater(s, y, reverse)|
  }

  ghost function NoLater(s: set<XNode>, y: XNode, reverse: bool): set<XNode> {
    set z | z in s && (z == y || if reverse then Before(y, z) else Before(z, y))
  }

  ghost function Evaluate(env: Env, e: Expr, c: Context): (v: Value)
    requires env.Valid() && Typed(env, e) && GoodContext(env, c)
    ensures GoodValue(env, v)
    ensures match TypeOf(e) case NodeSetType => v.NodesV? case NumberType => v.NumberV?
                            case StringType => v.StringV? case BooleanType => v.BooleanV?
    decreases e, 0
  {
    match e
    case Str(s) => StringV(s)
    case Num(n) => NumberV(n)
    case Bool(b) => BooleanV(b)
    case Var(v) =>
      (match v case VNum(n) => NumberV(n) case VStr(s) => StringV(s) case VBool(b) => BooleanV(b)
               case VSet(ns) => NodesV(set x <- ns.items))
    case Position => NumberV(c.position as real)
    case Last => NumberV(c.size as real)
    case ContextString => StringV(if c.n.Some? then env.StringValue(c.n.value) else "")
    case Un(op, a) => EvaluateUn(env, op, Evaluate(env, a, c), TypeOf(a) == NodeSetType)
    case Bin(op, l, r) => EvaluateBin(env, op, Evaluate(env, l, c), Evaluate(env, r, c))
    case Root => NodesV(if c.n.Some? then {NodeAt(0)} else {})
    case Step(left, axis, test, preds) =>
      var from := if left.From? then Evaluate(env, left.e, c).nodes else if c.n.Some? then {c.n.value} else {};
      NodesV(set x, y | x in from && y in StepFrom(env, x, axis, test, preds) :: y)
    case Filter(of, pred, _) => NodesV(Kept(env, Evaluate(env, of, c).nodes, false, pred))
  }

  ghost function EvaluateUn(env: Env, op: UnOp, v: Value, isSet: bool): Value
    requires GoodValue(env, v) && (op.CountOp? ==> v.NodesV?)
  {
    match op
    case NegateOp => NumberV(-ToNum(env, v))
    case CountOp => NumberV(|v.nodes| as real)
    case IdOp => NodesV({})
    case StringOp => StringV(ToStr(env, v))
    case NumberOp => NumberV(ToNum(env, v))
    case BooleanOp => BooleanV(ToBool(env, v))
    case NotOp => BooleanV(!ToBool(env, v))
  }

  ghost function EvaluateBin(env: Env, op: BinOp, a: Value, b: Value): Value
    requires GoodValue(env, a) && GoodValue(env, b) && (op.UnionOp? ==> a.NodesV? && b.NodesV?)
  {
    match op
    case OrOp => BooleanV(ToBool(env, a) || ToBool(env, b))
    case AndOp => BooleanV(ToBool(env, a) && ToBool(env, b))
    case EqualOp => BooleanV(CompareEq(env, false, a, b))
    case NotEqualOp => BooleanV(CompareEq(env, true, a, b))
    case LessOp => BooleanV(CompareRel(env, false, a, b))
    case GreaterOp => BooleanV(CompareRel(env, false, b, a))
    case LessEqOp => BooleanV(CompareRel(env, true, a, b))
    case GreaterEqOp => BooleanV(CompareRel(env, true, b, a))
    case AddOp => NumberV(ToNum(env, a) + ToNum(env, b))
    case SubOp => NumberV(ToNum(env, a) - ToNum(env, b))
    case MulOp => NumberV(ToNum(env, a) * ToNum(env, b))
    case ConcatOp => StringV(ToStr(env, a) + ToStr(env, b))
    case StartsWithOp => BooleanV(Prefixes(ToStr(env, b), ToStr(env, a)))
    case UnionOp => NodesV(a.nodes + b.nodes)
    case OptCompareAttribute => BooleanV(CompareEq(env, false, a, b))
  }

  /** One step from one node: axis, node test, then each predicate in turn over what is left. */
  ghost function StepFrom(env: Env, x: XNode, axis: XAxis, test: NodeTest, preds: Preds): (s: set<XNode>)
    requires env.Valid() && env.Has(x) && TypedPreds(env, preds)
    ensures forall y <- s :: env.Has(y)
    decreases preds, 1
  {
    KeptAll(env, AxisSet(env, x, axis, test), ReverseAxis(axis), preds)
  }

  ghost function KeptAll(env: Env, s: set<XNode>, reverse: bool, preds: Preds): (r: set<XNode>)
    requires env.Valid() && TypedPreds(env, preds) && forall y <- s :: env.Has(y)
    ensures r <= s
    decreases preds, 0
  {
    if preds.NoPreds? then s
    else KeptAll(env, Kept(env, s, reverse, preds.expr), reverse, preds.next)
  }

  /** The nodes of `s` for which the predicate holds (section 2.4). */
  ghost function Kept(env: Env, s: set<XNode>, reverse: bool, pred: Expr): (r: set<XNode>)
    requires env.Valid() && Typed(env, pred) && forall y <- s :: env.Has(y)
    ensures r <= s
    decreases pred, 2
  {
    set y | y in s && Holds(env, pred, y, PositionIn(s, y, reverse), |s|)
  }

  ghost predicate Holds(env: Env, pred: Expr, y: XNode, position: int, size: int)
    requires env.Valid() && Typed(env, pred) && env.Has(y)
    decreases pred, 1
  {
    var v := Evaluate(env, pred, Context(Some(y), position, size));
    if TypeOf(pred) == NumberType then v.n == position as real else ToBool(env, v)
  }
}
