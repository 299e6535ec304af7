/** What the operators and conversions of XPath 1.0 do to values (sections 3.3 to 3.5 and 4), in plain
    arithmetic and logic. */
module XPathLaws {
  import opened Wrappers
  import opened Tree
  import opened Axes
  import opened Order
  import opened XPathSpec

  /** An expression has the value its operator gives the values of its operands, the left one first. */
  lemma OfOperands(env: Env, op: BinOp, l: Expr, r: Expr, c: Context)
    requires env.Valid() && Typed(env, Bin(op, l, r)) && GoodContext(env, c) && !op.OptCompareAttribute?
    ensures Evaluate(env, Bin(op, l, r), c) == EvaluateBin(env, op, Evaluate(env, l, c), Evaluate(env, r, c))
  {
  }

  // ---------- numbers (sections 3.4 and 3.5) ----------

  lemma Arithmetic(env: Env, x: real, y: real)
    ensures EvaluateBin(env, AddOp, NumberV(x), NumberV(y)) == NumberV(x + y)
    ensures EvaluateBin(env, SubOp, NumberV(x), NumberV(y)) == NumberV(x - y)
    ensures EvaluateBin(env, MulOp, NumberV(x), NumberV(y)) == NumberV(x * y)
    ensures EvaluateUn(env, NegateOp, NumberV(x), false) == NumberV(0.0 - x)
  {
  }

  lemma NumbersCompared(env: Env, x: real, y: real)
    ensures EvaluateBin(env, EqualOp, NumberV(x), NumberV(y)) == BooleanV(x == y)
    ensures EvaluateBin(env, NotEqualOp, NumberV(x), NumberV(y)) == BooleanV(x != y)
    ensures EvaluateBin(env, LessOp, NumberV(x), NumberV(y)) == BooleanV(x < y)
    ensures EvaluateBin(env, LessEqOp, NumberV(x), NumberV(y)) == BooleanV(x <= y)
    ensures EvaluateBin(env, GreaterOp, NumberV(x), NumberV(y)) == BooleanV(x > y)
    ensures EvaluateBin(env, GreaterEqOp, NumberV(x), NumberV(y)) == BooleanV(x >= y)
  {
    NumbersBelow(env, x, y);
    NumbersBelow(env, y, x);
  }

  lemma NumbersBelow(env: Env, x: real, y: real)
    ensures CompareRel(env, false, NumberV(x), NumberV(y)) <==> x < y
    ensures CompareRel(env, true, NumberV(x), NumberV(y)) <==> x <= y
  {
    assert NumberOf(env, NumberV(x), x) && NumberOf(env, NumberV(y), y);
  }

  /** Everything else is made a number first. */
  lemma AsNumbers(env: Env, op: BinOp, a: Value, b: Value)
    requires GoodValue(env, a) && GoodValue(env, b) && (op == AddOp || op == SubOp || op == MulOp)
    ensures EvaluateBin(env, op, a, b)
      == EvaluateBin(env, op, EvaluateUn(env, NumberOp, a, a.NodesV?), EvaluateUn(env, NumberOp, b, b.NodesV?))
  {
  }

  // ---------- strings ----------

  lemma Strings(env: Env, a: string, b: string)
    ensures EvaluateBin(env, EqualOp, StringV(a), StringV(b)) == BooleanV(a == b)
    ensures EvaluateBin(env, NotEqualOp, StringV(a), StringV(b)) == BooleanV(a != b)
    ensures EvaluateBin(env, ConcatOp, StringV(a), StringV(b)) == StringV(a + b)
    ensures EvaluateBin(env, StartsWithOp, StringV(a), StringV(b)) == BooleanV(exists rest :: a == b + rest)
  {
    if Prefixes(b, a) {
      assert a == b + a[|b|..];
    }
  }

  // ---------- node sets: some node will do (section 3.4) ----------

  lemma SetsCompared(env: Env, s: set<XNode>, t: set<XNode>)
    requires (forall x <- s :: env.Has(x)) && forall y <- t :: env.Has(y)
    ensures EvaluateBin(env, EqualOp, NodesV(s), NodesV(t))
      == BooleanV(exists x, y :: x in s && y in t && env.StringValue(x) == env.StringValue(y))
    ensures EvaluateBin(env, NotEqualOp, NodesV(s), NodesV(t))
      == BooleanV(exists x, y :: x in s && y in t && env.StringValue(x) != env.StringValue(y))
  {
  }

  lemma SetEqualsNumber(env: Env, s: set<XNode>, n: real)
    requires forall x <- s :: env.Has(x)
    ensures EvaluateBin(env, EqualOp, NodesV(s), NumberV(n)) == BooleanV(exists x :: x in s && env.toNumber(env.StringValue(x)) == n)
    ensures EvaluateBin(env, NotEqualOp, NodesV(s), NumberV(n)) == BooleanV(exists x :: x in s && env.toNumber(env.StringValue(x)) != n)
  {
  }

  lemma SetBelowNumber(env: Env, s: set<XNode>, n: real)
    requires forall x <- s :: env.Has(x)
    ensures EvaluateBin(env, LessOp, NodesV(s), NumberV(n)) == BooleanV(exists x :: x in s && env.toNumber(env.StringValue(x)) < n)
    ensures EvaluateBin(env, GreaterOp, NodesV(s), NumberV(n)) == BooleanV(exists x :: x in s && env.toNumber(env.StringValue(x)) > n)
  {
    assert NumberOf(env, NumberV(n), n);
    forall x | x in s ensures NumberOf(env, NodesV(s), env.toNumber(env.StringValue(x))) {
    }
  }

  lemma SetEqualsString(env: Env, s: set<XNode>, t: string)
    requires forall x <- s :: env.Has(x)
    ensures EvaluateBin(env, EqualOp, NodesV(s), StringV(t)) == BooleanV(exists x :: x in s && env.StringValue(x) == t)
    ensures EvaluateBin(env, NotEqualOp, NodesV(s), StringV(t)) == BooleanV(exists x :: x in s && env.StringValue(x) != t)
  {
  }

  lemma Sets(env: Env, s: set<XNode>, t: set<XNode>)
    requires (forall x <- s :: env.Has(x)) && forall y <- t :: env.Has(y)
    ensures EvaluateBin(env, UnionOp, NodesV(s), NodesV(t)) == NodesV(s + t)
    ensures EvaluateUn(env, CountOp, NodesV(s), true) == NumberV(|s| as real)
  {
  }

  // ---------- booleans (sections 3.4 and 4.3) ----------

  ghost predicate True(env: Env, v: Value)
    requires GoodValue(env, v)
  {
    EvaluateUn(env, BooleanOp, v, v.NodesV?) == BooleanV(true)
  }

  /** boolean(): some node, a number other than zero, some text. */
  lemma Truth(env: Env, v: Value)
    requires GoodValue(env, v)
    ensures match v
      case NodesV(s) => True(env, v) <==> exists x :: x in s
      case NumberV(n) => True(env, v) <==> n < 0.0 || n > 0.0
      case StringV(t) => True(env, v) <==> |t| > 0
      case BooleanV(b) => True(env, v) <==> b
  {
    if v.NodesV? && v.nodes != {} {
      var x :| x in v.nodes;
    }
  }

  lemma Logic(env: Env, a: Value, b: Value)
    requires GoodValue(env, a) && GoodValue(env, b)
    ensures EvaluateBin(env, OrOp, a, b) == BooleanV(True(env, a) || True(env, b))
    ensures EvaluateBin(env, AndOp, a, b) == BooleanV(True(env, a) && True(env, b))
    ensures EvaluateUn(env, NotOp, a, a.NodesV?) == BooleanV(!True(env, a))
  {
  }

  /** A boolean on one side of = makes both sides booleans. */
  lemma EqualsBoolean(env: Env, v: Value, b: bool)
    requires GoodValue(env, v)
    ensures EvaluateBin(env, EqualOp, v, BooleanV(b)) == EvaluateBin(env, EqualOp, BooleanV(b), v) == BooleanV(True(env, v) == b)
    ensures EvaluateBin(env, NotEqualOp, v, BooleanV(b)) == EvaluateBin(env, NotEqualOp, BooleanV(b), v) == BooleanV(True(env, v) != b)
  {
  }

  // ---------- conversions (sections 4.2 and 4.4) ----------

  /** string(): of a node set, the string value of the node that comes first, or nothing. */
  lemma FirstAsString(env: Env, s: set<XNode>, x: XNode)
    requires (forall y <- s :: env.Has(y)) && x in s && forall y <- s :: x == y || Before(x, y)
    ensures EvaluateUn(env, StringOp, NodesV(s), true) == StringV(env.StringValue(x))
    ensures EvaluateUn(env, NumberOp, NodesV(s), true) == NumberV(env.toNumber(env.StringValue(x)))
  {
    var f := FirstOf(s);
    assert f in s && (x == f || Before(x, f)) && (x == f || Before(f, x));
  }

  lemma Conversions(env: Env, b: bool, t: string, n: real)
    ensures EvaluateUn(env, StringOp, NodesV({}), true) == StringV("")
    ensures EvaluateUn(env, StringOp, BooleanV(b), false) == StringV(if b then "true" else "false")
    ensures EvaluateUn(env, NumberOp, BooleanV(b), false) == NumberV(if b then 1.0 else 0.0)
    ensures EvaluateUn(env, NumberOp, StringV(t), false) == NumberV(env.toNumber(t))
    ensures EvaluateUn(env, StringOp, NumberV(n), false) == StringV(env.toText(n))
  {
  }
}
