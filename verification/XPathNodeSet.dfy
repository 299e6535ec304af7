/** Node sets: sorting into document order, removing duplicates, and the first node. */
module XPathNodeSet {
  import opened Order
  import opened Sort
  import opened XPathSpec

  /** What the document order comparator answers: it takes an attribute to come before itself. */
  predicate DocLess(x: XNode, y: XNode) {
    if x == y then x.AttrAt? else Before(x, y)
  }

  /** duplicate_comparator: attributes first, then by address. */
  predicate AddressLess(env: Env, x: XNode, y: XNode) {
    if x.AttrAt? then (if y.AttrAt? then env.addr(x) < env.addr(y) else true)
    else (if y.AttrAt? then false else env.addr(x) < env.addr(y))
  }

  ghost function Elements(s: seq<XNode>): set<XNode> { set x <- s }

  ghost predicate NoRepeat(s: seq<XNode>) {
    forall i, j :: 0 <= i < j < |s| ==> s[i] != s[j]
  }

  lemma DocLessDecides()
    ensures Decides(DocLess, Before)
  {
  }

  lemma OrderedNoRepeat(s: seq<XNode>, ty: SetType)
    requires InOrder(s, ty)
    ensures NoRepeat(s)
  {
  }

  lemma RearrangedElements(s: seq<XNode>, t: seq<XNode>)
    requires Rearranged(s, t, 0, |s|)
    ensures Elements(t) == Elements(s) && |t| == |s| && (NoRepeat(s) ==> NoRepeat(t))
  {
    assert s[0..|s|] == s && t[0..|s|] == t;
    forall x ensures x in t <==> x in s {
      assert x in multiset(t) <==> x in multiset(s);
    }
    if NoRepeat(s) { DistinctMultiset(s, t); }
  }

  /** xpath_get_order: ascending, descending or neither. */
  method GetOrder(s: seq<XNode>) returns (ty: SetType)
    requires NoRepeat(s)
    ensures InOrder(s, ty)
  {
    if |s| < 2 { return TypeSorted; }
    var first := DocLess(s[0], s[1]);
    var it := 1;
    while it + 1 < |s|
      invariant 1 <= it < |s|
      invariant if first then InOrder(s[..it + 1], TypeSorted) else InOrder(s[..it + 1], TypeSortedReverse)
    {
      if DocLess(s[it], s[it + 1]) != first { return TypeUnsorted; }
      ghost var p := s[..it + 1];
      assert s[..it + 2] == p + [s[it + 1]] && p[it] == s[it];
      it := it + 1;
    }
    assert s[..it + 1] == s;
    return if first then TypeSorted else TypeSortedReverse;
  }

  ghost function Reversed(s: seq<XNode>): seq<XNode> {
    seq(|s|, i requires 0 <= i < |s| => s[|s| - 1 - i])
  }

  /** reverse: swaps from both ends. */
  method Reverse(a: array<XNode>)
    modifies a
    ensures a[..] == Reversed(old(a[..]))
  {
    var begin, end := 0, a.Length;
    while end - begin > 1
      invariant 0 <= begin <= end && begin + end == a.Length
      invariant forall k :: 0 <= k < begin || end <= k < a.Length ==> a[k] == old(a[a.Length - 1 - k])
      invariant forall k :: begin <= k < end ==> a[k] == old(a[k])
    {
      end := end - 1;
      a[begin], a[end] := a[end], a[begin];
      begin := begin + 1;
    }
  }

  lemma ReversedElements(s: seq<XNode>)
    ensures Elements(Reversed(s)) == Elements(s)
  {
    forall x ensures x in Reversed(s) <==> x in s {
      if x in s { var k :| 0 <= k < |s| && s[k] == x; assert Reversed(s)[|s| - 1 - k] == x; }
    }
  }

  ghost function OrderType(rev: bool): SetType { if rev then TypeSortedReverse else TypeSorted }

  /** xpath_sort: into document order, or reverse document order. */
  method XPathSort(items: seq<XNode>, ty0: SetType, rev: bool) returns (out: seq<XNode>, ty: SetType)
    requires InOrder(items, ty0)
    ensures ty == OrderType(rev) && InOrder(out, ty) && Elements(out) == Elements(items) && |out| == |items|
  {
    OrderedNoRepeat(items, ty0);
    var order := if rev then TypeSortedReverse else TypeSorted;
    var a := new XNode[|items|](i requires 0 <= i < |items| => items[i]);
    assert a[..] == items;
    ty := ty0;
    if ty == TypeUnsorted {
      var sorted := GetOrder(items);
      if sorted == TypeUnsorted {
        SortItems(a);
        ty := TypeSorted;
      } else {
        ty := sorted;
      }
    }
    ghost var s := a[..];
    if ty != order {
      Reverse(a);
      ReversedElements(s);
    }
    out, ty := a[..], order;
  }

  method SortItems(a: array<XNode>)
    requires NoRepeat(a[..])
    modifies a
    ensures InOrder(a[..], TypeSorted) && Elements(a[..]) == Elements(old(a[..]))
  {
    ghost var s := a[..];
    DocLessDecides();
    assert a[0..a.Length] == s;
    ghost var depth := Sort.Sort(a, 0, a.Length, DocLess, Before);
    RearrangedElements(s, a[..]);
    assert forall i, j :: 0 <= i < j < a.Length ==> Le(Before, a[i], a[j]);
  }

  /** Runs of equal neighbours shrunk to one. */
  ghost function Collapse(s: seq<XNode>): seq<XNode> {
    if |s| <= 1 then s
    else if s[|s| - 1] == s[|s| - 2] then Collapse(s[..|s| - 1])
    else Collapse(s[..|s| - 1]) + [s[|s| - 1]]
  }

  lemma {:induction false} CollapseEnds(s: seq<XNode>)
    requires s != []
    ensures Collapse(s) != [] && Collapse(s)[|Collapse(s)| - 1] == s[|s| - 1] && |Collapse(s)| <= |s|
  {
    if |s| > 1 { CollapseEnds(s[..|s| - 1]); }
  }

  /** unique: returns how many elements remain in front. */
  method Unique(a: array<XNode>) returns (n: nat)
    modifies a
    ensures n <= a.Length && a[..n] == Collapse(old(a[..]))
  {
    ghost var s := a[..];
    var begin, end := 0, a.Length;
    while end - begin > 1 && a[begin] != a[begin + 1]
      invariant 0 <= begin <= end == a.Length && (begin < end || end == 0)
      invariant begin < end ==> Collapse(s[..begin + 1]) == s[..begin + 1]
    {
      assert s[..begin + 2][..begin + 1] == s[..begin + 1];
      begin := begin + 1;
    }
    if begin == end { assert s == []; return 0; }
    var write := begin;
    begin := begin + 1;
    while begin != end
      invariant 0 <= write < begin <= end
      invariant Merging(s, a[..], write, begin)
      decreases end - begin
    {
      MergeStep(s, a[..], write, begin);
      ghost var t := a[..];
      if a[begin] != a[write] {
        write := write + 1;
        a[write] := a[begin];
        assert a[..] == t[write := t[begin]];
      }
      begin := begin + 1;
    }
    assert s[..begin] == s;
    return write + 1;
  }

  /** The front [0, write] of `t` is what the first `begin` elements of `s` shrink to; the rest is as in `s`. */
  ghost predicate Merging(s: seq<XNode>, t: seq<XNode>, write: int, begin: int) {
    0 <= write < begin <= |s| == |t| && t[..write + 1] == Collapse(s[..begin]) && t[begin..] == s[begin..]
  }

  lemma MergeStep(s: seq<XNode>, t: seq<XNode>, write: int, begin: int)
    requires Merging(s, t, write, begin) && begin < |s|
    ensures if t[begin] == t[write] then Merging(s, t, write, begin + 1)
            else Merging(s, t[write + 1 := t[begin]], write + 1, begin + 1)
  {
    var p, q := s[..begin], s[..begin + 1];
    assert q[..begin] == p && q[begin - 1] == p[begin - 1];
    CollapseEnds(p);
    assert t[begin] == t[begin..][0] == s[begin];
    assert t[write] == t[..write + 1][write] == s[begin - 1];
    var u := t[write + 1 := t[begin]];
    assert t[begin + 1..] == s[begin + 1..] && u[begin + 1..] == s[begin + 1..];
    assert u[..write + 2] == t[..write + 1] + [t[begin]];
  }

  lemma ElementsSnoc(s: seq<XNode>, x: XNode)
    ensures Elements(s + [x]) == Elements(s) + {x}
  {
  }

  lemma {:induction false} CollapseSorted(lt: (XNode, XNode) -> bool, s: seq<XNode>)
    requires StrictTotal(lt) && SortedIn(lt, s, 0, |s|)
    ensures Elements(Collapse(s)) == Elements(s) && NoRepeat(Collapse(s))
    ensures forall x <- Collapse(s) :: Le(lt, x, s[|s| - 1])
  {
    if |s| > 1 {
      var k := |s| - 1;
      var q := s[..k];
      CollapseSorted(lt, q);
      CollapseEnds(q);
      assert s == q + [s[k]] && q[k - 1] == s[k - 1];
      ElementsSnoc(q, s[k]);
      assert Le(lt, s[k - 1], s[k]);
      if s[k] == s[k - 1] {
        assert s[k - 1] in q;
      } else {
        ElementsSnoc(Collapse(q), s[k]);
      }
    }
  }

  /** remove_duplicates on an unsorted array: every element once. */
  method RemoveDuplicates(env: Env, items: seq<XNode>) returns (out: seq<XNode>)
    requires env.Valid()
    ensures NoRepeat(out) && Elements(out) == Elements(items)
  {
    var less := (x, y) => AddressLess(env, x, y);
    assert Decides(less, less);
    var a := new XNode[|items|](i requires 0 <= i < |items| => items[i]);
    assert a[..] == items && a[0..a.Length] == a[..];
    ghost var depth := Sort.Sort(a, 0, a.Length, less, less);
    ghost var s := a[..];
    RearrangedElements(items, s);
    CollapseSorted(less, s);
    var n := Unique(a);
    out := a[..n];
  }

  /** xpath_first of a non-empty set. */
  method First(ns: NodeSet) returns (x: XNode)
    requires ns.items != [] && InOrder(ns.items, ns.ty)
    ensures IsFirst(Elements(ns.items), x)
  {
    match ns.ty
    case TypeSorted => x := ns.items[0];
    case TypeSortedReverse => x := ns.items[|ns.items| - 1];
    case TypeUnsorted => x := MinElement(ns.items);
  }

  /** min_element by document order. */
  method MinElement(s: seq<XNode>) returns (x: XNode)
    requires s != [] && NoRepeat(s)
    ensures IsFirst(Elements(s), x)
  {
    var result := 0;
    for it := 1 to |s|
      invariant 0 <= result < it
      invariant forall k :: 0 <= k < it && k != result ==> Before(s[result], s[k])
    {
      if DocLess(s[it], s[result]) { result := it; }
    }
    x := s[result];
  }
}
