/** XPath axes: what each axis contains (XPath 1.0, section 2.2) and the pointer walks that
    enumerate it. */
module Axes {
  import opened Wrappers
  import opened Tree

  datatype Axis =
    | AncestorAxis | AncestorOrSelf | Child | Descendant | DescendantOrSelf | Following
    | FollowingSibling | Parent | Preceding | PrecedingSibling | Self

  datatype NodeTest =
    | NameTest(qname: string) | TypeNode | TypeComment | TypePi | TypeText
    | PiTest(target: string) | All | AllInNamespace(prefix: string)

  /** A document: its shape, and kind and name of every node. */
  datatype Doc = Doc(shape: Shape, kind: seq<Kind>, name: seq<Option<string>>) {
    ghost predicate Valid() {
      shape.Valid() && |kind| == |name| == shape.Size()
    }

    predicate Has(i: int) { shape.Has(i) }
  }

  ghost predicate DocRepresents(nodes: seq<Node>, d: Doc)
    reads nodes
  {
    && d.Valid() && Represents(nodes, d.shape)
    && (forall i {:trigger Labelled(nodes, d, i)} :: 0 <= i < |nodes| ==> Labelled(nodes, d, i))
  }

  ghost predicate Labelled(nodes: seq<Node>, d: Doc, i: int)
    requires d.Valid() && |nodes| == d.shape.Size() && 0 <= i < |nodes|
    reads nodes[i]
  {
    nodes[i].kind == d.kind[i] && nodes[i].name == d.name[i]
  }

  /** Reverse axes deliver their nodes in reverse document order. */
  predicate IsReverse(axis: Axis) {
    axis.AncestorAxis? || axis.AncestorOrSelf? || axis.Preceding? || axis.PrecedingSibling?
  }

  /** Section 2.2 of XPath 1.0: node `j` is on `axis` of context node `i`. */
  ghost predicate OnAxis(s: Shape, axis: Axis, i: int, j: int)
    requires s.Valid() && s.Has(i) && s.Has(j)
  {
    match axis
    case AncestorAxis => s.Ancestor(j, i)
    case AncestorOrSelf => j == i || s.Ancestor(j, i)
    case Child => j > 0 && s.par[j] == i
    case Descendant => s.Ancestor(i, j)
    case DescendantOrSelf => j == i || s.Ancestor(i, j)
    case Following => j > i && !s.Ancestor(i, j)
    case FollowingSibling => j > i > 0 && s.par[j] == s.par[i]
    case Parent => i > 0 && j == s.par[i]
    case Preceding => j < i && !s.Ancestor(j, i)
    case PrecedingSibling => 0 < j < i && s.par[j] == s.par[i]
    case Self => j == i
  }

  /** The same, read off the positions: what the walks go by. */
  predicate InAxis(s: Shape, axis: Axis, i: int, j: int)
    requires s.Valid() && s.Has(i) && s.Has(j)
  {
    match axis
    case AncestorAxis => j < i < s.end[j]
    case AncestorOrSelf => j <= i < s.end[j]
    case Child => j > 0 && s.par[j] == i
    case Descendant => i < j < s.end[i]
    case DescendantOrSelf => i <= j < s.end[i]
    case Following => s.end[i] <= j
    case FollowingSibling => j > i > 0 && s.par[j] == s.par[i]
    case Parent => i > 0 && j == s.par[i]
    case Preceding => s.end[j] <= i
    case PrecedingSibling => 0 < j < i && s.par[j] == s.par[i]
    case Self => j == i
  }

  lemma AxisPositions(s: Shape, axis: Axis, i: int, j: int)
    requires s.Valid() && s.Has(i) && s.Has(j)
    ensures InAxis(s, axis, i, j) <==> OnAxis(s, axis, i, j)
  {
    s.AncestorInterval(i, j);
    s.AncestorInterval(j, i);
  }

  predicate Prefixes(p: string, s: string) {
    |p| <= |s| && s[..|p|] == p
  }

  /** The node test for a node that is not an attribute. */
  predicate Passes(test: NodeTest, kind: Kind, name: Option<string>) {
    match test
    case NameTest(q) => kind.Element? && name == Some(q)
    case TypeNode => true
    case TypeComment => kind.Comment?
    case TypeText => kind.Pcdata? || kind.Cdata?
    case TypePi => kind.Pi?
    case PiTest(t) => kind.Pi? && name == Some(t)
    case All => kind.Element?
    case AllInNamespace(p) => kind.Element? && name.Some? && Prefixes(p, name.value)
  }

  predicate Selected(d: Doc, axis: Axis, test: NodeTest, i: int, j: int)
    requires d.Valid() && d.Has(i) && d.Has(j)
  {
    InAxis(d.shape, axis, i, j) && Passes(test, d.kind[j], d.name[j])
  }

  function Opt(b: bool, j: int): seq<int> { if b then [j] else [] }

  /** The selected positions of [lo, hi), ascending. */
  function Up(d: Doc, axis: Axis, test: NodeTest, i: int, lo: int, hi: int): (r: seq<int>)
    requires d.Valid() && d.Has(i) && 0 <= lo && hi <= d.shape.Size()
    decreases hi - lo
  {
    if lo >= hi then [] else Up(d, axis, test, i, lo, hi - 1) + Opt(Selected(d, axis, test, i, hi - 1), hi - 1)
  }

  /** The selected positions of [lo, hi), descending. */
  function Down(d: Doc, axis: Axis, test: NodeTest, i: int, lo: int, hi: int): (r: seq<int>)
    requires d.Valid() && d.Has(i) && 0 <= lo && hi <= d.shape.Size()
    decreases hi - lo
  {
    if lo >= hi then [] else Down(d, axis, test, i, lo + 1, hi) + Opt(Selected(d, axis, test, i, lo), lo)
  }

  /** All nodes a step selects from `i`, in the order of its axis. */
  function StepSeq(d: Doc, axis: Axis, test: NodeTest, i: int): seq<int>
    requires d.Valid() && d.Has(i)
  {
    if IsReverse(axis) then Down(d, axis, test, i, 0, d.shape.Size()) else Up(d, axis, test, i, 0, d.shape.Size())
  }

  function Limit(once: bool, s: seq<int>): seq<int> {
    if once && |s| > 1 then s[..1] else s
  }

  ghost predicate InRange(idx: seq<int>, n: nat) {
    forall k :: 0 <= k < |idx| ==> 0 <= idx[k] < n
  }

  ghost function Refs(nodes: seq<Node>, idx: seq<int>): (r: seq<Node>)
    requires InRange(idx, |nodes|)
    ensures |r| == |idx| && forall k :: 0 <= k < |idx| ==> r[k] == nodes[idx[k]]
  {
    if idx == [] then [] else Refs(nodes, idx[..|idx| - 1]) + [nodes[idx[|idx| - 1]]]
  }

  ghost predicate Ordered(s: seq<int>, reverse: bool) {
    forall a, b :: 0 <= a < b < |s| ==> if reverse then s[a] > s[b] else s[a] < s[b]
  }

  lemma OrderedSnoc(s: seq<int>, x: int, reverse: bool)
    requires Ordered(s, reverse) && forall j <- s :: if reverse then j > x else j < x
    ensures Ordered(s + [x], reverse)
  {
    assert forall k :: 0 <= k < |s| ==> s[k] in s;
  }

  lemma {:induction false} UpElements(d: Doc, axis: Axis, test: NodeTest, i: int, lo: int, hi: int)
    requires d.Valid() && d.Has(i) && 0 <= lo && hi <= d.shape.Size()
    ensures var r := Up(d, axis, test, i, lo, hi);
            && (forall j :: j in r <==> lo <= j < hi && Selected(d, axis, test, i, j))
            && Ordered(r, false)
    decreases hi - lo
  {
    if lo < hi {
      UpElements(d, axis, test, i, lo, hi - 1);
      var q := Up(d, axis, test, i, lo, hi - 1);
      if Selected(d, axis, test, i, hi - 1) {
        OrderedSnoc(q, hi - 1, false);
      } else {
        assert q + [] == q;
      }
    }
  }

  lemma {:induction false} DownElements(d: Doc, axis: Axis, test: NodeTest, i: int, lo: int, hi: int)
    requires d.Valid() && d.Has(i) && 0 <= lo && hi <= d.shape.Size()
    ensures var r := Down(d, axis, test, i, lo, hi);
            && (forall j :: j in r <==> lo <= j < hi && Selected(d, axis, test, i, j))
            && Ordered(r, true)
    decreases hi - lo
  {
    if lo < hi {
      DownElements(d, axis, test, i, lo + 1, hi);
      var q := Down(d, axis, test, i, lo + 1, hi);
      if Selected(d, axis, test, i, lo) {
        OrderedSnoc(q, lo, true);
      } else {
        assert q + [] == q;
      }
    }
  }

  /** A walk in progress: `ns` has grown by exactly the selected positions `seen`; with `once` it
      would have stopped at the first of them. */
  ghost predicate Going(nodes: seq<Node>, ns0: seq<Node>, ns: seq<Node>, once: bool, seen: seq<int>) {
    && InRange(seen, |nodes|)
    && ns == ns0 + Refs(nodes, seen)
    && (once ==> seen == [])
  }

  /** `seen` lists the selected positions of [lo, hi) in axis order. */
  ghost predicate Enumerates(d: Doc, axis: Axis, test: NodeTest, i: int, lo: int, hi: int, seen: seq<int>)
    requires d.Valid() && d.Has(i)
  {
    && 0 <= lo <= hi <= d.shape.Size()
    && (forall j {:trigger j in seen} :: j in seen <==> lo <= j < hi && Selected(d, axis, test, i, j))
    && Ordered(seen, IsReverse(axis))
  }

  /** The walk has dealt with exactly the positions of [lo, hi). */
  ghost predicate Swept(nodes: seq<Node>, d: Doc, axis: Axis, test: NodeTest, i: int, lo: int, hi: int, once: bool,
                        ns0: seq<Node>, ns: seq<Node>)
    requires d.Valid() && d.Has(i)
  {
    exists seen :: Enumerates(d, axis, test, i, lo, hi, seen) && Going(nodes, ns0, ns, once, seen)
  }

  /** No position of [lo, hi) passes. */
  ghost predicate Blank(d: Doc, axis: Axis, test: NodeTest, i: int, lo: int, hi: int)
    requires d.Valid() && d.Has(i) && 0 <= lo && hi <= d.shape.Size()
  {
    forall j {:trigger Selected(d, axis, test, i, j)} :: lo <= j < hi ==> !Selected(d, axis, test, i, j)
  }

  /** A finished walk over `all`. */
  ghost predicate Filled(nodes: seq<Node>, ns0: seq<Node>, ns: seq<Node>, once: bool, all: seq<int>) {
    && InRange(Limit(once, all), |nodes|)
    && ns == ns0 + Refs(nodes, Limit(once, all))
  }

  /** step_push for a node. */
  method StepPush(ns: seq<Node>, cur: Node, test: NodeTest) returns (out: seq<Node>, pushed: bool)
    ensures pushed == Passes(test, cur.kind, cur.name)
    ensures out == if pushed then ns + [cur] else ns
  {
    pushed := Passes(test, cur.kind, cur.name);
    out := if pushed then ns + [cur] else ns;
  }

  lemma RefsSnoc(nodes: seq<Node>, idx: seq<int>, c: int)
    requires InRange(idx, |nodes|) && 0 <= c < |nodes|
    ensures InRange(idx + [c], |nodes|) && Refs(nodes, idx + [c]) == Refs(nodes, idx) + [nodes[c]]
  {
    assert (idx + [c])[..|idx|] == idx;
  }

  /** Strictly ordered sequences with the same elements are equal. */
  lemma {:induction false} Enumeration(d: Doc, axis: Axis, test: NodeTest, i: int, r: seq<int>, seen: seq<int>)
    requires d.Valid() && d.Has(i) && r == StepSeq(d, axis, test, i)
    requires Enumerates(d, axis, test, i, 0, d.shape.Size(), seen)
    ensures r == seen
  {
    if IsReverse(axis) {
      DownElements(d, axis, test, i, 0, d.shape.Size());
      SameOrdered(r, seen, true);
    } else {
      UpElements(d, axis, test, i, 0, d.shape.Size());
      SameOrdered(r, seen, false);
    }
  }

  lemma DropLast(s: seq<int>, reverse: bool)
    requires s != [] && Ordered(s, reverse)
    ensures var q := s[..|s| - 1];
            Ordered(q, reverse) && forall j :: j in q <==> j in s && j != s[|s| - 1]
  {
    var q := s[..|s| - 1];
    forall j ensures j in q <==> j in s && j != s[|s| - 1] {
      if j in s && j != s[|s| - 1] {
        var k :| 0 <= k < |s| && s[k] == j;
        assert q[k] == j;
      }
    }
  }

  lemma {:induction false} SameOrdered(r: seq<int>, s: seq<int>, reverse: bool)
    requires forall j :: j in r <==> j in s
    requires Ordered(r, reverse) && Ordered(s, reverse)
    ensures r == s
  {
    assert s != [] ==> s[0] in s;
    assert r != [] ==> r[0] in r;
    if r != [] && s != [] {
      var m, k := |r| - 1, |s| - 1;
      assert r[m] in s && s[k] in r;
      assert r[m] == s[k];
      DropLast(r, reverse);
      DropLast(s, reverse);
      SameOrdered(r[..m], s[..k], reverse);
      assert r == r[..m] + [r[m]] && s == s[..k] + [s[k]];
    }
  }

  lemma StartUp(nodes: seq<Node>, d: Doc, axis: Axis, test: NodeTest, i: int, c: int, once: bool, ns: seq<Node>)
    requires d.Valid() && d.Has(i) && 0 <= c <= d.shape.Size() && Blank(d, axis, test, i, 0, c)
    ensures Swept(nodes, d, axis, test, i, 0, c, once, ns, ns)
  {
    assert Enumerates(d, axis, test, i, 0, c, []) && Going(nodes, ns, ns, once, []);
  }

  lemma StartDown(nodes: seq<Node>, d: Doc, axis: Axis, test: NodeTest, i: int, c: int, once: bool, ns: seq<Node>)
    requires d.Valid() && d.Has(i) && 0 <= c <= d.shape.Size() && Blank(d, axis, test, i, c, d.shape.Size())
    ensures Swept(nodes, d, axis, test, i, c, d.shape.Size(), once, ns, ns)
  {
    assert Enumerates(d, axis, test, i, c, d.shape.Size(), []) && Going(nodes, ns, ns, once, []);
  }

  lemma SkipUp(nodes: seq<Node>, d: Doc, axis: Axis, test: NodeTest, i: int, c: int, c': int, once: bool,
               ns0: seq<Node>, ns: seq<Node>)
    requires d.Valid() && d.Has(i) && 0 <= c <= c' <= d.shape.Size() && Blank(d, axis, test, i, c, c')
    requires Swept(nodes, d, axis, test, i, 0, c, once, ns0, ns)
    ensures Swept(nodes, d, axis, test, i, 0, c', once, ns0, ns)
  {
    var seen :| Enumerates(d, axis, test, i, 0, c, seen) && Going(nodes, ns0, ns, once, seen);
    assert Enumerates(d, axis, test, i, 0, c', seen);
  }

  lemma SkipDown(nodes: seq<Node>, d: Doc, axis: Axis, test: NodeTest, i: int, c: int, c': int, once: bool,
                 ns0: seq<Node>, ns: seq<Node>)
    requires d.Valid() && d.Has(i) && 0 <= c' <= c <= d.shape.Size() && Blank(d, axis, test, i, c', c)
    requires Swept(nodes, d, axis, test, i, c, d.shape.Size(), once, ns0, ns)
    ensures Swept(nodes, d, axis, test, i, c', d.shape.Size(), once, ns0, ns)
  {
    var seen :| Enumerates(d, axis, test, i, c, d.shape.Size(), seen) && Going(nodes, ns0, ns, once, seen);
    assert Enumerates(d, axis, test, i, c', d.shape.Size(), seen);
  }

  lemma EndUp(nodes: seq<Node>, d: Doc, axis: Axis, test: NodeTest, i: int, c: int, once: bool,
              ns0: seq<Node>, ns: seq<Node>)
    requires d.Valid() && d.Has(i) && 0 <= c <= d.shape.Size() && Blank(d, axis, test, i, c, d.shape.Size())
    requires Swept(nodes, d, axis, test, i, 0, c, once, ns0, ns)
    ensures Filled(nodes, ns0, ns, once, StepSeq(d, axis, test, i))
  {
    SkipUp(nodes, d, axis, test, i, c, d.shape.Size(), once, ns0, ns);
    Finish(nodes, d, axis, test, i, once, ns0, ns);
  }

  lemma EndDown(nodes: seq<Node>, d: Doc, axis: Axis, test: NodeTest, i: int, c: int, once: bool,
                ns0: seq<Node>, ns: seq<Node>)
    requires d.Valid() && d.Has(i) && 0 <= c <= d.shape.Size() && Blank(d, axis, test, i, 0, c)
    requires Swept(nodes, d, axis, test, i, c, d.shape.Size(), once, ns0, ns)
    ensures Filled(nodes, ns0, ns, once, StepSeq(d, axis, test, i))
  {
    SkipDown(nodes, d, axis, test, i, c, 0, once, ns0, ns);
    Finish(nodes, d, axis, test, i, once, ns0, ns);
  }

  lemma Finish(nodes: seq<Node>, d: Doc, axis: Axis, test: NodeTest, i: int, once: bool, ns0: seq<Node>, ns: seq<Node>)
    requires d.Valid() && d.Has(i) && Swept(nodes, d, axis, test, i, 0, d.shape.Size(), once, ns0, ns)
    ensures Filled(nodes, ns0, ns, once, StepSeq(d, axis, test, i))
  {
    var seen :| Enumerates(d, axis, test, i, 0, d.shape.Size(), seen) && Going(nodes, ns0, ns, once, seen);
    Enumeration(d, axis, test, i, StepSeq(d, axis, test, i), seen);
  }

  lemma HeadUp(d: Doc, axis: Axis, test: NodeTest, i: int, c: int)
    requires d.Valid() && d.Has(i) && d.Has(c) && Selected(d, axis, test, i, c) && Blank(d, axis, test, i, 0, c)
    ensures var r := Up(d, axis, test, i, 0, d.shape.Size()); r != [] && r[0] == c
  {
    var r := Up(d, axis, test, i, 0, d.shape.Size());
    UpElements(d, axis, test, i, 0, d.shape.Size());
    assert c in r && r[0] in r;
  }

  lemma HeadDown(d: Doc, axis: Axis, test: NodeTest, i: int, c: int)
    requires d.Valid() && d.Has(i) && d.Has(c) && Selected(d, axis, test, i, c) && Blank(d, axis, test, i, c + 1, d.shape.Size())
    ensures var r := Down(d, axis, test, i, 0, d.shape.Size()); r != [] && r[0] == c
  {
    var r := Down(d, axis, test, i, 0, d.shape.Size());
    DownElements(d, axis, test, i, 0, d.shape.Size());
    assert c in r && r[0] in r;
  }

  lemma StepSeqHead(d: Doc, axis: Axis, test: NodeTest, i: int, c: int)
    requires d.Valid() && d.Has(i) && d.Has(c) && Selected(d, axis, test, i, c)
    requires if IsReverse(axis) then Blank(d, axis, test, i, c + 1, d.shape.Size()) else Blank(d, axis, test, i, 0, c)
    ensures StepSeq(d, axis, test, i) != [] && StepSeq(d, axis, test, i)[0] == c
  {
    if IsReverse(axis) {
      HeadDown(d, axis, test, i, c);
    } else {
      HeadUp(d, axis, test, i, c);
    }
  }

  /** With `once`, the first node pushed is the first of the whole axis. */
  lemma StopAt(nodes: seq<Node>, d: Doc, axis: Axis, test: NodeTest, i: int, c: int, ns0: seq<Node>)
    requires d.Valid() && d.Has(i) && d.Has(c) && |nodes| == d.shape.Size() && Selected(d, axis, test, i, c)
    requires if IsReverse(axis) then Blank(d, axis, test, i, c + 1, d.shape.Size()) else Blank(d, axis, test, i, 0, c)
    ensures Filled(nodes, ns0, ns0 + [nodes[c]], true, StepSeq(d, axis, test, i))
  {
    StepSeqHead(d, axis, test, i, c);
    RefsSnoc(nodes, [], c);
    assert Limit(true, StepSeq(d, axis, test, i)) == [] + [c];
  }

  lemma EnumeratesSnoc(d: Doc, axis: Axis, test: NodeTest, i: int, lo: int, hi: int, seen: seq<int>,
                       lo': int, hi': int, c: int)
    requires d.Valid() && d.Has(i) && d.Has(c) && Selected(d, axis, test, i, c)
    requires Enumerates(d, axis, test, i, lo, hi, seen)
    requires if IsReverse(axis) then hi' == hi && lo' == c && lo == c + 1 else lo' == lo && hi == c && hi' == c + 1
    ensures Enumerates(d, axis, test, i, lo', hi', seen + [c])
  {
    OrderedSnoc(seen, c, IsReverse(axis));
    assert forall j :: j in seen + [c] <==> j in seen || j == c;
  }

  /** Pushing position `c` next to the swept range: with `once` the walk is over. */
  lemma PushLast(nodes: seq<Node>, d: Doc, axis: Axis, test: NodeTest, i: int, lo: int, hi: int, c: int,
                 ns0: seq<Node>, ns: seq<Node>)
    requires d.Valid() && d.Has(i) && d.Has(c) && |nodes| == d.shape.Size() && Selected(d, axis, test, i, c)
    requires if IsReverse(axis) then hi == d.shape.Size() && lo == c + 1 else lo == 0 && hi == c
    requires Swept(nodes, d, axis, test, i, lo, hi, true, ns0, ns)
    ensures Filled(nodes, ns0, ns + [nodes[c]], true, StepSeq(d, axis, test, i))
  {
    var seen :| Enumerates(d, axis, test, i, lo, hi, seen) && Going(nodes, ns0, ns, true, seen);
    forall j | lo <= j < hi ensures !Selected(d, axis, test, i, j) {
      assert j !in seen;
    }
    StopAt(nodes, d, axis, test, i, c, ns0);
  }

  lemma GoesOn(nodes: seq<Node>, ns0: seq<Node>, ns: seq<Node>, seen: seq<int>, c: int)
    requires Going(nodes, ns0, ns, false, seen) && 0 <= c < |nodes|
    ensures Going(nodes, ns0, ns + [nodes[c]], false, seen + [c])
  {
    RefsSnoc(nodes, seen, c);
    assert ns0 + Refs(nodes, seen) + [nodes[c]] == ns0 + (Refs(nodes, seen) + [nodes[c]]);
  }

  lemma PushMore(nodes: seq<Node>, d: Doc, axis: Axis, test: NodeTest, i: int, lo: int, hi: int, lo': int, hi': int,
                 c: int, ns0: seq<Node>, ns: seq<Node>)
    requires d.Valid() && d.Has(i) && d.Has(c) && |nodes| == d.shape.Size() && Selected(d, axis, test, i, c)
    requires if IsReverse(axis) then hi' == hi && lo' == c && lo == c + 1 else lo' == lo && hi == c && hi' == c + 1
    requires Swept(nodes, d, axis, test, i, lo, hi, false, ns0, ns)
    ensures Swept(nodes, d, axis, test, i, lo', hi', false, ns0, ns + [nodes[c]])
  {
    var seen :| Enumerates(d, axis, test, i, lo, hi, seen) && Going(nodes, ns0, ns, false, seen);
    GoesOn(nodes, ns0, ns, seen, c);
    EnumeratesSnoc(d, axis, test, i, lo, hi, seen, lo', hi', c);
  }

  lemma VisitedUp(nodes: seq<Node>, d: Doc, axis: Axis, test: NodeTest, i: int, c: int, once: bool,
                  ns0: seq<Node>, ns: seq<Node>)
    requires d.Valid() && d.Has(i) && d.Has(c) && |nodes| == d.shape.Size()
    requires !IsReverse(axis) && InAxis(d.shape, axis, i, c) && Swept(nodes, d, axis, test, i, 0, c, once, ns0, ns)
    ensures if !Selected(d, axis, test, i, c) then Swept(nodes, d, axis, test, i, 0, c + 1, once, ns0, ns)
            else if once then Filled(nodes, ns0, ns + [nodes[c]], once, StepSeq(d, axis, test, i))
            else Swept(nodes, d, axis, test, i, 0, c + 1, once, ns0, ns + [nodes[c]])
  {
    if !Selected(d, axis, test, i, c) {
      SkipUp(nodes, d, axis, test, i, c, c + 1, once, ns0, ns);
    } else if once {
      PushLast(nodes, d, axis, test, i, 0, c, c, ns0, ns);
    } else {
      PushMore(nodes, d, axis, test, i, 0, c, 0, c + 1, c, ns0, ns);
    }
  }

  lemma VisitedDown(nodes: seq<Node>, d: Doc, axis: Axis, test: NodeTest, i: int, c: int, once: bool,
                    ns0: seq<Node>, ns: seq<Node>)
    requires d.Valid() && d.Has(i) && d.Has(c) && |nodes| == d.shape.Size()
    requires IsReverse(axis) && InAxis(d.shape, axis, i, c)
    requires Swept(nodes, d, axis, test, i, c + 1, d.shape.Size(), once, ns0, ns)
    ensures if !Selected(d, axis, test, i, c) then Swept(nodes, d, axis, test, i, c, d.shape.Size(), once, ns0, ns)
            else if once then Filled(nodes, ns0, ns + [nodes[c]], once, StepSeq(d, axis, test, i))
            else Swept(nodes, d, axis, test, i, c, d.shape.Size(), once, ns0, ns + [nodes[c]])
  {
    if !Selected(d, axis, test, i, c) {
      SkipDown(nodes, d, axis, test, i, c + 1, c, once, ns0, ns);
    } else if once {
      PushLast(nodes, d, axis, test, i, c + 1, d.shape.Size(), c, ns0, ns);
    } else {
      PushMore(nodes, d, axis, test, i, c + 1, d.shape.Size(), c, d.shape.Size(), c, ns0, ns);
    }
  }

  /** `step_push(...) & once` on a forward axis: pushes position `c` and says whether to return. */
  method VisitUp(nodes: seq<Node>, ghost d: Doc, ghost axis: Axis, test: NodeTest, ghost i: int, ghost c: int,
                 cur: Node, once: bool, ghost ns0: seq<Node>, ns: seq<Node>) returns (out: seq<Node>, stop: bool)
    requires DocRepresents(nodes, d) && d.Has(i) && d.Has(c) && cur == nodes[c]
    requires !IsReverse(axis) && InAxis(d.shape, axis, i, c)
    requires Swept(nodes, d, axis, test, i, 0, c, once, ns0, ns)
    ensures stop ==> Filled(nodes, ns0, out, once, StepSeq(d, axis, test, i))
    ensures !stop ==> Swept(nodes, d, axis, test, i, 0, c + 1, once, ns0, out)
  {
    var pushed;
    assert Labelled(nodes, d, c);
    out, pushed := StepPush(ns, cur, test);
    stop := pushed && once;
    VisitedUp(nodes, d, axis, test, i, c, once, ns0, ns);
  }

  /** The same on a reverse axis. */
  method VisitDown(nodes: seq<Node>, ghost d: Doc, ghost axis: Axis, test: NodeTest, ghost i: int, ghost c: int,
                   cur: Node, once: bool, ghost ns0: seq<Node>, ns: seq<Node>) returns (out: seq<Node>, stop: bool)
    requires DocRepresents(nodes, d) && d.Has(i) && d.Has(c) && cur == nodes[c]
    requires IsReverse(axis) && InAxis(d.shape, axis, i, c)
    requires Swept(nodes, d, axis, test, i, c + 1, d.shape.Size(), once, ns0, ns)
    ensures stop ==> Filled(nodes, ns0, out, once, StepSeq(d, axis, test, i))
    ensures !stop ==> Swept(nodes, d, axis, test, i, c, d.shape.Size(), once, ns0, out)
  {
    var pushed;
    assert Labelled(nodes, d, c);
    out, pushed := StepPush(ns, cur, test);
    stop := pushed && once;
    VisitedDown(nodes, d, axis, test, i, c, once, ns0, ns);
  }

  /** The climb stands on `a`, whose subtree ends where that of `c` does. */
  ghost predicate Leaving(nodes: seq<Node>, s: Shape, t: int, c: int, top: Node?, a: int, next: Node?) {
    s.Valid() && |nodes| == s.Size() && s.Has(t) && s.Has(c) && t <= a < s.end[t] <= |nodes|
    && next == nodes[a] && next != top && s.end[a] == s.end[c]
  }

  lemma LeavingUp(nodes: seq<Node>, s: Shape, t: int, c: int, top: Node?, a: int, next: Node)
    requires Represents(nodes, s) && Leaving(nodes, s, t, c, top, a, next) && next.nextSibling == null
    requires if top == null then t == 0 else top == nodes[t]
    ensures next.parent == top ==> s.end[c] >= s.end[t]
    ensures next.parent != top ==> next.parent != null && 0 <= s.par[a] < a && Leaving(nodes, s, t, c, top, s.par[a], next.parent)
  {
    assert Linked(nodes, s, a);
    if top != null {
      assert Apart(nodes, t, a) && (a > 0 ==> Apart(nodes, t, s.par[a]));
    }
  }

  lemma LeavingOver(nodes: seq<Node>, s: Shape, t: int, c: int, top: Node?, a: int, next: Node)
    requires Represents(nodes, s) && Leaving(nodes, s, t, c, top, a, next) && next.nextSibling != null
    requires if top == null then t == 0 else top == nodes[t]
    ensures s.end[c] < s.end[t] && next.nextSibling == At(nodes, s.end[c])
  {
    assert Linked(nodes, s, a);
    if top != null { assert Apart(nodes, t, a); }
    var p := s.par[a];
    assert t <= p;
    assert p > t ==> s.par[p] >= t;
  }

  /** The climb shared by the descendant and following walks: from `cur` to the first node after its
      subtree, or null when that lies outside the subtree of `top` (null: outside the document). */
  method LeaveSubtree(nodes: seq<Node>, ghost s: Shape, ghost t: int, ghost c: int, top: Node?, cur: Node)
      returns (next: Node?)
    requires Represents(nodes, s) && s.Has(t) && s.Has(c) && cur == nodes[c]
    requires if top == null then t == 0 else top == nodes[t] && t < c < s.end[t]
    ensures next == At(nodes, if s.end[c] < s.end[t] then s.end[c] else -1)
  {
    next := cur;
    ghost var a := c;
    assert top != null ==> Apart(nodes, t, a);
    while next.nextSibling == null
      invariant Leaving(nodes, s, t, c, top, a, next)
      decreases a
    {
      LeavingUp(nodes, s, t, c, top, a, next);
      next := next.parent;
      if next == top {
        return null;
      }
      a := s.par[a];
    }
    LeavingOver(nodes, s, t, c, top, a, next);
    next := next.nextSibling;
  }

  /** The advance shared by the descendant and following walks: position `c + 1`, if it is still inside. */
  method NextInPreorder(nodes: seq<Node>, ghost s: Shape, ghost t: int, ghost c: int, top: Node?, cur: Node)
      returns (next: Node?)
    requires Represents(nodes, s) && s.Has(t) && s.Has(c) && cur == nodes[c]
    requires if top == null then t == 0 else top == nodes[t] && t < c < s.end[t]
    ensures next == At(nodes, if c + 1 < s.end[t] then c + 1 else -1)
  {
    assert Linked(nodes, s, c);
    if cur.firstChild != null {
      next := cur.firstChild;
      assert c > t ==> s.par[c] >= t;
    } else {
      next := LeaveSubtree(nodes, s, t, c, top, cur);
    }
  }

  lemma DescendantBlank(d: Doc, orSelf: bool, test: NodeTest, i: int, lo: int, hi: int)
    requires d.Valid() && d.Has(i) && 0 <= lo <= hi <= d.shape.Size()
    requires hi <= i || (hi == i + 1 && !orSelf) || d.shape.end[i] <= lo
    ensures Blank(d, if orSelf then DescendantOrSelf else Descendant, test, i, lo, hi)
  {
  }

  /** The loop over the proper descendants of `n`. */
  method FillSubtree(nodes: seq<Node>, ghost d: Doc, ghost axis: Axis, ghost i: int, n: Node, test: NodeTest,
                     once: bool, ghost ns0: seq<Node>, ns1: seq<Node>) returns (ns: seq<Node>)
    requires DocRepresents(nodes, d) && d.Has(i) && n == nodes[i]
    requires axis == Descendant || axis == DescendantOrSelf
    requires Swept(nodes, d, axis, test, i, 0, i + 1, once, ns0, ns1)
    ensures Filled(nodes, ns0, ns, once, StepSeq(d, axis, test, i))
  {
    ghost var e, c := d.shape.end[i], i + 1;
    assert Linked(nodes, d.shape, i);
    ns := ns1;
    var cur := n.firstChild;
    var stop;
    while cur != null
      invariant i < c <= e && cur == At(nodes, if c < e then c else -1)
      invariant Swept(nodes, d, axis, test, i, 0, c, once, ns0, ns)
      decreases e - c
    {
      ns, stop := VisitUp(nodes, d, axis, test, i, c, cur, once, ns0, ns);
      if stop { return; }
      cur := NextInPreorder(nodes, d.shape, i, c, n, cur);
      c := c + 1;
    }
    DescendantBlank(d, axis == DescendantOrSelf, test, i, c, d.shape.Size());
    EndUp(nodes, d, axis, test, i, c, once, ns0, ns);
  }

  /** axis_descendant and axis_descendant_or_self. */
  method FillDescendant(nodes: seq<Node>, ghost d: Doc, ghost i: int, n: Node, test: NodeTest, once: bool,
                        orSelf: bool, ns0: seq<Node>) returns (ns: seq<Node>)
    requires DocRepresents(nodes, d) && d.Has(i) && n == nodes[i]
    ensures Filled(nodes, ns0, ns, once, StepSeq(d, if orSelf then DescendantOrSelf else Descendant, test, i))
  {
    ns := ns0;
    if orSelf {
      DescendantBlank(d, true, test, i, 0, i);
      StartUp(nodes, d, DescendantOrSelf, test, i, i, once, ns);
      var stop;
      ns, stop := VisitUp(nodes, d, DescendantOrSelf, test, i, i, n, once, ns0, ns);
      if stop { return; }
      ns := FillSubtree(nodes, d, DescendantOrSelf, i, n, test, once, ns0, ns);
    } else {
      DescendantBlank(d, false, test, i, 0, i + 1);
      StartUp(nodes, d, Descendant, test, i, i + 1, once, ns);
      ns := FillSubtree(nodes, d, Descendant, i, n, test, once, ns0, ns);
    }
  }

  /** axis_following: leave the context node's subtree, then everything to the end. */
  method FillFollowing(nodes: seq<Node>, ghost d: Doc, ghost i: int, n: Node, test: NodeTest, once: bool,
                       ns0: seq<Node>) returns (ns: seq<Node>)
    requires DocRepresents(nodes, d) && d.Has(i) && n == nodes[i]
    ensures Filled(nodes, ns0, ns, once, StepSeq(d, Following, test, i))
  {
    ghost var size, c := d.shape.Size(), d.shape.end[i];
    ns := ns0;
    StartUp(nodes, d, Following, test, i, c, once, ns);
    var cur := LeaveSubtree(nodes, d.shape, 0, i, null, n);
    var stop;
    while cur != null
      invariant d.shape.end[i] <= c <= size && cur == At(nodes, if c < size then c else -1)
      invariant Swept(nodes, d, Following, test, i, 0, c, once, ns0, ns)
      decreases size - c
    {
      ns, stop := VisitUp(nodes, d, Following, test, i, c, cur, once, ns0, ns);
      if stop { return; }
      cur := NextInPreorder(nodes, d.shape, 0, c, null, cur);
      c := c + 1;
    }
    EndUp(nodes, d, Following, test, i, c, once, ns0, ns);
  }

  lemma SiblingsBlank(d: Doc, axis: Axis, test: NodeTest, i: int, p: int, lo: int, hi: int)
    requires d.Valid() && d.Has(i) && d.Has(p)
    requires (axis == Child && p == i) || ((i > 0 ==> p == d.shape.par[i]) && (axis == FollowingSibling || axis == PrecedingSibling))
    requires 0 <= lo <= hi <= d.shape.Size()
    requires (axis != Child && i == 0) || hi <= p + 1 || d.shape.end[p] <= lo || (lo > 0 && d.shape.par[lo - 1] == p && hi <= d.shape.end[lo - 1])
             || (axis == FollowingSibling && hi <= i + 1) || (axis == PrecedingSibling && i <= lo)
    ensures Blank(d, axis, test, i, lo, hi)
  {
    forall j | lo <= j < hi && j > 0 ensures !InAxis(d.shape, axis, i, j) {
      assert d.shape.par[j] < j;
      assert lo > 0 ==> d.shape.end[lo - 1] >= lo;
    }
  }

  /** `c->next_sibling` from a child `c` of `p`. */
  method StepRight(nodes: seq<Node>, ghost s: Shape, ghost p: int, ghost c: int, cur: Node) returns (next: Node?)
    requires Represents(nodes, s) && s.Has(p) && 0 < c < s.Size() && s.par[c] == p && cur == nodes[c]
    ensures next == At(nodes, if s.end[c] < s.end[p] then s.end[c] else -1)
    ensures s.end[c] < s.end[p] ==> s.par[s.end[c]] == p
  {
    assert Linked(nodes, s, c);
    s.SiblingLinks(c);
    next := cur.nextSibling;
  }

  method VisitSibling(nodes: seq<Node>, ghost d: Doc, ghost axis: Axis, test: NodeTest, ghost i: int, ghost p: int,
                      ghost c: int, cur: Node, once: bool, ghost ns0: seq<Node>, ns: seq<Node>)
      returns (out: seq<Node>, stop: bool)
    requires DocRepresents(nodes, d) && d.Has(i) && d.Has(p) && 0 < c < d.shape.Size() && cur == nodes[c]
    requires (axis == Child && p == i) || (axis == FollowingSibling && 0 < i < c && p == d.shape.par[i])
    requires d.shape.par[c] == p
    requires Swept(nodes, d, axis, test, i, 0, c, once, ns0, ns)
    ensures stop ==> Filled(nodes, ns0, out, once, StepSeq(d, axis, test, i))
    ensures !stop ==> Swept(nodes, d, axis, test, i, 0, d.shape.end[c], once, ns0, out)
  {
    out, stop := VisitUp(nodes, d, axis, test, i, c, cur, once, ns0, ns);
    if !stop {
      SiblingsBlank(d, axis, test, i, p, c + 1, d.shape.end[c]);
      SkipUp(nodes, d, axis, test, i, c + 1, d.shape.end[c], once, ns0, out);
    }
  }

  /** The loop of axis_child and axis_following_sibling over the children of `p` from `start` on. */
  method FillSiblings(nodes: seq<Node>, ghost d: Doc, ghost axis: Axis, ghost i: int, ghost p: int, ghost start: int,
                      first: Node?, test: NodeTest, once: bool, ns0: seq<Node>) returns (ns: seq<Node>)
    requires DocRepresents(nodes, d) && d.Has(i) && d.Has(p) && p < start <= d.shape.end[p]
    requires (axis == Child && p == i) || (axis == FollowingSibling && i < start && if i > 0 then p == d.shape.par[i] else start == d.shape.end[p])
    requires first == At(nodes, if start < d.shape.end[p] then start else -1)
    requires start < d.shape.end[p] ==> d.shape.par[start] == p
    requires Blank(d, axis, test, i, 0, start)
    ensures Filled(nodes, ns0, ns, once, StepSeq(d, axis, test, i))
  {
    ghost var c, e := start, d.shape.end[p];
    var cur := first;
    ns := ns0;
    StartUp(nodes, d, axis, test, i, c, once, ns);
    var stop;
    while cur != null
      invariant start <= c <= e && cur == At(nodes, if c < e then c else -1)
      invariant c < e ==> d.shape.par[c] == p
      invariant Swept(nodes, d, axis, test, i, 0, c, once, ns0, ns)
      decreases e - c
    {
      ns, stop := VisitSibling(nodes, d, axis, test, i, p, c, cur, once, ns0, ns);
      if stop { return; }
      cur := StepRight(nodes, d.shape, p, c, cur);
      c := d.shape.end[c];
    }
    SiblingsBlank(d, axis, test, i, p, c, d.shape.Size());
    EndUp(nodes, d, axis, test, i, c, once, ns0, ns);
  }

  /** axis_child. */
  method FillChild(nodes: seq<Node>, ghost d: Doc, ghost i: int, n: Node, test: NodeTest, once: bool,
                   ns0: seq<Node>) returns (ns: seq<Node>)
    requires DocRepresents(nodes, d) && d.Has(i) && n == nodes[i]
    ensures Filled(nodes, ns0, ns, once, StepSeq(d, Child, test, i))
  {
    assert Linked(nodes, d.shape, i);
    SiblingsBlank(d, Child, test, i, i, 0, i + 1);
    ns := FillSiblings(nodes, d, Child, i, i, i + 1, n.firstChild, test, once, ns0);
  }

  /** axis_following_sibling. */
  method FillFollowingSibling(nodes: seq<Node>, ghost d: Doc, ghost i: int, n: Node, test: NodeTest, once: bool,
                              ns0: seq<Node>) returns (ns: seq<Node>)
    requires DocRepresents(nodes, d) && d.Has(i) && n == nodes[i]
    ensures Filled(nodes, ns0, ns, once, StepSeq(d, FollowingSibling, test, i))
  {
    assert Linked(nodes, d.shape, i);
    ghost var p := if i == 0 then 0 else d.shape.par[i];
    var first := n.nextSibling;
    if i > 0 { d.shape.SiblingLinks(i); }
    SiblingsBlank(d, FollowingSibling, test, i, p, 0, i + 1);
    SiblingsBlank(d, FollowingSibling, test, i, p, i + 1, d.shape.end[i]);
    ns := FillSiblings(nodes, d, FollowingSibling, i, p, d.shape.end[i], first, test, once, ns0);
  }

  /** `c->prev_sibling_c`: the previous sibling, or a node without a next sibling. */
  method StepLeft(nodes: seq<Node>, ghost s: Shape, ghost c: int, cur: Node) returns (prev: Node)
    requires Represents(nodes, s) && s.Has(c) && cur == nodes[c]
    ensures s.prev[c] == -1 <==> prev.nextSibling == null
    ensures s.prev[c] != -1 ==> 0 <= s.par[c] < s.prev[c] < c && prev == nodes[s.prev[c]] && prev.nextSibling != null
    ensures s.prev[c] != -1 ==> s.par[s.prev[c]] == s.par[c] && s.end[s.prev[c]] == c
  {
    assert Linked(nodes, s, c);
    prev := cur.prevSiblingC;
    if c > 0 {
      s.SiblingLinks(c);
      if s.prev[c] == -1 {
        ghost var l := s.last[s.par[c]];
        s.SiblingLinks(l);
        assert Linked(nodes, s, l);
      } else {
        assert Linked(nodes, s, s.prev[c]);
      }
    }
  }

  method VisitLeftSibling(nodes: seq<Node>, ghost d: Doc, test: NodeTest, ghost i: int, ghost p: int, ghost c: int,
                          cur: Node, once: bool, ghost ns0: seq<Node>, ns: seq<Node>) returns (out: seq<Node>, stop: bool)
    requires DocRepresents(nodes, d) && d.Has(i) && d.Has(p) && 0 < c <= i && p == d.shape.par[i] == d.shape.par[c]
    requires d.shape.prev[c] != -1 && cur == nodes[d.shape.prev[c]]
    requires Swept(nodes, d, PrecedingSibling, test, i, c, d.shape.Size(), once, ns0, ns)
    ensures stop ==> Filled(nodes, ns0, out, once, StepSeq(d, PrecedingSibling, test, i))
    ensures !stop ==> Swept(nodes, d, PrecedingSibling, test, i, d.shape.prev[c], d.shape.Size(), once, ns0, out)
  {
    ghost var b := d.shape.prev[c];
    SiblingsBlank(d, PrecedingSibling, test, i, p, b + 1, c);
    SkipDown(nodes, d, PrecedingSibling, test, i, c, b + 1, once, ns0, ns);
    out, stop := VisitDown(nodes, d, PrecedingSibling, test, i, b, cur, once, ns0, ns);
  }

  /** axis_preceding_sibling: along the circular pointer until it comes round to the last child. */
  method FillPrecedingSibling(nodes: seq<Node>, ghost d: Doc, ghost i: int, n: Node, test: NodeTest, once: bool,
                              ns0: seq<Node>) returns (ns: seq<Node>)
    requires DocRepresents(nodes, d) && d.Has(i) && n == nodes[i]
    ensures Filled(nodes, ns0, ns, once, StepSeq(d, PrecedingSibling, test, i))
  {
    ghost var s, c := d.shape, i;
    ghost var p := if i == 0 then 0 else s.par[i];
    ns := ns0;
    SiblingsBlank(d, PrecedingSibling, test, i, p, i, s.Size());
    StartDown(nodes, d, PrecedingSibling, test, i, i, once, ns);
    var cur := StepLeft(nodes, s, i, n);
    var stop;
    while cur.nextSibling != null
      invariant 0 <= c <= i && (i > 0 ==> p < c && s.par[c] == p)
      invariant if s.prev[c] == -1 then cur.nextSibling == null
                else p < s.prev[c] < c && cur == nodes[s.prev[c]] && cur.nextSibling != null && s.par[s.prev[c]] == p && s.end[s.prev[c]] == c
      invariant Swept(nodes, d, PrecedingSibling, test, i, c, s.Size(), once, ns0, ns)
      decreases c
    {
      ns, stop := VisitLeftSibling(nodes, d, test, i, p, c, cur, once, ns0, ns);
      if stop { return; }
      c := s.prev[c];
      cur := StepLeft(nodes, s, c, cur);
    }
    FirstSiblingBlank(d, test, i, p, c);
    EndDown(nodes, d, PrecedingSibling, test, i, c, once, ns0, ns);
  }

  lemma FirstSiblingBlank(d: Doc, test: NodeTest, i: int, p: int, c: int)
    requires d.Valid() && d.Has(i) && d.Has(c) && c <= i && d.shape.prev[c] == -1
    requires i > 0 ==> c > 0 && p == d.shape.par[i] == d.shape.par[c]
    ensures Blank(d, PrecedingSibling, test, i, 0, c)
  {
    if i > 0 { SiblingsBlank(d, PrecedingSibling, test, i, p, 0, c); }
  }

  /** Between a node and the next node up its chain of parents no position is an ancestor. */
  lemma AncestorsBlank(d: Doc, orSelf: bool, test: NodeTest, i: int, lo: int, hi: int)
    requires d.Valid() && d.Has(i) && 0 <= lo <= hi <= d.shape.Size()
    requires lo > i || (lo == i && !orSelf) || (d.Has(hi) && hi <= i < d.shape.end[hi] && d.shape.par[hi] + 1 == lo)
    ensures Blank(d, if orSelf then AncestorOrSelf else AncestorAxis, test, i, lo, hi)
  {
    assert d.Has(hi) ==> d.shape.par[hi] < hi || hi == 0;
  }

  /** The loop of axis_ancestor and axis_ancestor_or_self. */
  method FillAncestors(nodes: seq<Node>, ghost d: Doc, ghost orSelf: bool, ghost i: int, n: Node, test: NodeTest,
                       once: bool, ghost ns0: seq<Node>, ns1: seq<Node>) returns (ns: seq<Node>)
    requires DocRepresents(nodes, d) && d.Has(i) && n == nodes[i]
    requires Swept(nodes, d, if orSelf then AncestorOrSelf else AncestorAxis, test, i, i, d.shape.Size(), once, ns0, ns1)
    ensures Filled(nodes, ns0, ns, once, StepSeq(d, if orSelf then AncestorOrSelf else AncestorAxis, test, i))
  {
    ghost var axis := if orSelf then AncestorOrSelf else AncestorAxis;
    ghost var c := i;
    ns := ns1;
    assert Linked(nodes, d.shape, i);
    var cur := n.parent;
    var stop;
    while cur != null
      invariant 0 <= c <= i < d.shape.end[c] && cur == At(nodes, d.shape.par[c])
      invariant Swept(nodes, d, axis, test, i, c, d.shape.Size(), once, ns0, ns)
      decreases c
    {
      ghost var p := d.shape.par[c];
      AncestorsBlank(d, orSelf, test, i, p + 1, c);
      SkipDown(nodes, d, axis, test, i, c, p + 1, once, ns0, ns);
      ns, stop := VisitDown(nodes, d, axis, test, i, p, cur, once, ns0, ns);
      if stop { return; }
      assert Linked(nodes, d.shape, p);
      cur := cur.parent;
      c := p;
    }
    EndDown(nodes, d, axis, test, i, c, once, ns0, ns);
  }

  /** axis_ancestor and axis_ancestor_or_self. */
  method FillAncestor(nodes: seq<Node>, ghost d: Doc, ghost i: int, n: Node, test: NodeTest, once: bool,
                      orSelf: bool, ns0: seq<Node>) returns (ns: seq<Node>)
    requires DocRepresents(nodes, d) && d.Has(i) && n == nodes[i]
    ensures Filled(nodes, ns0, ns, once, StepSeq(d, if orSelf then AncestorOrSelf else AncestorAxis, test, i))
  {
    ns := ns0;
    if orSelf {
      AncestorsBlank(d, true, test, i, i + 1, d.shape.Size());
      StartDown(nodes, d, AncestorOrSelf, test, i, i + 1, once, ns);
      var stop;
      ns, stop := VisitDown(nodes, d, AncestorOrSelf, test, i, i, n, once, ns0, ns);
      if stop { return; }
      ns := FillAncestors(nodes, d, true, i, n, test, once, ns0, ns);
    } else {
      AncestorsBlank(d, false, test, i, i, d.shape.Size());
      StartDown(nodes, d, AncestorAxis, test, i, i, once, ns);
      ns := FillAncestors(nodes, d, false, i, n, test, once, ns0, ns);
    }
  }

  /** axis_self. */
  method FillSelf(nodes: seq<Node>, ghost d: Doc, ghost i: int, n: Node, test: NodeTest, once: bool, ns0: seq<Node>)
      returns (ns: seq<Node>)
    requires DocRepresents(nodes, d) && d.Has(i) && n == nodes[i]
    ensures Filled(nodes, ns0, ns, once, StepSeq(d, Self, test, i))
  {
    StartUp(nodes, d, Self, test, i, i, once, ns0);
    var stop;
    ns, stop := VisitUp(nodes, d, Self, test, i, i, n, once, ns0, ns0);
    if !stop { EndUp(nodes, d, Self, test, i, i + 1, once, ns0, ns); }
  }

  /** axis_parent. */
  method FillParent(nodes: seq<Node>, ghost d: Doc, ghost i: int, n: Node, test: NodeTest, once: bool, ns0: seq<Node>)
      returns (ns: seq<Node>)
    requires DocRepresents(nodes, d) && d.Has(i) && n == nodes[i]
    ensures Filled(nodes, ns0, ns, once, StepSeq(d, Parent, test, i))
  {
    assert Linked(nodes, d.shape, i);
    ghost var p := d.shape.par[i];
    ns := ns0;
    if n.parent != null {
      StartUp(nodes, d, Parent, test, i, p, once, ns0);
      var stop;
      ns, stop := VisitUp(nodes, d, Parent, test, i, p, n.parent, once, ns0, ns0);
      if !stop { EndUp(nodes, d, Parent, test, i, p + 1, once, ns0, ns); }
    } else {
      StartUp(nodes, d, Parent, test, i, 0, once, ns0);
      EndUp(nodes, d, Parent, test, i, 0, once, ns0, ns);
    }
  }

  /** node_is_ancestor: `node` is `parent` or below it. */
  method NodeIsAncestor(nodes: seq<Node>, ghost s: Shape, ghost a: int, ghost i: int, parent: Node, node: Node)
      returns (r: bool)
    requires Represents(nodes, s) && s.Has(a) && s.Has(i) && parent == nodes[a] && node == nodes[i]
    ensures r <==> a == i || s.Ancestor(a, i)
  {
    var cur: Node? := node;
    ghost var c := i;
    assert Apart(nodes, a, c);
    while cur != null && cur != parent
      invariant -1 <= c <= i && cur == At(nodes, c)
      invariant (a == i || s.Ancestor(a, i)) <==> c != -1 && (a == c || s.Ancestor(a, c))
      invariant c != -1 ==> Apart(nodes, a, c)
      decreases c
    {
      assert Linked(nodes, s, c);
      cur := cur.parent;
      c := s.par[c];
      assert c != -1 ==> Apart(nodes, a, c);
    }
    r := cur == parent;
  }

  /** Where the preceding walk stands: everything from `c` to the context node is done. */
  ghost predicate PrecedingDone(nodes: seq<Node>, d: Doc, test: NodeTest, i: int, c: int, once: bool,
                                ns0: seq<Node>, ns: seq<Node>)
    requires d.Valid() && d.Has(i) && 0 <= c <= d.shape.Size()
  {
    Swept(nodes, d, Preceding, test, i, c, d.shape.Size(), once, ns0, ns)
  }

  /** Visits position `c` unless it is an ancestor of the context node. */
  method VisitUnlessAncestor(nodes: seq<Node>, ghost d: Doc, test: NodeTest, ghost i: int, n: Node, ghost c: int,
                             cur: Node, once: bool, ghost ns0: seq<Node>, ns: seq<Node>)
      returns (out: seq<Node>, stop: bool)
    requires DocRepresents(nodes, d) && d.Has(i) && n == nodes[i] && 0 <= c < i && cur == nodes[c]
    requires PrecedingDone(nodes, d, test, i, c + 1, once, ns0, ns)
    ensures stop ==> Filled(nodes, ns0, out, once, StepSeq(d, Preceding, test, i))
    ensures !stop ==> PrecedingDone(nodes, d, test, i, c, once, ns0, out)
  {
    var above := NodeIsAncestor(nodes, d.shape, c, i, cur, n);
    d.shape.AncestorInterval(c, i);
    if !above {
      out, stop := VisitDown(nodes, d, Preceding, test, i, c, cur, once, ns0, ns);
    } else {
      out, stop := ns, false;
      SkipDown(nodes, d, Preceding, test, i, c + 1, c, once, ns0, ns);
    }
  }

  /** From a first child to its parent; `stop` when the walk is over. */
  method ClimbPreceding(nodes: seq<Node>, ghost d: Doc, test: NodeTest, ghost i: int, n: Node, ghost c: int,
                        cur: Node, once: bool, ghost ns0: seq<Node>, ns: seq<Node>)
      returns (out: seq<Node>, up: Node, stop: bool)
    requires DocRepresents(nodes, d) && d.Has(i) && n == nodes[i] && 0 <= c < i && cur == nodes[c]
    requires d.shape.prev[c] == -1 && PrecedingDone(nodes, d, test, i, c, once, ns0, ns)
    ensures stop ==> Filled(nodes, ns0, out, once, StepSeq(d, Preceding, test, i))
    ensures !stop ==> c > 0 && up == nodes[c - 1] && PrecedingDone(nodes, d, test, i, c - 1, once, ns0, out)
  {
    assert Linked(nodes, d.shape, c);
    if cur.parent == null {
      EndDown(nodes, d, Preceding, test, i, c, once, ns0, ns);
      return ns, cur, true;
    }
    up := cur.parent;
    assert d.shape.par[c] == c - 1;
    out, stop := VisitUnlessAncestor(nodes, d, test, i, n, c - 1, up, once, ns0, ns);
  }

  /** After a leaf: up through first children, then to the previous sibling. */
  method FillPrecedingClimb(nodes: seq<Node>, ghost d: Doc, test: NodeTest, ghost i: int, n: Node, ghost c0: int,
                            cur0: Node, once: bool, ghost ns0: seq<Node>, ns1: seq<Node>)
      returns (ns: seq<Node>, cur: Node, stop: bool, ghost c: int, ghost e: int)
    requires DocRepresents(nodes, d) && d.Has(i) && n == nodes[i] && 0 <= c0 < i && cur0 == nodes[c0]
    requires PrecedingDone(nodes, d, test, i, c0, once, ns0, ns1)
    ensures stop ==> Filled(nodes, ns0, ns, once, StepSeq(d, Preceding, test, i))
    ensures !stop ==> 0 <= c < c0 && cur == nodes[c]
    ensures !stop ==> d.shape.end[c] == e <= c0 && PrecedingDone(nodes, d, test, i, e, once, ns0, ns)
  {
    ns, cur, c, e := ns1, cur0, c0, c0;
    var prev := StepLeft(nodes, d.shape, c, cur);
    while prev.nextSibling == null
      invariant 0 <= c <= c0 && cur == nodes[c] && e == c && PrecedingDone(nodes, d, test, i, e, once, ns0, ns)
      invariant d.shape.prev[c] == -1 <==> prev.nextSibling == null
      invariant d.shape.prev[c] != -1 ==> prev == nodes[d.shape.prev[c]] && 0 <= d.shape.prev[c] < c && d.shape.end[d.shape.prev[c]] == c
      decreases c
    {
      ns, cur, stop := ClimbPreceding(nodes, d, test, i, n, c, cur, once, ns0, ns);
      if stop { return; }
      c, e := c - 1, e - 1;
      prev := StepLeft(nodes, d.shape, c, cur);
    }
    cur, c, stop := prev, d.shape.prev[c], false;
  }

  /** The loop of axis_preceding: last children down to a leaf, then up. */
  method FillPrecedingFrom(nodes: seq<Node>, ghost d: Doc, ghost i: int, n: Node, test: NodeTest, once: bool,
                           ghost ns0: seq<Node>, ghost c0: int, ghost e0: int, cur0: Node, ns1: seq<Node>)
      returns (ns: seq<Node>)
    requires DocRepresents(nodes, d) && d.Has(i) && n == nodes[i] && 0 <= c0 < i && cur0 == nodes[c0]
    requires d.shape.end[c0] == e0 <= i && PrecedingDone(nodes, d, test, i, e0, once, ns0, ns1)
    ensures Filled(nodes, ns0, ns, once, StepSeq(d, Preceding, test, i))
  {
    var cur := cur0;
    ghost var c, e := c0, e0;
    ns := ns1;
    var stop;
    while true
      invariant 0 <= c < i && cur == nodes[c] && d.shape.end[c] == e <= i
      invariant PrecedingDone(nodes, d, test, i, e, once, ns0, ns)
      decreases e, d.shape.Size() - c
    {
      assert Linked(nodes, d.shape, c);
      if cur.firstChild != null {
        assert Linked(nodes, d.shape, c + 1);
        cur := cur.firstChild.prevSiblingC;
        c := d.shape.last[c];
      } else {
        ns, stop := VisitDown(nodes, d, Preceding, test, i, c, cur, once, ns0, ns);
        if stop { return; }
        ns, cur, stop, c, e := FillPrecedingClimb(nodes, d, test, i, n, c, cur, once, ns0, ns);
        if stop { return; }
      }
    }
  }

  /** axis_preceding: leave the chain of first children, then walk back to the start of the document. */
  method FillPreceding(nodes: seq<Node>, ghost d: Doc, ghost i: int, n: Node, test: NodeTest, once: bool,
                       ns0: seq<Node>) returns (ns: seq<Node>)
    requires DocRepresents(nodes, d) && d.Has(i) && n == nodes[i]
    ensures Filled(nodes, ns0, ns, once, StepSeq(d, Preceding, test, i))
  {
    StartDown(nodes, d, Preceding, test, i, i, once, ns0);
    var start, c := LeaveFirstChildren(nodes, d.shape, i, n);
    SkipDown(nodes, d, Preceding, test, i, i, if start == null then 0 else d.shape.end[c], once, ns0, ns0);
    if start == null {
      EndDown(nodes, d, Preceding, test, i, 0, once, ns0, ns0);
      return ns0;
    }
    ns := FillPrecedingFrom(nodes, d, i, n, test, once, ns0, c, d.shape.end[c], start, ns0);
  }

  /** All of [c, i) are ancestors of `i`. */
  ghost predicate OnlyAncestors(s: Shape, c: int, i: int)
    requires s.Valid() && s.Has(i) && 0 <= c
  {
    forall j {:trigger s.end[j]} :: c <= j < i ==> i < s.end[j]
  }

  lemma FirstChildUp(s: Shape, c: int, i: int)
    requires s.Valid() && s.Has(i) && 0 < c <= i < s.end[c] && s.prev[c] == -1 && OnlyAncestors(s, c, i)
    ensures s.par[c] == c - 1 && i < s.end[c - 1] && OnlyAncestors(s, c - 1, i)
  {
    assert s.par[c] < c;
  }

  /** Up from a node through first children to the previous sibling of an ancestor-or-self, if any;
      only ancestors are passed over. */
  method LeaveFirstChildren(nodes: seq<Node>, ghost s: Shape, ghost i: int, n: Node)
      returns (start: Node?, ghost c: int)
    requires Represents(nodes, s) && s.Has(i) && n == nodes[i]
    ensures start == null ==> OnlyAncestors(s, 0, i)
    ensures start != null ==> 0 <= c < i && start == nodes[c] && s.end[c] <= i && OnlyAncestors(s, s.end[c], i)
  {
    var cur := n;
    c := i;
    var prev := StepLeft(nodes, s, c, cur);
    while prev.nextSibling == null
      invariant 0 <= c <= i < s.end[c] && cur == nodes[c] && OnlyAncestors(s, c, i)
      invariant s.prev[c] == -1 <==> prev.nextSibling == null
      invariant s.prev[c] != -1 ==> prev == nodes[s.prev[c]] && 0 <= s.prev[c] < c && s.end[s.prev[c]] == c
      decreases c
    {
      assert Linked(nodes, s, c);
      if cur.parent == null { return null, c; }
      FirstChildUp(s, c, i);
      cur := cur.parent;
      c := c - 1;
      prev := StepLeft(nodes, s, c, cur);
    }
    start, c := prev, s.prev[c];
  }

  /** step_fill for a node: appends what the step selects from `n`, in axis order; with `once`, only
      the first of it. */
  method StepFill(nodes: seq<Node>, ghost d: Doc, ghost i: int, axis: Axis, n: Node, test: NodeTest, once: bool,
                  ns0: seq<Node>) returns (ns: seq<Node>)
    requires DocRepresents(nodes, d) && d.Has(i) && n == nodes[i]
    ensures Filled(nodes, ns0, ns, once, StepSeq(d, axis, test, i))
  {
    match axis
    case AncestorAxis => ns := FillAncestor(nodes, d, i, n, test, once, false, ns0);
    case AncestorOrSelf => ns := FillAncestor(nodes, d, i, n, test, once, true, ns0);
    case Child => ns := FillChild(nodes, d, i, n, test, once, ns0);
    case Descendant => ns := FillDescendant(nodes, d, i, n, test, once, false, ns0);
    case DescendantOrSelf => ns := FillDescendant(nodes, d, i, n, test, once, true, ns0);
    case Following => ns := FillFollowing(nodes, d, i, n, test, once, ns0);
    case FollowingSibling => ns := FillFollowingSibling(nodes, d, i, n, test, once, ns0);
    case Parent => ns := FillParent(nodes, d, i, n, test, once, ns0);
    case Preceding => ns := FillPreceding(nodes, d, i, n, test, once, ns0);
    case PrecedingSibling => ns := FillPrecedingSibling(nodes, d, i, n, test, once, ns0);
    case Self => ns := FillSelf(nodes, d, i, n, test, once, ns0);
  }

  /** What a step delivers is exactly what section 2.2 of XPath 1.0 puts on the axis and the node test
      lets pass, each node once, in document order or (reverse axes) in reverse document order. */
  lemma StepSeqMeaning(d: Doc, axis: Axis, test: NodeTest, i: int)
    requires d.Valid() && d.Has(i)
    ensures Ordered(StepSeq(d, axis, test, i), IsReverse(axis))
    ensures forall j :: j in StepSeq(d, axis, test, i) <==>
              d.Has(j) && OnAxis(d.shape, axis, i, j) && Passes(test, d.kind[j], d.name[j])
  {
    UpElements(d, axis, test, i, 0, d.shape.Size());
    DownElements(d, axis, test, i, 0, d.shape.Size());
    forall j | d.Has(j) ensures InAxis(d.shape, axis, i, j) <==> OnAxis(d.shape, axis, i, j) {
      AxisPositions(d.shape, axis, i, j);
    }
  }

  lemma {:induction false} OrderedOnce(s: seq<int>, reverse: bool, j: int)
    requires Ordered(s, reverse)
    ensures multiset(s)[j] == if j in s then 1 else 0
  {
    if s != [] {
      var k := |s| - 1;
      DropLast(s, reverse);
      OrderedOnce(s[..k], reverse, j);
      assert s == s[..k] + [s[k]];
    }
  }

  /** How often the walk along `axis` from `i` delivers `j`. */
  ghost function Visits(d: Doc, axis: Axis, i: int, j: int): (r: nat)
    requires d.Valid() && d.Has(i)
  {
    Occurrences(StepSeq(d, axis, TypeNode, i), j)
  }

  ghost function Occurrences(s: seq<int>, j: int): nat { multiset(s)[j] }

  lemma VisitsOnce(d: Doc, axis: Axis, i: int, j: int)
    requires d.Valid() && d.Has(i)
    ensures Visits(d, axis, i, j) == if d.Has(j) && InAxis(d.shape, axis, i, j) then 1 else 0
  {
    UpElements(d, axis, TypeNode, i, 0, d.shape.Size());
    DownElements(d, axis, TypeNode, i, 0, d.shape.Size());
    OrderedOnce(StepSeq(d, axis, TypeNode, i), IsReverse(axis), j);
  }

  predicate SharesDocument(axis: Axis) {
    axis.AncestorAxis? || axis.Preceding? || axis.Self? || axis.Descendant? || axis.Following?
  }

  /** The ancestor, preceding, self, descendant and following walks share out the document: exactly
      one of them delivers `j`, and it does so once. */
  lemma FiveAxesPartition(d: Doc, i: int, j: int) returns (axis: Axis)
    requires d.Valid() && d.Has(i) && d.Has(j)
    ensures SharesDocument(axis) && OnAxis(d.shape, axis, i, j)
    ensures forall a {:trigger Visits(d, a, i, j)} :: SharesDocument(a) ==> Visits(d, a, i, j) == if a == axis then 1 else 0
  {
    var s := d.shape;
    axis := if j == i then Self
            else if j < i then (if i < s.end[j] then AncestorAxis else Preceding)
            else if j < s.end[i] then Descendant else Following;
    AxisPositions(s, axis, i, j);
    forall a | SharesDocument(a) ensures Visits(d, a, i, j) == if a == axis then 1 else 0 {
      VisitsOnce(d, a, i, j);
    }
  }
}
