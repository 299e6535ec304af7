/** Trees cut out of trees and grafted onto them, as shapes. */
module Grafting {
  import opened Tree

  predicate Sized(t: Shape, n: int) {
    |t.par| == |t.end| == |t.prev| == |t.last| == n
  }

  // ---------- a valid shape, node by node ----------

  /** The parent and the previous sibling of a node. */
  predicate NodeOk(s: Shape, i: int) {
    && Sized(s, s.Size()) && 1 <= i < s.Size()
    && 0 <= s.par[i] < i && s.end[i] <= s.end[s.par[i]]
    && if i == s.par[i] + 1 then s.prev[i] == -1
       else s.par[i] < s.prev[i] < i && s.par[s.prev[i]] == s.par[i] && s.end[s.prev[i]] == i
  }

  /** The subtree and the last child of a node. */
  predicate LastOk(s: Shape, i: int) {
    && Sized(s, s.Size()) && s.Has(i) && i < s.end[i] <= s.Size()
    && if s.end[i] == i + 1 then s.last[i] == -1
       else i < s.last[i] < s.Size() && s.par[s.last[i]] == i && s.end[s.last[i]] == s.end[i]
  }

  /** Subtrees are nested or apart. */
  predicate NestedOk(s: Shape, i: int, j: int) {
    Sized(s, s.Size()) && s.Has(i) && s.Has(j) && (i < j < s.end[i] ==> i <= s.par[j] && s.end[j] <= s.end[i])
  }

  lemma Facts(s: Shape, i: int)
    requires s.Valid() && s.Has(i)
    ensures i > 0 ==> NodeOk(s, i)
    ensures LastOk(s, i)
  {
  }

  lemma AfterLast(s: Shape, i: int)
    requires s.Valid() && s.Has(i)
    ensures s.last[i] != -1 ==> s.Has(s.last[i]) && s.last[i] < s.end[s.last[i]]
  {
  }

  lemma NestedFacts(s: Shape, i: int, j: int)
    requires s.Valid() && s.Has(i) && s.Has(j)
    ensures NestedOk(s, i, j)
  {
  }

  ghost predicate NodesOk(t: Shape) {
    forall i {:trigger NodeOk(t, i)} :: 1 <= i < t.Size() ==> NodeOk(t, i)
  }

  ghost predicate LastsOk(t: Shape) {
    forall i {:trigger LastOk(t, i)} :: 0 <= i < t.Size() ==> LastOk(t, i)
  }

  ghost predicate AllNested(t: Shape) {
    forall i, j {:trigger NestedOk(t, i, j)} :: 0 <= i < t.Size() && 0 <= j < t.Size() ==> NestedOk(t, i, j)
  }

  lemma ParentsOk(t: Shape)
    requires Sized(t, t.Size()) && NodesOk(t)
    ensures forall i {:trigger t.par[i]} :: 1 <= i < t.Size() ==> 0 <= t.par[i] < i && t.end[i] <= t.end[t.par[i]]
    ensures forall i {:trigger t.prev[i]} :: 1 <= i < t.Size() ==>
      if i == t.par[i] + 1 then t.prev[i] == -1
      else 0 <= t.par[i] < t.prev[i] < i && t.par[t.prev[i]] == t.par[i] && t.end[t.prev[i]] == i
  {
    forall i | 1 <= i < t.Size()
      ensures 0 <= t.par[i] < i && t.end[i] <= t.end[t.par[i]]
      ensures if i == t.par[i] + 1 then t.prev[i] == -1
              else 0 <= t.par[i] < t.prev[i] < i && t.par[t.prev[i]] == t.par[i] && t.end[t.prev[i]] == i
    {
      assert NodeOk(t, i);
    }
  }

  lemma EndsOk(t: Shape)
    requires Sized(t, t.Size()) && LastsOk(t)
    ensures forall i {:trigger t.end[i]} :: 0 <= i < t.Size() ==> i < t.end[i] <= t.Size()
    ensures forall i {:trigger t.last[i]} :: 0 <= i < t.Size() ==>
      if t.end[i] == i + 1 then t.last[i] == -1
      else i < t.last[i] < t.Size() && t.par[t.last[i]] == i && t.end[t.last[i]] == t.end[i]
  {
    forall i | 0 <= i < t.Size()
      ensures i < t.end[i] <= t.Size()
      ensures if t.end[i] == i + 1 then t.last[i] == -1
              else i < t.last[i] < t.Size() && t.par[t.last[i]] == i && t.end[t.last[i]] == t.end[i]
    {
      assert LastOk(t, i);
    }
  }

  lemma PairsOk(t: Shape)
    requires Sized(t, t.Size()) && AllNested(t)
    ensures forall i, j {:trigger t.end[i], t.par[j]} {:trigger t.end[i], t.end[j]} ::
      0 <= i < j < t.Size() && j < t.end[i] ==> i <= t.par[j] && t.end[j] <= t.end[i]
  {
    forall i, j | 0 <= i < j < t.Size() && j < t.end[i]
      ensures i <= t.par[j] && t.end[j] <= t.end[i]
    {
      assert NestedOk(t, i, j);
    }
  }

  lemma ValidFromFacts(t: Shape)
    requires t.Size() >= 1 && Sized(t, t.Size()) && t.par[0] == -1 && t.end[0] == t.Size() && t.prev[0] == -1
    requires NodesOk(t) && LastsOk(t) && AllNested(t)
    ensures t.Valid()
  {
    ParentsOk(t);
    EndsOk(t);
    PairsOk(t);
  }

  // ---------- a subtree ----------

  function Down(x: int, a: int): int {
    if x == -1 then -1 else x - a
  }

  /** Node `i` of the subtree of `a`. */
  predicate SubAt(s: Shape, a: int, t: Shape, i: int)
    requires Sized(s, s.Size()) && Sized(t, t.Size()) && t.Has(i) && 0 <= a <= a + t.Size() <= s.Size()
  {
    && t.par[i] == (if i == 0 then -1 else Down(s.par[a + i], a)) && t.end[i] == s.end[a + i] - a
    && t.prev[i] == (if i == 0 then -1 else Down(s.prev[a + i], a)) && t.last[i] == Down(s.last[a + i], a)
  }

  /** `t` is the part of `s` from `a` on, with positions counted from `a`. */
  ghost predicate IsSub(s: Shape, a: int, t: Shape) {
    && Sized(s, s.Size()) && Sized(t, t.Size()) && 0 <= a <= a + t.Size() <= s.Size()
    && forall i {:trigger SubAt(s, a, t, i)} :: 0 <= i < t.Size() ==> SubAt(s, a, t, i)
  }

  function Shifted(x: seq<int>, a: int): (r: seq<int>)
    ensures |r| == |x| && forall i :: 0 <= i < |x| ==> r[i] == Down(x[i], a)
  {
    seq(|x|, i requires 0 <= i < |x| => Down(x[i], a))
  }

  /** The subtree of node `a`. */
  ghost function Sub(s: Shape, a: int): (t: Shape)
    requires s.Valid() && s.Has(a)
    ensures Sized(t, s.end[a] - a)
  {
    var e := s.end[a];
    Shape([-1] + Shifted(s.par[a + 1..e], a), Shifted(s.end[a..e], a), [-1] + Shifted(s.prev[a + 1..e], a), Shifted(s.last[a..e], a))
  }

  lemma SubIs(s: Shape, a: int)
    requires s.Valid() && s.Has(a)
    ensures IsSub(s, a, Sub(s, a))
  {
    assert forall i {:trigger s.end[i]} :: 0 <= i < s.Size() ==> s.end[i] > 0;
    Facts(s, a);
    Pieces(s, a, s.end[a], Sub(s, a));
  }

  lemma Pieces(s: Shape, a: int, e: int, t: Shape)
    requires Sized(s, s.Size()) && 0 <= a < e <= s.Size() && forall i {:trigger s.end[i]} :: 0 <= i < s.Size() ==> s.end[i] > 0
    requires t == Shape([-1] + Shifted(s.par[a + 1..e], a), Shifted(s.end[a..e], a), [-1] + Shifted(s.prev[a + 1..e], a), Shifted(s.last[a..e], a))
    ensures Sized(t, e - a) && IsSub(s, a, t)
  {
    forall i | 0 <= i < e - a
      ensures SubAt(s, a, t, i)
    {
      assert s.end[a..e][i] == s.end[a + i] && s.last[a..e][i] == s.last[a + i];
      if i > 0 {
        assert s.par[a + 1..e][i - 1] == s.par[a + i] && s.prev[a + 1..e][i - 1] == s.prev[a + i];
      }
    }
  }

  lemma SubNode(s: Shape, a: int, t: Shape, i: int)
    requires IsSub(s, a, t) && 1 <= i < t.Size() && NodeIn(s, a, a + i)
    ensures NodeOk(t, i)
  {
    assert SubAt(s, a, t, i) && SubAt(s, a, t, s.par[a + i] - a);
    if s.prev[a + i] != -1 {
      assert SubAt(s, a, t, s.prev[a + i] - a);
    }
  }

  lemma SubLast(s: Shape, a: int, t: Shape, i: int)
    requires IsSub(s, a, t) && t.Has(i) && LastIn(s, a, a + t.Size(), a + i)
    ensures LastOk(t, i)
  {
    assert SubAt(s, a, t, i);
    if s.last[a + i] != -1 {
      assert SubAt(s, a, t, s.last[a + i] - a);
    }
  }

  lemma SubNested(s: Shape, a: int, t: Shape, i: int, j: int)
    requires IsSub(s, a, t) && t.Has(i) && t.Has(j) && NestedOk(s, a + i, a + j)
    ensures NestedOk(t, i, j)
  {
    assert SubAt(s, a, t, i) && SubAt(s, a, t, j);
  }

  predicate LastIn(s: Shape, a: int, e: int, k: int) {
    && LastOk(s, k) && a <= k && s.end[k] <= e
    && (s.last[k] != -1 ==> s.Has(s.last[k]) && s.last[k] < s.end[s.last[k]])
  }

  predicate NodeIn(s: Shape, a: int, k: int) {
    NodeOk(s, k) && a <= s.par[k]
  }

  lemma InSub(s: Shape, a: int, k: int)
    requires s.Valid() && s.Has(a) && a <= k < s.end[a]
    ensures LastIn(s, a, s.end[a], k)
    ensures k > a ==> NodeIn(s, a, k)
  {
    Facts(s, k);
    NestedFacts(s, a, k);
    AfterLast(s, k);
  }

  /** The conditions carry over, node by node. */
  lemma FactsCarryOver(s: Shape, a: int, t: Shape)
    requires IsSub(s, a, t) && t.Size() >= 1
    requires forall k {:trigger LastIn(s, a, a + t.Size(), k)} :: a <= k < a + t.Size() ==> LastIn(s, a, a + t.Size(), k)
    requires forall k {:trigger NodeIn(s, a, k)} :: a < k < a + t.Size() ==> NodeIn(s, a, k)
    requires forall i, j {:trigger NestedOk(s, i, j)} :: a <= i < a + t.Size() && a <= j < a + t.Size() ==> NestedOk(s, i, j)
    requires s.end[a] == a + t.Size()
    ensures t.Valid()
  {
    assert SubAt(s, a, t, 0);
    forall i {:trigger NodeOk(t, i)} | 1 <= i < t.Size()
      ensures NodeOk(t, i)
    {
      assert NodeIn(s, a, a + i);
      SubNode(s, a, t, i);
    }
    forall i {:trigger LastOk(t, i)} | 0 <= i < t.Size()
      ensures LastOk(t, i)
    {
      assert LastIn(s, a, a + t.Size(), a + i);
      SubLast(s, a, t, i);
    }
    forall i, j {:trigger NestedOk(t, i, j)} | 0 <= i < t.Size() && 0 <= j < t.Size()
      ensures NestedOk(t, i, j)
    {
      assert NestedOk(s, a + i, a + j);
      SubNested(s, a, t, i, j);
    }
    ValidFromFacts(t);
  }

  lemma SubValid(s: Shape, a: int, t: Shape)
    requires s.Valid() && s.Has(a) && IsSub(s, a, t) && t.Size() == s.end[a] - a
    ensures t.Valid()
  {
    forall k {:trigger LastIn(s, a, a + t.Size(), k)} | a <= k < a + t.Size() ensures LastIn(s, a, a + t.Size(), k) { InSub(s, a, k); }
    forall k {:trigger NodeIn(s, a, k)} | a < k < a + t.Size() ensures NodeIn(s, a, k) { InSub(s, a, k); }
    forall i, j {:trigger NestedOk(s, i, j)} | a <= i < a + t.Size() && a <= j < a + t.Size() ensures NestedOk(s, i, j) { NestedFacts(s, i, j); }
    FactsCarryOver(s, a, t);
  }

  // ---------- grafting ----------

  function Up(x: int, p: int, m: int): int {
    if x >= p then x + m else x
  }

  /** Node `d` lies in the subtree of node `i`. */
  predicate Contains(s: Shape, d: int, i: int)
    requires Sized(s, s.Size()) && s.Has(i)
  {
    i <= d < s.end[i]
  }

  /** The sizes that go together: `t` is put into `s` at position `p`. */
  predicate Fits(s: Shape, d: int, p: int, t: Shape) {
    Sized(s, s.Size()) && Sized(t, t.Size()) && 0 <= d < p <= s.Size() && t.Size() >= 1
  }

  function ParAt(s: Shape, d: int, p: int, t: Shape, i: int): int
    requires Fits(s, d, p, t) && 0 <= i < s.Size() + t.Size()
  {
    if i < p then s.par[i] else if i == p then d
    else if i < p + t.Size() then t.par[i - p] + p else Up(s.par[i - t.Size()], p, t.Size())
  }

  function EndAt(s: Shape, d: int, p: int, t: Shape, i: int): int
    requires Fits(s, d, p, t) && 0 <= i < s.Size() + t.Size()
  {
    if i < p then if Contains(s, d, i) then s.end[i] + t.Size() else s.end[i]
    else if i < p + t.Size() then t.end[i - p] + p else s.end[i - t.Size()] + t.Size()
  }

  function PrevAt(s: Shape, d: int, p: int, t: Shape, i: int): int
    requires Fits(s, d, p, t) && 0 <= i < s.Size() + t.Size()
  {
    if i < p then s.prev[i] else if i == p then s.last[d]
    else if i < p + t.Size() then Up(t.prev[i - p], 0, p) else Up(s.prev[i - t.Size()], p, t.Size())
  }

  function LastAt(s: Shape, d: int, p: int, t: Shape, i: int): int
    requires Fits(s, d, p, t) && 0 <= i < s.Size() + t.Size()
  {
    if i == d then p else if i < p then Up(s.last[i], p, t.Size())
    else if i < p + t.Size() then Up(t.last[i - p], 0, p) else Up(s.last[i - t.Size()], p, t.Size())
  }

  predicate GraftAt(s: Shape, d: int, p: int, t: Shape, g: Shape, i: int)
    requires Fits(s, d, p, t) && Sized(g, s.Size() + t.Size()) && g.Has(i)
  {
    g.par[i] == ParAt(s, d, p, t, i) && g.end[i] == EndAt(s, d, p, t, i) &&
    g.prev[i] == PrevAt(s, d, p, t, i) && g.last[i] == LastAt(s, d, p, t, i)
  }

  /** `g` is `s` with `t` put in at position `p`, as a last child of node `d`. */
  ghost predicate IsGraft(s: Shape, d: int, p: int, t: Shape, g: Shape) {
    && Fits(s, d, p, t) && Sized(g, s.Size() + t.Size())
    && forall i {:trigger GraftAt(s, d, p, t, g, i)} :: 0 <= i < g.Size() ==> GraftAt(s, d, p, t, g, i)
  }

  ghost function Graft(s: Shape, d: int, t: Shape): (g: Shape)
    requires Sized(s, s.Size()) && s.Has(d) && Fits(s, d, s.end[d], t)
    ensures Sized(g, s.Size() + t.Size())
  {
    var p, n := s.end[d], s.Size() + t.Size();
    Shape(seq(n, i requires 0 <= i < n => ParAt(s, d, p, t, i)), seq(n, i requires 0 <= i < n => EndAt(s, d, p, t, i)),
          seq(n, i requires 0 <= i < n => PrevAt(s, d, p, t, i)), seq(n, i requires 0 <= i < n => LastAt(s, d, p, t, i)))
  }

  lemma GraftIs(s: Shape, d: int, t: Shape)
    requires Sized(s, s.Size()) && s.Has(d) && Fits(s, d, s.end[d], t)
    ensures IsGraft(s, d, s.end[d], t, Graft(s, d, t))
  {
  }

  /** Where a node before the graft ends, and where a node behind it hangs. */
  predicate AroundOk(s: Shape, d: int, p: int, i: int)
    requires Sized(s, s.Size()) && s.Has(i)
  {
    if Contains(s, d, i) then s.end[i] >= p
    else s.end[i] <= p && (i < d ==> s.end[i] <= d) && (i > d ==> s.par[i] >= d)
  }

  predicate BehindOk(s: Shape, d: int, p: int, k: int)
    requires Sized(s, s.Size()) && s.Has(k)
  {
    s.par[k] < p ==> 0 <= s.par[k] < d < s.Size() && d < s.end[s.par[k]]
  }

  lemma AroundFacts(s: Shape, d: int, i: int)
    requires s.Valid() && s.Has(d) && 0 <= i < s.end[d]
    ensures AroundOk(s, d, s.end[d], i)
  {
    if i < d {
      NestedFacts(s, i, d);
    } else {
      NestedFacts(s, d, i);
    }
  }

  lemma BehindFacts(s: Shape, d: int, k: int)
    requires s.Valid() && s.Has(d) && s.end[d] <= k < s.Size()
    ensures BehindOk(s, d, s.end[d], k)
  {
    var q := s.par[k];
    Facts(s, k);
    if q < s.end[d] {
      AroundFacts(s, d, q);
    }
  }

  /** Everything about `s` that the graft relies on, node by node. */
  ghost predicate Ready(s: Shape, d: int, p: int) {
    && Sized(s, s.Size()) && 0 <= d < p <= s.Size() && s.end[d] == p && s.par[0] == -1 && s.end[0] == s.Size() && s.prev[0] == -1
    && (forall i {:trigger NodeOk(s, i)} :: 1 <= i < s.Size() ==> NodeOk(s, i))
    && (forall i {:trigger LastOk(s, i)} :: 0 <= i < s.Size() ==> LastOk(s, i))
    && (forall i, j {:trigger NestedOk(s, i, j)} :: 0 <= i < s.Size() && 0 <= j < s.Size() ==> NestedOk(s, i, j))
    && (forall i {:trigger AroundOk(s, d, p, i)} :: 0 <= i < p ==> AroundOk(s, d, p, i))
    && (forall k {:trigger BehindOk(s, d, p, k)} :: p <= k < s.Size() ==> BehindOk(s, d, p, k))
  }

  lemma ReadyFacts(s: Shape, d: int)
    requires s.Valid() && s.Has(d)
    ensures Ready(s, d, s.end[d])
  {
    Facts(s, d);
    forall i {:trigger NodeOk(s, i)} | 1 <= i < s.Size() ensures NodeOk(s, i) { Facts(s, i); }
    forall i {:trigger LastOk(s, i)} | 0 <= i < s.Size() ensures LastOk(s, i) { Facts(s, i); }
    forall i, j {:trigger NestedOk(s, i, j)} | 0 <= i < s.Size() && 0 <= j < s.Size() ensures NestedOk(s, i, j) { NestedFacts(s, i, j); }
    forall i {:trigger AroundOk(s, d, s.end[d], i)} | 0 <= i < s.end[d] ensures AroundOk(s, d, s.end[d], i) { AroundFacts(s, d, i); }
    forall k {:trigger BehindOk(s, d, s.end[d], k)} | s.end[d] <= k < s.Size() ensures BehindOk(s, d, s.end[d], k) { BehindFacts(s, d, k); }
  }

  // ---------- the graft is a tree ----------

  lemma NodeBefore(s: Shape, d: int, p: int, t: Shape, g: Shape, i: int)
    requires IsGraft(s, d, p, t, g) && Ready(s, d, p) && 1 <= i < p
    ensures NodeOk(g, i)
  {
    assert NodeOk(s, i) && AroundOk(s, d, p, i);
    var q, r := s.par[i], s.prev[i];
    assert GraftAt(s, d, p, t, g, i) && GraftAt(s, d, p, t, g, q) && AroundOk(s, d, p, q);
    if r != -1 {
      assert GraftAt(s, d, p, t, g, r) && AroundOk(s, d, p, r);
    }
  }

  lemma NodeInGraft(s: Shape, d: int, p: int, t: Shape, g: Shape, i: int)
    requires IsGraft(s, d, p, t, g) && Ready(s, d, p) && p <= i < p + t.Size()
    requires if i == p then t.end[0] == t.Size() else NodeOk(t, i - p)
    ensures NodeOk(g, i)
  {
    assert GraftAt(s, d, p, t, g, i);
    if i == p {
      assert LastOk(s, d) && GraftAt(s, d, p, t, g, d);
      if s.last[d] != -1 {
        assert LastOk(s, s.last[d]) && GraftAt(s, d, p, t, g, s.last[d]) && AroundOk(s, d, p, s.last[d]);
      }
    } else {
      assert GraftAt(s, d, p, t, g, t.par[i - p] + p);
      if t.prev[i - p] != -1 {
        assert GraftAt(s, d, p, t, g, t.prev[i - p] + p);
      }
    }
  }

  lemma NodeBehind(s: Shape, d: int, p: int, t: Shape, g: Shape, i: int)
    requires IsGraft(s, d, p, t, g) && Ready(s, d, p) && p + t.Size() <= i < g.Size()
    ensures NodeOk(g, i)
  {
    var m := t.Size();
    var k := i - m;
    assert NodeOk(s, k) && BehindOk(s, d, p, k);
    var q, r := s.par[k], s.prev[k];
    assert GraftAt(s, d, p, t, g, i) && GraftAt(s, d, p, t, g, Up(q, p, m));
    if r != -1 {
      assert GraftAt(s, d, p, t, g, Up(r, p, m));
      if r < p { assert AroundOk(s, d, p, r); }
    }
  }

  lemma LastBefore(s: Shape, d: int, p: int, t: Shape, g: Shape, i: int)
    requires IsGraft(s, d, p, t, g) && Ready(s, d, p) && 0 <= i < p && t.end[0] == t.Size()
    ensures LastOk(g, i)
  {
    var m := t.Size();
    assert LastOk(s, i) && AroundOk(s, d, p, i) && GraftAt(s, d, p, t, g, i);
    if i == d {
      assert GraftAt(s, d, p, t, g, p);
    } else if s.last[i] != -1 {
      var r := s.last[i];
      assert GraftAt(s, d, p, t, g, Up(r, p, m)) && NodeOk(s, r) && LastOk(s, r);
      if r < p { assert AroundOk(s, d, p, r); }
    }
  }

  lemma LastInGraft(s: Shape, d: int, p: int, t: Shape, g: Shape, i: int)
    requires IsGraft(s, d, p, t, g) && p <= i < p + t.Size() && LastOk(t, i - p)
    ensures LastOk(g, i)
  {
    assert GraftAt(s, d, p, t, g, i);
    if t.last[i - p] != -1 {
      assert GraftAt(s, d, p, t, g, t.last[i - p] + p);
    }
  }

  lemma LastBehind(s: Shape, d: int, p: int, t: Shape, g: Shape, i: int)
    requires IsGraft(s, d, p, t, g) && Ready(s, d, p) && p + t.Size() <= i < g.Size()
    ensures LastOk(g, i)
  {
    var k := i - t.Size();
    assert LastOk(s, k) && GraftAt(s, d, p, t, g, i);
    if s.last[k] != -1 {
      assert GraftAt(s, d, p, t, g, s.last[k] + t.Size());
    }
  }

  lemma NestedGraft(s: Shape, d: int, p: int, t: Shape, g: Shape, i: int, j: int)
    requires IsGraft(s, d, p, t, g) && Ready(s, d, p) && g.Has(i) && g.Has(j)
    requires NodesOk(t) && LastsOk(t) && AllNested(t)
    ensures NestedOk(g, i, j)
  {
    var m := t.Size();
    assert GraftAt(s, d, p, t, g, i) && GraftAt(s, d, p, t, g, j);
    if i < p {
      assert AroundOk(s, d, p, i);
      if j < p {
        assert AroundOk(s, d, p, j) && NestedOk(s, i, j);
      } else if j < p + m {
        assert LastOk(t, j - p) && (j > p ==> NodeOk(t, j - p));
      } else {
        assert NestedOk(s, i, j - m);
      }
    } else if i < p + m {
      assert LastOk(t, i - p);
      if p <= j < p + m {
        assert NestedOk(t, i - p, j - p);
      }
    } else if j >= p + m {
      assert NestedOk(s, i - m, j - m);
    }
  }

  lemma GraftFromFacts(s: Shape, d: int, p: int, t: Shape, g: Shape)
    requires IsGraft(s, d, p, t, g) && Ready(s, d, p) && t.end[0] == t.Size()
    requires NodesOk(t) && LastsOk(t) && AllNested(t)
    ensures g.Valid()
  {
    var m := t.Size();
    assert GraftAt(s, d, p, t, g, 0);
    forall i {:trigger NodeOk(g, i)} | 1 <= i < g.Size()
      ensures NodeOk(g, i)
    {
      if i < p {
        NodeBefore(s, d, p, t, g, i);
      } else if i < p + m {
        assert i > p ==> NodeOk(t, i - p);
        NodeInGraft(s, d, p, t, g, i);
      } else {
        NodeBehind(s, d, p, t, g, i);
      }
    }
    forall i {:trigger LastOk(g, i)} | 0 <= i < g.Size()
      ensures LastOk(g, i)
    {
      if i < p {
        LastBefore(s, d, p, t, g, i);
      } else if i < p + m {
        assert LastOk(t, i - p);
        LastInGraft(s, d, p, t, g, i);
      } else {
        LastBehind(s, d, p, t, g, i);
      }
    }
    forall i, j {:trigger NestedOk(g, i, j)} | 0 <= i < g.Size() && 0 <= j < g.Size()
      ensures NestedOk(g, i, j)
    {
      NestedGraft(s, d, p, t, g, i, j);
    }
    ValidFromFacts(g);
  }

  /** Grafting a tree onto a tree makes a tree. */
  lemma GraftValid(s: Shape, d: int, t: Shape, g: Shape)
    requires s.Valid() && s.Has(d) && t.Valid() && IsGraft(s, d, s.end[d], t, g)
    ensures g.Valid()
  {
    ReadyFacts(s, d);
    forall x, y {:trigger NestedOk(t, x, y)} | 0 <= x < t.Size() && 0 <= y < t.Size() ensures NestedOk(t, x, y) { NestedFacts(t, x, y); }
    forall x {:trigger LastOk(t, x)} | 0 <= x < t.Size() ensures LastOk(t, x) { Facts(t, x); }
    forall x {:trigger NodeOk(t, x)} | 1 <= x < t.Size() ensures NodeOk(t, x) { Facts(t, x); }
    GraftFromFacts(s, d, s.end[d], t, g);
  }

  // ---------- links of a graft ----------

  predicate InRange(s: Shape) {
    Sized(s, s.Size()) && s.Size() >= 1 && s.par[0] == -1
  }

  function First(s: Shape, i: int): int
    requires InRange(s) && s.Has(i)
  {
    if s.end[i] > i + 1 then i + 1 else -1
  }

  function Next(s: Shape, i: int): int
    requires InRange(s) && s.Has(i) && (i > 0 ==> s.Has(s.par[i]))
  {
    if i > 0 && s.end[i] < s.end[s.par[i]] then s.end[i] else -1
  }

  function BackC(s: Shape, i: int): int
    requires InRange(s) && s.Has(i) && (i > 0 ==> s.Has(s.par[i]))
  {
    if i == 0 then 0 else if s.prev[i] == -1 then s.last[s.par[i]] else s.prev[i]
  }

  lemma LinksAre(s: Shape, i: int)
    requires s.Valid() && s.Has(i)
    ensures InRange(s) && (i > 0 ==> s.Has(s.par[i]))
    ensures First(s, i) == s.FirstChild(i) && Next(s, i) == s.NextSibling(i) && BackC(s, i) == s.PrevSiblingC(i)
  {
  }

  /** The one child of `d` with no next sibling is its last. */
  lemma OneLast(s: Shape, d: int, p: int, i: int)
    requires Ready(s, d, p) && d < i < p && s.par[i] == d && s.end[i] == p
    ensures s.last[d] == i
  {
    assert LastOk(s, d) && LastOk(s, i);
    var r := s.last[d];
    assert NestedOk(s, r, i) && NestedOk(s, i, r) && LastOk(s, r);
  }

  lemma LinksBefore(s: Shape, d: int, p: int, t: Shape, g: Shape, i: int)
    requires IsGraft(s, d, p, t, g) && Ready(s, d, p) && 0 <= i < p
    ensures InRange(s) && InRange(g) && (i > 0 ==> s.Has(s.par[i]) && g.par[i] == s.par[i])
    ensures First(g, i) == if i == d && First(s, d) == -1 then p else Up(First(s, i), p, t.Size())
    ensures Next(g, i) == if i == s.last[d] then p else Up(Next(s, i), p, t.Size())
    ensures BackC(g, i) == if i > 0 && s.par[i] == d && s.prev[i] == -1 then p else Up(BackC(s, i), p, t.Size())
  {
    assert GraftAt(s, d, p, t, g, i) && GraftAt(s, d, p, t, g, 0) && AroundOk(s, d, p, i) && LastOk(s, i) && LastOk(s, d);
    if s.last[d] == i {
      assert NodeOk(s, i);
    }
    if i > 0 {
      var q := s.par[i];
      assert NodeOk(s, i);
      assert GraftAt(s, d, p, t, g, q) && AroundOk(s, d, p, q);
      if q == d && s.end[i] == p && i > d {
        OneLast(s, d, p, i);
      }
    }
  }

  lemma LinksInGraft(s: Shape, d: int, p: int, t: Shape, g: Shape, j: int)
    requires IsGraft(s, d, p, t, g) && Ready(s, d, p) && t.Has(j) && NodesOk(t) && LastsOk(t) && t.par[0] == -1 && t.end[0] == t.Size()
    ensures InRange(t) && InRange(g) && (j > 0 ==> t.Has(t.par[j])) && g.Has(g.par[p + j])
    ensures First(g, p + j) == Up(First(t, j), 0, p)
    ensures j > 0 ==> Next(g, p + j) == Up(Next(t, j), 0, p) && BackC(g, p + j) == Up(BackC(t, j), 0, p) && g.par[p + j] == t.par[j] + p
    ensures j == 0 ==> Next(g, p) == -1 && g.par[p] == d && BackC(g, p) == if s.last[d] == -1 then p else s.last[d]
  {
    assert GraftAt(s, d, p, t, g, p + j) && GraftAt(s, d, p, t, g, 0) && LastOk(t, j);
    if j == 0 {
      assert GraftAt(s, d, p, t, g, d);
    } else {
      assert NodeOk(t, j) && GraftAt(s, d, p, t, g, t.par[j] + p);
    }
  }

  lemma LinksBehind(s: Shape, d: int, p: int, t: Shape, g: Shape, k: int)
    requires IsGraft(s, d, p, t, g) && Ready(s, d, p) && p <= k < s.Size()
    ensures InRange(s) && InRange(g) && s.Has(s.par[k]) && g.Has(g.par[k + t.Size()]) && g.par[k + t.Size()] == Up(s.par[k], p, t.Size())
    ensures First(g, k + t.Size()) == Up(First(s, k), p, t.Size())
    ensures Next(g, k + t.Size()) == Up(Next(s, k), p, t.Size())
    ensures BackC(g, k + t.Size()) == Up(BackC(s, k), p, t.Size())
  {
    var m := t.Size();
    assert GraftAt(s, d, p, t, g, k + m) && GraftAt(s, d, p, t, g, 0) && NodeOk(s, k) && BehindOk(s, d, p, k) && LastOk(s, k);
    var q := s.par[k];
    assert GraftAt(s, d, p, t, g, Up(q, p, m)) && LastOk(s, q);
  }

  // ---------- links of a subtree ----------

  lemma SubLinksFrom(s: Shape, a: int, t: Shape, i: int)
    requires IsSub(s, a, t) && InRange(s) && InRange(t) && t.Has(i) && s.end[a] == a + t.Size()
    requires LastIn(s, a, s.end[a], a + i) && (i > 0 ==> NodeIn(s, a, a + i) && LastIn(s, a, s.end[a], s.par[a + i]))
    ensures First(t, i) == Down(First(s, a + i), a) && (First(s, a + i) == -1 || a < First(s, a + i) < s.end[a])
    ensures i > 0 ==> s.Has(s.par[a + i]) && t.Has(t.par[i]) && s.par[a + i] == t.par[i] + a && s.par[a + i] < s.end[a]
    ensures i > 0 ==> Next(t, i) == Down(Next(s, a + i), a) && (Next(s, a + i) == -1 || a < Next(s, a + i) < s.end[a])
  {
    assert SubAt(s, a, t, i);
    if i > 0 {
      assert SubAt(s, a, t, s.par[a + i] - a);
    }
  }

  /** The links inside a subtree, counted from its root. */
  lemma SubLinks(s: Shape, a: int, t: Shape, i: int)
    requires s.Valid() && s.Has(a) && IsSub(s, a, t) && t.Size() == s.end[a] - a && t.Valid() && t.Has(i)
    ensures t.FirstChild(i) == Down(s.FirstChild(a + i), a) && (s.FirstChild(a + i) == -1 || a < s.FirstChild(a + i) < s.end[a])
    ensures i > 0 ==> s.Has(s.par[a + i]) && s.par[a + i] == t.par[i] + a && s.par[a + i] < s.end[a] && a <= s.par[a + i]
    ensures i > 0 ==> t.NextSibling(i) == Down(s.NextSibling(a + i), a) && (s.NextSibling(a + i) == -1 || a < s.NextSibling(a + i) < s.end[a])
  {
    InSub(s, a, a + i);
    if i > 0 { InSub(s, a, s.par[a + i]); }
    LinksAre(s, a + i);
    LinksAre(t, i);
    SubLinksFrom(s, a, t, i);
  }
}
