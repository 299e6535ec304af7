/** Maximum bipartite matching as Google Mock computes it for unordered container matchers:
    Ford-Fulkerson with unit capacities over two mutually referent vectors. */
module Matching {
  // kUnused, static_cast<size_t>(-1) in the source.
  const UNUSED: int := -1

  /** The connectivity matrix: element `l` satisfies matcher `r`. */
  datatype MatchMatrix = MatchMatrix(lhs: nat, rhs: nat, edges: set<(int, int)>) {
    predicate HasEdge(l: int, r: int) { (l, r) in edges }
  }

  type Pairs = seq<(int, int)>

  /** A set of edges no two of which share an end. */
  ghost predicate IsMatching(g: MatchMatrix, m: set<(int, int)>) {
    && (forall e <- m :: 0 <= e.0 < g.lhs && 0 <= e.1 < g.rhs && e in g.edges)
    && (forall e <- m, f <- m :: e.0 == f.0 || e.1 == f.1 ==> e == f)
  }

  ghost predicate Ascending(p: Pairs) {
    forall i, j :: 0 <= i < j < |p| ==> p[i].0 < p[j].0
  }

  ghost function Edges(p: Pairs): set<(int, int)> { set e <- p }

  ghost function Lefts(m: set<(int, int)>): set<int> { set e <- m :: e.0 }

  ghost function Rights(m: set<(int, int)>): set<int> { set e <- m :: e.1 }

  ghost function UpTo(n: nat): (s: set<int>)
    ensures forall i :: i in s <==> 0 <= i < n
    ensures |s| == n
  {
    if n == 0 then {} else UpTo(n - 1) + {n - 1}
  }

  /** The pairing an unordered container matcher asks for: every matcher used (superset)
      and/or every element matched (subset). */
  ghost predicate IsPairing(g: MatchMatrix, m: set<(int, int)>, superset: bool, subset: bool) {
    && IsMatching(g, m)
    && (superset ==> Rights(m) == UpTo(g.rhs))
    && (subset ==> Lefts(m) == UpTo(g.lhs))
  }

  ghost predicate Shaped(g: MatchMatrix, left: seq<int>, right: seq<int>) {
    && |left| == g.lhs && |right| == g.rhs
    && (forall l :: 0 <= l < |left| ==> left[l] == UNUSED || (0 <= left[l] < g.rhs && g.HasEdge(l, left[l])))
    && (forall r :: 0 <= r < |right| ==> right[r] == UNUSED || 0 <= right[r] < g.lhs)
  }

  /** Both vectors refer to each other, except that right node `hole` may still name an old partner. */
  ghost predicate MutualExcept(g: MatchMatrix, left: seq<int>, right: seq<int>, hole: int) {
    && Shaped(g, left, right)
    && (forall l :: 0 <= l < |left| && left[l] != UNUSED ==> right[left[l]] == l)
    && (forall r :: 0 <= r < |right| && r != hole && right[r] != UNUSED ==> left[right[r]] == r)
  }

  ghost predicate Mutual(g: MatchMatrix, left: seq<int>, right: seq<int>) {
    MutualExcept(g, left, right, UNUSED)
  }

  ghost function Unseen(seen: seq<bool>): set<int> {
    set r | 0 <= r < |seen| && !seen[r]
  }

  ghost predicate NeighboursIn(g: MatchMatrix, l: int, d: set<int>) {
    forall r :: 0 <= r < g.rhs && g.HasEdge(l, r) ==> r in d
  }

  /** A set of matched right nodes whose partners have no edge out of the set:
      what a failed search leaves behind. */
  ghost predicate Dead(g: MatchMatrix, right: seq<int>, d: set<int>) {
    forall r <- d :: 0 <= r < |right| && right[r] != UNUSED && NeighboursIn(g, right[r], d)
  }

  ghost function SeenSet(seen: seq<bool>): set<int> {
    set r | 0 <= r < |seen| && seen[r]
  }

  ghost predicate NeighboursSeen(g: MatchMatrix, l: int, seen: seq<bool>)
    requires |seen| == g.rhs
  {
    forall r :: 0 <= r < g.rhs && g.HasEdge(l, r) ==> seen[r]
  }

  /** Every right node seen since `seen0` is taken by a left node with nothing unseen to go to. */
  ghost predicate Exhausted(g: MatchMatrix, right: seq<int>, seen0: seq<bool>, seen1: seq<bool>)
    requires |right| == |seen0| == |seen1| == g.rhs
  {
    forall r :: 0 <= r < g.rhs && seen1[r] && !seen0[r] ==> right[r] != UNUSED && NeighboursSeen(g, right[r], seen1)
  }

  ghost predicate Grown(seen0: seq<bool>, seen1: seq<bool>)
    requires |seen0| == |seen1|
  {
    forall r :: 0 <= r < |seen0| && seen0[r] ==> seen1[r]
  }

  /** What one search from `l` may do to the vectors: `...0` before, `...1` after. */
  ghost predicate Searched(g: MatchMatrix, l: int, dead: set<int>,
                           left0: seq<int>, right0: seq<int>, seen0: seq<bool>,
                           left1: seq<int>, right1: seq<int>, seen1: seq<bool>, ok: bool)
    requires |left0| == |left1| == g.lhs && |right0| == |right1| == |seen0| == |seen1| == g.rhs
    requires 0 <= l < g.lhs && Shaped(g, left0, right0)
  {
    && MutualExcept(g, left1, right1, if ok then left0[l] else UNUSED)
    && Grown(seen0, seen1)
    && (forall r :: 0 <= r < g.rhs && seen0[r] ==> right1[r] == right0[r])
    && (forall r :: 0 <= r < g.rhs && right0[r] != UNUSED ==> right1[r] != UNUSED)
    && (forall x :: 0 <= x < g.lhs && x != l ==> (left1[x] == UNUSED <==> left0[x] == UNUSED))
    && (forall x :: 0 <= x < g.lhs && x != l && left1[x] != left0[x] ==> !seen0[left0[x]] && !seen0[left1[x]])
    && (forall r :: r in dead && 0 <= r < g.rhs ==> right1[r] == right0[r])
    && (NeighboursIn(g, l, dead) ==> !ok)
    && if ok then
         left1[l] != UNUSED && !seen0[left1[l]]
       else
         && left1 == left0 && right1 == right0
         && NeighboursSeen(g, l, seen1)
         && Exhausted(g, right1, seen0, seen1)
  }

  /** The branch that follows `r` to the sink, directly or through the search from its partner. */
  lemma Link(g: MatchMatrix, l: int, r: int, dead: set<int>,
             left0: seq<int>, right0: seq<int>, seen0: seq<bool>, seen: seq<bool>,
             left1: seq<int>, right1: seq<int>, seen1: seq<bool>)
    requires |left0| == |left1| == g.lhs && |right0| == |right1| == |seen0| == |seen1| == |seen| == g.rhs
    requires Mutual(g, left0, right0) && Dead(g, right0, dead)
    requires 0 <= l < g.lhs && 0 <= r < g.rhs && g.HasEdge(l, r)
    requires left0[l] != UNUSED ==> seen0[left0[l]]
    requires Grown(seen0, seen) && !seen0[r] && seen[r]
    requires if right0[r] == UNUSED then left1 == left0 && right1 == right0 && seen1 == seen
             else Searched(g, right0[r], dead, left0, right0, seen, left1, right1, seen1, true)
    ensures Searched(g, l, dead, left0, right0, seen0, left1[l := r], right1[r := l], seen1, true)
  {
    var left2, right2 := left1[l := r], right1[r := l];
    var hole := left0[l];
    if right0[r] != UNUSED {
      var p := right0[r];
      assert left0[p] == r && p != l;
      assert left1[l] == left0[l];
      assert left1[p] != r;
    }
    assert MutualExcept(g, left2, right2, hole) by {
      assert hole != UNUSED ==> right1[hole] == l;
      assert forall x :: 0 <= x < g.lhs && x != l && left1[x] != UNUSED ==> left1[x] != r;
    }
  }

  /** The branch that follows `r` to a dead end. */
  lemma DeadEnd(g: MatchMatrix, l: int, r: int, dead: set<int>,
                left0: seq<int>, right0: seq<int>, seen0: seq<bool>, seen: seq<bool>, seen1: seq<bool>)
    requires |left0| == g.lhs && |right0| == |seen0| == |seen1| == |seen| == g.rhs
    requires Mutual(g, left0, right0) && 0 <= l < g.lhs && 0 <= r < g.rhs
    requires Grown(seen0, seen) && !seen0[r] && !seen[r] && right0[r] != UNUSED
    requires Exhausted(g, right0, seen0, seen)
    requires Searched(g, right0[r], dead, left0, right0, seen[r := true], left0, right0, seen1, false)
    ensures Grown(seen, seen1) && seen1[r] && Exhausted(g, right0, seen0, seen1)
  {
  }

  ghost function LinkedPairs(left: seq<int>): set<(int, int)> {
    set l | 0 <= l < |left| && left[l] != UNUSED :: (l, left[l])
  }

  lemma {:induction false} InjectionBounds<T, U>(s: set<T>, t: set<U>, f: map<T, U>)
    requires f.Keys == s
    requires forall x <- s :: f[x] in t
    requires forall x <- s, y <- s :: f[x] == f[y] ==> x == y
    ensures |s| <= |t|
  {
    if s != {} {
      var x :| x in s;
      var s', t' := s - {x}, t - {f[x]};
      InjectionBounds(s', t', map y | y in s' :: f[y]);
    }
  }

  lemma {:induction false} PairsSize(p: Pairs)
    requires Ascending(p)
    ensures |Edges(p)| == |p|
  {
    if |p| > 0 {
      var q, last := p[..|p| - 1], p[|p| - 1];
      PairsSize(q);
      assert p == q + [last];
      assert Edges(p) == Edges(q) + {last};
    }
  }

  lemma LinkedPairsMatch(g: MatchMatrix, left: seq<int>, right: seq<int>)
    requires Mutual(g, left, right)
    ensures IsMatching(g, LinkedPairs(left))
  {
  }

  /** Koenig: the dead right nodes together with the matched left nodes whose partner is alive
      meet every edge, and every one of them carries its own matched pair. */
  lemma NoLargerMatching(g: MatchMatrix, left: seq<int>, right: seq<int>, dead: set<int>, m: set<(int, int)>)
    requires Mutual(g, left, right) && Dead(g, right, dead)
    requires forall l :: 0 <= l < g.lhs && left[l] == UNUSED ==> NeighboursIn(g, l, dead)
    requires IsMatching(g, m)
    ensures |m| <= |LinkedPairs(left)|
  {
    var cover := map e | e in m :: if e.1 in dead then (right[e.1], e.1) else (e.0, left[e.0]);
    forall e <- m
      ensures cover[e] in LinkedPairs(left)
      ensures cover[e].1 in dead <==> e.1 in dead
    {
      if e.1 in dead {
        assert left[right[e.1]] == e.1;
      } else if left[e.0] != UNUSED && left[e.0] in dead {
        assert false;
      }
    }
    InjectionBounds(m, LinkedPairs(left), cover);
  }

  lemma {:induction false} LeftsSize(g: MatchMatrix, m: set<(int, int)>)
    requires IsMatching(g, m)
    ensures |Lefts(m)| == |m|
  {
    if m != {} {
      var e :| e in m;
      LeftsSize(g, m - {e});
      assert Lefts(m) == Lefts(m - {e}) + {e.0};
    }
  }

  lemma {:induction false} RightsSize(g: MatchMatrix, m: set<(int, int)>)
    requires IsMatching(g, m)
    ensures |Rights(m)| == |m|
  {
    if m != {} {
      var e :| e in m;
      RightsSize(g, m - {e});
      assert Rights(m) == Rights(m - {e}) + {e.1};
    }
  }

  lemma {:induction false} SubsetFills<T>(s: set<T>, t: set<T>)
    requires s <= t && |s| >= |t|
    ensures s == t
  {
    if s != t {
      var x :| x in t && x !in s;
      SubsetSize(s, t - {x});
    }
  }

  lemma {:induction false} SubsetSize<T>(s: set<T>, t: set<T>)
    requires s <= t
    ensures |s| <= |t|
  {
    if s != {} {
      var x :| x in s;
      SubsetSize(s - {x}, t - {x});
    }
  }

  /** A matching saturates a side exactly when it has that side's size. */
  lemma SaturatesBySize(g: MatchMatrix, m: set<(int, int)>)
    requires IsMatching(g, m)
    ensures |m| <= g.lhs && |m| <= g.rhs
    ensures |m| == g.rhs <==> Rights(m) == UpTo(g.rhs)
    ensures |m| == g.lhs <==> Lefts(m) == UpTo(g.lhs)
  {
    LeftsSize(g, m);
    RightsSize(g, m);
    SubsetSize(Rights(m), UpTo(g.rhs));
    SubsetSize(Lefts(m), UpTo(g.lhs));
    if |m| == g.rhs { SubsetFills(Rights(m), UpTo(g.rhs)); }
    if |m| == g.lhs { SubsetFills(Lefts(m), UpTo(g.lhs)); }
  }

  /** Searches from the first `n` left nodes are done: those still unmatched reach dead nodes only. */
  ghost predicate Settled(g: MatchMatrix, left: seq<int>, right: seq<int>, dead: set<int>, n: int) {
    && Mutual(g, left, right) && Dead(g, right, dead)
    && (forall x :: 0 <= x < n && x < g.lhs && left[x] == UNUSED ==> NeighboursIn(g, x, dead))
    && (forall x :: n <= x < g.lhs && 0 <= x ==> left[x] == UNUSED)
  }

  lemma SettleNext(g: MatchMatrix, dead: set<int>, l: int, left0: seq<int>, right0: seq<int>, seen0: seq<bool>,
                   left1: seq<int>, right1: seq<int>, seen1: seq<bool>, ok: bool)
    requires |left0| == |left1| == g.lhs && |right0| == |right1| == |seen0| == |seen1| == g.rhs
    requires 0 <= l < g.lhs && Settled(g, left0, right0, dead, l)
    requires forall r :: 0 <= r < g.rhs ==> !seen0[r]
    requires Searched(g, l, dead, left0, right0, seen0, left1, right1, seen1, ok)
    ensures Settled(g, left1, right1, if ok then dead else dead + SeenSet(seen1), l + 1)
  {
    if !ok {
      var dead' := dead + SeenSet(seen1);
      forall r <- dead' ensures 0 <= r < g.rhs && right1[r] != UNUSED && NeighboursIn(g, right1[r], dead') {
      }
    }
  }

  class MaxBipartiteMatchState {
    const graph: MatchMatrix
    const left: array<int>
    const right: array<int>

    ghost predicate Valid()
      reads this, left, right
    {
      left != right && Mutual(graph, left[..], right[..])
    }

    constructor (g: MatchMatrix)
      ensures graph == g && Valid() && fresh(left) && fresh(right)
      ensures forall l :: 0 <= l < left.Length ==> left[l] == UNUSED
    {
      graph := g;
      left := new int[g.lhs](_ => UNUSED);
      right := new int[g.rhs](_ => UNUSED);
    }

    /** Depth-first search from left node `l` to the sink; on success one unit of flow is added. */
    method TryAugment(l: int, seen: array<bool>, ghost dead: set<int>) returns (ok: bool)
      requires Valid() && seen.Length == graph.rhs
      requires 0 <= l < graph.lhs
      requires left[l] != UNUSED ==> seen[left[l]]
      requires Dead(graph, right[..], dead)
      modifies left, right, seen
      decreases Unseen(seen[..])
      ensures Searched(graph, l, dead, old(left[..]), old(right[..]), old(seen[..]), left[..], right[..], seen[..], ok)
    {
      ghost var left0, right0, seen0 := left[..], right[..], seen[..];
      for r := 0 to graph.rhs
        invariant left[..] == left0 && right[..] == right0
        invariant Grown(seen0, seen[..])
        invariant forall q :: 0 <= q < r && graph.HasEdge(l, q) ==> seen[q]
        invariant Exhausted(graph, right0, seen0, seen[..])
      {
        if seen[r] { continue; }
        if !graph.HasEdge(l, r) { continue; }
        ghost var before := seen[..];
        seen[r] := true;
        assert seen[..] == before[r := true];
        assert r in Unseen(seen0) && r !in Unseen(seen[..]) && Unseen(seen[..]) <= Unseen(seen0);
        var found := right[r] == UNUSED;
        if !found {
          found := TryAugment(right[r], seen, dead);
        }
        if found {
          Link(graph, l, r, dead, left0, right0, seen0, before[r := true], left[..], right[..], seen[..]);
          ghost var left1, right1 := left[..], right[..];
          left[l] := r;
          right[r] := l;
          assert left[..] == left1[l := r] && right[..] == right1[r := l];
          return true;
        }
        DeadEnd(graph, l, r, dead, left0, right0, seen0, before, seen[..]);
      }
      return false;
    }

    /** The search loop of Compute: one augmentation attempt from every left node. */
    method AugmentAll() returns (ghost dead: set<int>)
      requires Valid() && forall l :: 0 <= l < left.Length ==> left[l] == UNUSED
      modifies left, right
      ensures left != right && Settled(graph, left[..], right[..], dead, graph.lhs)
    {
      var seen := new bool[graph.rhs];
      dead := {};
      for l := 0 to graph.lhs
        invariant left != right && Settled(graph, left[..], right[..], dead, l)
      {
        forall r | 0 <= r < seen.Length { seen[r] := false; }
        ghost var left0, right0, seen0 := left[..], right[..], seen[..];
        var ok := TryAugment(l, seen, dead);
        SettleNext(graph, dead, l, left0, right0, seen0, left[..], right[..], seen[..], ok);
        dead := if ok then dead else dead + SeenSet(seen[..]);
      }
    }

    /** The edges of a maximum matching, in order of their left ends. */
    method Compute() returns (result: Pairs)
      requires Valid() && forall l :: 0 <= l < left.Length ==> left[l] == UNUSED
      modifies left, right
      ensures Valid()
      ensures Ascending(result)
      ensures IsMatching(graph, Edges(result))
      ensures forall m :: IsMatching(graph, m) ==> |m| <= |result|
    {
      ghost var dead := AugmentAll();
      result := [];
      ghost var links := left[..];
      for l := 0 to left.Length
        invariant left[..] == links
        invariant Ascending(result)
        invariant forall e <- result :: e.0 < l
        invariant Edges(result) == LinkedPairs(links[..l])
      {
        var r := left[l];
        if r == UNUSED {
          assert LinkedPairs(links[..l + 1]) == LinkedPairs(links[..l]);
          continue;
        }
        assert LinkedPairs(links[..l + 1]) == LinkedPairs(links[..l]) + {(l, r)};
        result := result + [(l, r)];
      }
      PairsSize(result);
      assert links[..left.Length] == links;
      LinkedPairsMatch(graph, links, right[..]);
      forall m | IsMatching(graph, m) ensures |m| <= |result| {
        NoLargerMatching(graph, links, right[..], dead, m);
      }
    }
  }

  /** FindMaxBipartiteMatching: the solver on a fresh state. */
  method FindMaxBipartiteMatching(g: MatchMatrix) returns (result: Pairs)
    ensures Ascending(result)
    ensures IsMatching(g, Edges(result))
    ensures forall m :: IsMatching(g, m) ==> |m| <= |result|
  {
    var state := new MaxBipartiteMatchState(g);
    result := state.Compute();
  }

  /** FindPairing: whether some pairing meets the container matcher's flags. */
  method FindPairing(g: MatchMatrix, superset: bool, subset: bool) returns (ok: bool)
    ensures ok <==> exists m :: IsPairing(g, m, superset, subset)
  {
    var matches := FindMaxBipartiteMatching(g);
    ghost var found := Edges(matches);
    PairsSize(matches);
    SaturatesBySize(g, found);
    ok := true;
    if superset && |matches| < g.rhs {
      ok := false;
    } else if subset && |matches| < g.lhs {
      ok := false;
    }
    if ok {
      assert IsPairing(g, found, superset, subset);
    }
    forall m | IsPairing(g, m, superset, subset) ensures ok {
      SaturatesBySize(g, m);
    }
  }
}
