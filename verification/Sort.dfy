/** The library's own sort: insertion sort for short ranges, three-way quicksort around a median of
    three for long ones, recursing into the smaller part only. */
module Sort {
  /** `lt` is the strict total order the comparator stands for. */
  ghost predicate StrictTotal<T(!new)>(lt: (T, T) -> bool) {
    && (forall x :: !lt(x, x))
    && (forall x, y :: x != y ==> lt(x, y) || lt(y, x))
    && (forall x, y, z :: lt(x, y) && lt(y, z) ==> lt(x, z))
  }

  /** The comparator decides the order of different elements; on equal ones it may say anything
      (the document order comparator says true for an attribute against itself). */
  ghost predicate Decides<T(!new)>(pred: (T, T) -> bool, lt: (T, T) -> bool) {
    StrictTotal(lt) && forall x, y :: x != y ==> (pred(x, y) <==> lt(x, y))
  }

  ghost predicate Le<T>(lt: (T, T) -> bool, x: T, y: T) {
    x == y || lt(x, y)
  }

  ghost predicate Distinct<T>(s: seq<T>) {
    forall i, j :: 0 <= i < j < |s| ==> s[i] != s[j]
  }

  /** Equal elements are harmless to a comparator that is false on them. */
  ghost predicate Fair<T(!new)>(pred: (T, T) -> bool, s: seq<T>) {
    Distinct(s) || forall x :: !pred(x, x)
  }

  /** `t` is `s` with the elements of [lo, hi) rearranged. */
  ghost predicate Rearranged<T>(s: seq<T>, t: seq<T>, lo: int, hi: int)
    requires 0 <= lo <= hi <= |s|
  {
    |t| == |s| && t[..lo] == s[..lo] && t[hi..] == s[hi..] && multiset(t[lo..hi]) == multiset(s[lo..hi])
  }

  ghost function Swapped<T>(s: seq<T>, i: int, j: int): seq<T>
    requires 0 <= i < |s| && 0 <= j < |s|
  {
    s[i := s[j]][j := s[i]]
  }

  lemma SwapRearranges<T>(s: seq<T>, i: int, j: int, lo: int, hi: int)
    requires 0 <= lo <= i < hi <= |s| && lo <= j < hi
    ensures Rearranged(s, Swapped(s, i, j), lo, hi)
  {
    var t := Swapped(s, i, j);
    var u, v := s[lo..hi], t[lo..hi];
    assert v == u[i - lo := u[j - lo]][j - lo := u[i - lo]];
  }

  lemma RearrangedTrans<T>(s: seq<T>, t: seq<T>, u: seq<T>, lo: int, hi: int)
    requires 0 <= lo <= hi <= |s| && Rearranged(s, t, lo, hi) && Rearranged(t, u, lo, hi)
    ensures Rearranged(s, u, lo, hi)
  {
  }

  lemma RearrangedWider<T>(s: seq<T>, t: seq<T>, lo: int, hi: int, lo': int, hi': int)
    requires 0 <= lo' <= lo <= hi <= hi' <= |s| && Rearranged(s, t, lo, hi)
    ensures Rearranged(s, t, lo', hi')
  {
    assert s[lo'..hi'] == s[..lo][lo'..] + s[lo..hi] + s[hi..][..hi' - hi];
    assert t[lo'..hi'] == t[..lo][lo'..] + t[lo..hi] + t[hi..][..hi' - hi];
    assert t[..lo'] == t[..lo][..lo'] && s[..lo'] == s[..lo][..lo'];
    assert t[hi'..] == t[hi..][hi' - hi..] && s[hi'..] == s[hi..][hi' - hi..];
  }

  lemma RearrangedSource<T>(s: seq<T>, t: seq<T>, lo: int, hi: int, k: int) returns (j: int)
    requires 0 <= lo <= hi <= |s| && Rearranged(s, t, lo, hi) && lo <= k < hi
    ensures lo <= j < hi && s[j] == t[k]
  {
    assert t[k] == t[lo..hi][k - lo];
    assert t[k] in multiset(t[lo..hi]);
    assert t[k] in s[lo..hi];
    var m :| 0 <= m < hi - lo && s[lo..hi][m] == t[k];
    j := lo + m;
  }

  lemma {:induction false} DistinctMultiset<T>(s: seq<T>, t: seq<T>)
    requires multiset(s) == multiset(t) && Distinct(s)
    ensures Distinct(t)
  {
    forall i, j | 0 <= i < j < |t| ensures t[i] != t[j] {
      if t[i] == t[j] {
        CountTwice(t, i, j);
        CountOnce(s, t[i]);
      }
    }
  }

  lemma CountTwice<T>(t: seq<T>, i: int, j: int)
    requires 0 <= i < j < |t| && t[i] == t[j]
    ensures multiset(t)[t[i]] >= 2
  {
    assert t == t[..j] + [t[j]] + t[j + 1..];
    assert t[i] in t[..j];
  }

  lemma {:induction false} CountOnce<T>(s: seq<T>, x: T)
    requires Distinct(s)
    ensures multiset(s)[x] <= 1
  {
    if s != [] {
      var k := |s| - 1;
      assert s == s[..k] + [s[k]];
      CountOnce(s[..k], x);
      if s[k] == x { assert x !in s[..k]; }
    }
  }

  lemma FairRearranged<T(!new)>(pred: (T, T) -> bool, s: seq<T>, t: seq<T>, lo: int, hi: int)
    requires 0 <= lo <= hi <= |s| && Rearranged(s, t, lo, hi) && Fair(pred, s[lo..hi])
    ensures Fair(pred, t[lo..hi])
  {
    if Distinct(s[lo..hi]) { DistinctMultiset(s[lo..hi], t[lo..hi]); }
  }

  method Swap<T>(a: array<T>, i: int, j: int)
    requires 0 <= i < a.Length && 0 <= j < a.Length
    modifies a
    ensures a[..] == Swapped(old(a[..]), i, j)
  {
    a[i], a[j] := a[j], a[i];
  }

  /** median3: the place of the middle one of three different elements. */
  method Median3<T(!new)>(a: array<T>, first0: int, middle0: int, last0: int, pred: (T, T) -> bool,
                          ghost lt: (T, T) -> bool) returns (m: int)
    requires 0 <= first0 < a.Length && 0 <= middle0 < a.Length && 0 <= last0 < a.Length
    requires Decides(pred, lt)
    ensures m == first0 || m == middle0 || m == last0
    ensures a[first0] != a[middle0] && a[middle0] != a[last0] && a[first0] != a[last0] ==>
              && (lt(a[m], a[first0]) || lt(a[m], a[middle0]) || lt(a[m], a[last0]))
              && (lt(a[first0], a[m]) || lt(a[middle0], a[m]) || lt(a[last0], a[m]))
  {
    var first, middle, last := first0, middle0, last0;
    if pred(a[middle], a[first]) { middle, first := first, middle; }
    if pred(a[last], a[middle]) { last, middle := middle, last; }
    if pred(a[middle], a[first]) { middle, first := first, middle; }
    return middle;
  }

  /** Elements of [lo, hi) are in order, except that `hole` is free and `val` belongs before what follows it. */
  ghost predicate HoleAt<T(!new)>(s: seq<T>, lt: (T, T) -> bool, lo: int, hole: int, it: int, val: T)
    requires 0 <= lo <= hole <= it < |s|
  {
    && (forall i, j :: lo <= i < j <= it && i != hole && j != hole ==> Le(lt, s[i], s[j]))
    && (forall j :: hole < j <= it ==> Le(lt, val, s[j]))
  }

  ghost predicate SortedIn<T>(lt: (T, T) -> bool, s: seq<T>, lo: int, hi: int)
    requires 0 <= lo <= hi <= |s|
  {
    forall i, j :: lo <= i < j < hi ==> Le(lt, s[i], s[j])
  }

  /** `s` with `val` put into the hole rearranges [lo, it] of `s1`; the rest is in order around the hole. */
  ghost predicate Inserting<T(!new)>(s1: seq<T>, s: seq<T>, lt: (T, T) -> bool, lo: int, hole: int, it: int, val: T) {
    && 0 <= lo <= hole <= it < |s| == |s1|
    && Rearranged(s1, s[hole := val], lo, it + 1)
    && HoleAt(s, lt, lo, hole, it, val)
  }

  lemma InsertingMoves<T(!new)>(s1: seq<T>, s: seq<T>, pred: (T, T) -> bool, lt: (T, T) -> bool,
                                lo: int, hole: int, it: int, val: T)
    requires Inserting(s1, s, lt, lo, hole, it, val) && lo < hole && Decides(pred, lt) && pred(val, s[hole - 1])
    ensures Inserting(s1, s[hole := s[hole - 1]], lt, lo, hole - 1, it, val)
  {
    HoleMoves(s, pred, lt, lo, hole, it, val);
    ShiftHole(s1, s, s[hole := s[hole - 1]], lo, hole - 1, it + 1, val);
  }

  lemma InsertingStarts<T(!new)>(s1: seq<T>, lt: (T, T) -> bool, lo: int, it: int)
    requires 0 <= lo < it < |s1| && SortedIn(lt, s1, lo, it)
    ensures Inserting(s1, s1, lt, lo, it, it, s1[it])
  {
    assert s1[it := s1[it]] == s1;
  }

  /** The inner loop of insertion_sort: moves a[it] back to its place. */
  method Insert<T(!new)>(a: array<T>, lo: int, it: int, pred: (T, T) -> bool, ghost lt: (T, T) -> bool)
    requires 0 <= lo < it < a.Length && Decides(pred, lt) && SortedIn(lt, a[..], lo, it)
    modifies a
    ensures Rearranged(old(a[..]), a[..], lo, it + 1) && SortedIn(lt, a[..], lo, it + 1)
  {
    var val, hole := a[it], it;
    ghost var s1, s := a[..], a[..];
    InsertingStarts(s1, lt, lo, it);
    while hole > lo && pred(val, a[hole - 1])
      invariant s == a[..] && Inserting(s1, s, lt, lo, hole, it, val)
    {
      InsertingMoves(s1, s, pred, lt, lo, hole, it, val);
      a[hole] := a[hole - 1];
      s := s[hole := s[hole - 1]];
      hole := hole - 1;
    }
    HoleFills(s, pred, lt, lo, hole, it, val);
    a[hole] := val;
    assert a[..] == s[hole := val];
  }

  lemma HoleMoves<T(!new)>(s: seq<T>, pred: (T, T) -> bool, lt: (T, T) -> bool, lo: int, hole: int, it: int, val: T)
    requires 0 <= lo < hole <= it < |s| && Decides(pred, lt) && HoleAt(s, lt, lo, hole, it, val)
    requires pred(val, s[hole - 1])
    ensures HoleAt(s[hole := s[hole - 1]], lt, lo, hole - 1, it, val)
  {
  }

  lemma HoleFills<T(!new)>(s: seq<T>, pred: (T, T) -> bool, lt: (T, T) -> bool, lo: int, hole: int, it: int, val: T)
    requires 0 <= lo <= hole <= it < |s| && Decides(pred, lt) && HoleAt(s, lt, lo, hole, it, val)
    requires hole > lo ==> !pred(val, s[hole - 1])
    ensures SortedIn(lt, s[hole := val], lo, it + 1)
  {
    forall i | lo <= i < hole ensures Le(lt, s[i], val) {
      assert i < hole - 1 ==> Le(lt, s[i], s[hole - 1]);
    }
  }

  /** insertion_sort on [lo, hi). */
  method InsertionSort<T(!new)>(a: array<T>, lo: int, hi: int, pred: (T, T) -> bool, ghost lt: (T, T) -> bool)
    requires 0 <= lo <= hi <= a.Length && Decides(pred, lt)
    modifies a
    ensures Rearranged(old(a[..]), a[..], lo, hi) && SortedIn(lt, a[..], lo, hi)
  {
    if lo == hi { return; }
    ghost var s0 := a[..];
    var it := lo + 1;
    while it != hi
      invariant lo < it <= hi
      invariant Rearranged(s0, a[..], lo, hi) && SortedIn(lt, a[..], lo, it)
    {
      ghost var s1 := a[..];
      Insert(a, lo, it, pred, lt);
      RearrangedWider(s1, a[..], lo, it + 1, lo, hi);
      it := it + 1;
    }
  }

  lemma ShiftHole<T>(s1: seq<T>, s2: seq<T>, s3: seq<T>, lo: int, hole: int, hi: int, val: T)
    requires 0 <= lo <= hole < hole + 1 < hi <= |s2| && |s1| == |s2|
    requires s3 == s2[hole + 1 := s2[hole]]
    requires Rearranged(s1, s2[hole + 1 := val], lo, hi)
    ensures Rearranged(s1, s3[hole := val], lo, hi)
  {
    var t := s2[hole + 1 := val];
    SwapRearranges(t, hole, hole + 1, lo, hi);
    assert Swapped(t, hole, hole + 1) == s3[hole := val];
    RearrangedTrans(s1, t, s3[hole := val], lo, hi);
  }

  /** partition3 in progress: = pivot on [lo, eq), < on [eq, less), unknown on [less, more), > on [more, hi). */
  ghost predicate Partitioning<T(!new)>(s0: seq<T>, s: seq<T>, pred: (T, T) -> bool, pivot: T,
                                        lo: int, eq: int, less: int, more: int, hi: int) {
    && 0 <= lo <= eq <= less <= more <= hi <= |s0|
    && Rearranged(s0, s, lo, hi) && (lo < eq ==> !pred(pivot, pivot))
    && (forall k :: lo <= k < eq ==> s[k] == pivot)
    && (forall k :: eq <= k < less ==> pred(s[k], pivot))
    && (forall k :: more <= k < hi ==> s[k] != pivot && !pred(s[k], pivot))
  }

  /** The `eq` pivots in front of `n - eq` smaller elements, `t` of them already swapped to the end. */
  ghost predicate Turning<T(!new)>(s: seq<T>, pred: (T, T) -> bool, pivot: T, lo: int, eq: int, t: int, n: int)
    requires 0 <= lo && 0 <= eq <= n && lo + n <= |s|
  {
    var u := if t < n - eq then t else n - eq;
    forall k :: lo <= k < lo + n ==> if lo + u <= k < lo + eq || lo + n - u <= k then s[k] == pivot else pred(s[k], pivot)
  }

  lemma TurningNext<T(!new)>(s: seq<T>, pred: (T, T) -> bool, pivot: T, lo: int, eq: int, t: int, n: int, i: int, j: int)
    requires 0 <= lo && 0 <= t < eq <= n && lo + n <= |s| && Turning(s, pred, pivot, lo, eq, t, n)
    requires i == lo + t && j == lo + n - 1 - t
    ensures Turning(Swapped(s, i, j), pred, pivot, lo, eq, t + 1, n)
  {
  }

  ghost predicate Partitioned<T(!new)>(s: seq<T>, pred: (T, T) -> bool, pivot: T, lo: int, eqbeg: int, eqend: int, hi: int) {
    && 0 <= lo <= eqbeg <= eqend <= hi <= |s| && (eqbeg < eqend ==> !pred(pivot, pivot))
    && (forall k :: lo <= k < eqbeg ==> pred(s[k], pivot))
    && (forall k :: eqbeg <= k < eqend ==> s[k] == pivot)
    && (forall k :: eqend <= k < hi ==> s[k] != pivot && !pred(s[k], pivot))
  }

  lemma PartitioningLess<T(!new)>(s0: seq<T>, s: seq<T>, pred: (T, T) -> bool, pivot: T,
                                  lo: int, eq: int, less: int, more: int, hi: int)
    requires Partitioning(s0, s, pred, pivot, lo, eq, less, more, hi) && less < more && pred(s[less], pivot)
    ensures Partitioning(s0, s, pred, pivot, lo, eq, less + 1, more, hi)
  {
  }

  lemma PartitioningTurns<T(!new)>(s0: seq<T>, s: seq<T>, pred: (T, T) -> bool, pivot: T,
                                   lo: int, eq: int, more: int, hi: int)
    requires Partitioning(s0, s, pred, pivot, lo, eq, more, more, hi)
    ensures Turning(s, pred, pivot, lo, eq - lo, 0, more - lo)
  {
  }

  lemma PartitioningEqual<T(!new)>(s0: seq<T>, s: seq<T>, pred: (T, T) -> bool, pivot: T,
                                   lo: int, eq: int, less: int, more: int, hi: int) returns (t: seq<T>)
    requires Partitioning(s0, s, pred, pivot, lo, eq, less, more, hi) && less < more && s[less] == pivot && !pred(s[less], pivot)
    ensures t == Swapped(s, eq, less) && Partitioning(s0, t, pred, pivot, lo, eq + 1, less + 1, more, hi)
  {
    t := Swapped(s, eq, less);
    SwapRearranges(s, eq, less, lo, hi);
    RearrangedTrans(s0, s, t, lo, hi);
  }

  lemma PartitioningMore<T(!new)>(s0: seq<T>, s: seq<T>, pred: (T, T) -> bool, pivot: T,
                                  lo: int, eq: int, less: int, more: int, hi: int) returns (t: seq<T>)
    requires Partitioning(s0, s, pred, pivot, lo, eq, less, more, hi) && less < more
    requires s[less] != pivot && !pred(s[less], pivot)
    ensures t == Swapped(s, less, more - 1) && Partitioning(s0, t, pred, pivot, lo, eq, less, more - 1, hi)
  {
    var j := more - 1;
    t := Swapped(s, less, j);
    SwapRearranges(s, less, j, lo, hi);
    RearrangedTrans(s0, s, t, lo, hi);
  }

  lemma PartitioningEnds<T(!new)>(s0: seq<T>, s: seq<T>, t: seq<T>, pred: (T, T) -> bool, pivot: T,
                                  lo: int, eq: int, eqbeg: int, more: int, hi: int)
    requires Partitioning(s0, s, pred, pivot, lo, eq, more, more, hi) && Rearranged(s, t, lo, more)
    requires lo <= eqbeg <= more && eqbeg == more - (eq - lo)
    requires forall k :: lo <= k < eqbeg ==> pred(t[k], pivot)
    requires forall k :: eqbeg <= k < more ==> t[k] == pivot
    ensures Rearranged(s0, t, lo, hi) && Partitioned(t, pred, pivot, lo, eqbeg, more, hi)
  {
    RearrangedWider(s, t, lo, more, lo, hi);
    forall k | more <= k < hi ensures t[k] == s[k] {
      Unchanged(s, t, lo, more, k);
    }
  }

  lemma Unchanged<T>(s: seq<T>, t: seq<T>, lo: int, hi: int, k: int)
    requires 0 <= lo <= hi <= |s| && Rearranged(s, t, lo, hi) && 0 <= k < |s| && !(lo <= k < hi)
    ensures s[k] == t[k]
  {
    if k < lo { assert s[..lo][k] == t[..lo][k]; } else { assert s[hi..][k - hi] == t[hi..][k - hi]; }
  }

  /** The next element equals the pivot. */
  method EqualTurn<T(!new,==)>(a: array<T>, ghost s0: seq<T>, lo: int, hi: int, pivot: T, pred: (T, T) -> bool, eq: int, less: int, more: int)
    requires Partitioning(s0, a[..], pred, pivot, lo, eq, less, more, hi) && less < more && a[less] == pivot && !pred(pivot, pivot)
    modifies a
    ensures Partitioning(s0, a[..], pred, pivot, lo, eq + 1, less + 1, more, hi)
  {
    ghost var s := PartitioningEqual(s0, a[..], pred, pivot, lo, eq, less, more, hi);
    Swap(a, eq, less);
    assert a[..] == s;
  }

  /** The next element is larger. */
  method LargerTurn<T(!new,==)>(a: array<T>, ghost s0: seq<T>, lo: int, hi: int, pivot: T, pred: (T, T) -> bool, eq: int, less: int, more: int)
    requires Partitioning(s0, a[..], pred, pivot, lo, eq, less, more, hi) && less < more && a[less] != pivot && !pred(a[less], pivot)
    modifies a
    ensures Partitioning(s0, a[..], pred, pivot, lo, eq, less, more - 1, hi)
  {
    ghost var s := PartitioningMore(s0, a[..], pred, pivot, lo, eq, less, more, hi);
    Swap(a, less, more - 1);
    assert a[..] == s;
  }

  /** One turn: the next element joins the equal, the smaller or the larger ones. */
  method SeparateTurn<T(!new,==)>(a: array<T>, ghost s0: seq<T>, lo: int, hi: int, pivot: T, pred: (T, T) -> bool, eq0: int, less0: int, more0: int)
      returns (eq: int, less: int, more: int)
    requires Partitioning(s0, a[..], pred, pivot, lo, eq0, less0, more0, hi) && less0 < more0
    modifies a
    ensures Partitioning(s0, a[..], pred, pivot, lo, eq, less, more, hi) && more - less < more0 - less0
  {
    eq, less, more := eq0, less0, more0;
    if pred(a[less], pivot) {
      PartitioningLess(s0, a[..], pred, pivot, lo, eq, less, more, hi);
      less := less + 1;
    } else if a[less] == pivot {
      EqualTurn(a, s0, lo, hi, pivot, pred, eq, less, more);
      eq, less := eq + 1, less + 1;
    } else {
      more := more - 1;
      LargerTurn(a, s0, lo, hi, pivot, pred, eq, less, more + 1);
    }
  }

  /** The first loop of partition3. */
  method Separate<T(!new,==)>(a: array<T>, lo: int, hi: int, pivot: T, pred: (T, T) -> bool) returns (eq: int, more: int)
    requires 0 <= lo <= hi <= a.Length
    modifies a
    ensures Partitioning(old(a[..]), a[..], pred, pivot, lo, eq, more, more, hi)
  {
    var less;
    eq, less, more := lo, lo, hi;
    ghost var s0 := a[..];
    while less < more
      invariant Partitioning(s0, a[..], pred, pivot, lo, eq, less, more, hi)
      decreases more - less
    {
      eq, less, more := SeparateTurn(a, s0, lo, hi, pivot, pred, eq, less, more);
    }
  }

  /** partition3: smaller, equal and larger elements of [lo, hi), in this order. */
  method Partition3<T(!new,==)>(a: array<T>, lo: int, hi: int, pivot: T, pred: (T, T) -> bool)
      returns (eqbeg: int, eqend: int)
    requires 0 <= lo <= hi <= a.Length
    modifies a
    ensures Rearranged(old(a[..]), a[..], lo, hi) && Partitioned(a[..], pred, pivot, lo, eqbeg, eqend, hi)
  {
    ghost var s0 := a[..];
    var eq, more := Separate(a, lo, hi, pivot, pred);
    ghost var s := a[..];
    PartitioningTurns(s0, s, pred, pivot, lo, eq, more, hi);
    eqbeg := MoveEqual(a, lo, eq, more, pivot, pred);
    eqend := more;
    PartitioningEnds(s0, s, a[..], pred, pivot, lo, eq, eqbeg, more, hi);
  }

  ghost predicate Moving<T(!new)>(s0: seq<T>, s: seq<T>, pred: (T, T) -> bool, pivot: T, lo: int, eq: int, it: int, gt: int) {
    && 0 <= lo <= it <= eq <= gt <= |s| == |s0|
    && Rearranged(s0, s, lo, gt) && Turning(s, pred, pivot, lo, eq - lo, it - lo, gt - lo)
  }

  lemma MovingNext<T(!new)>(s0: seq<T>, s: seq<T>, pred: (T, T) -> bool, pivot: T, lo: int, eq: int, it: int, gt: int, j: int)
    requires Moving(s0, s, pred, pivot, lo, eq, it, gt) && it < eq && j == gt - 1 - (it - lo)
    ensures Moving(s0, Swapped(s, it, j), pred, pivot, lo, eq, it + 1, gt)
  {
    TurningNext(s, pred, pivot, lo, eq - lo, it - lo, gt - lo, it, j);
    SwapRearranges(s, it, j, lo, gt);
  }

  /** The last loop of partition3: swaps the pivots from the front of [lo, gt) to its end. */
  method MoveEqual<T(!new)>(a: array<T>, lo: int, eq: int, gt: int, pivot: T, pred: (T, T) -> bool) returns (eqbeg: int)
    requires 0 <= lo <= eq <= gt <= a.Length
    requires Turning(a[..], pred, pivot, lo, eq - lo, 0, gt - lo)
    modifies a
    ensures Rearranged(old(a[..]), a[..], lo, gt) && lo <= eqbeg <= gt && eqbeg == gt - (eq - lo)
    ensures forall k :: lo <= k < eqbeg ==> pred(a[k], pivot)
    ensures forall k :: eqbeg <= k < gt ==> a[k] == pivot
  {
    ghost var s0, s := a[..], a[..];
    eqbeg := gt;
    var it := lo;
    while it != eq
      invariant lo <= it <= eq && eqbeg == gt - (it - lo)
      invariant s == a[..] && Moving(s0, s, pred, pivot, lo, eq, it, gt)
    {
      eqbeg := eqbeg - 1;
      MovingNext(s0, s, pred, pivot, lo, eq, it, gt, eqbeg);
      Swap(a, it, eqbeg);
      s := Swapped(s, it, eqbeg);
      it := it + 1;
    }
    TurningDone(s, pred, pivot, lo, eq - lo, gt - lo);
  }

  lemma TurningDone<T(!new)>(s: seq<T>, pred: (T, T) -> bool, pivot: T, lo: int, eq: int, n: int)
    requires 0 <= lo && 0 <= eq <= n && lo + n <= |s| && Turning(s, pred, pivot, lo, eq, eq, n)
    ensures forall k :: lo <= k < lo + n - eq ==> pred(s[k], pivot)
    ensures forall k :: lo + n - eq <= k < lo + n ==> s[k] == pivot
  {
  }

  /** Every pair of [lo0, hi0) is in order unless both are inside [lo, hi), which remains to be sorted. */
  ghost predicate Pending<T(!new)>(lt: (T, T) -> bool, s: seq<T>, lo0: int, hi0: int, lo: int, hi: int) {
    && 0 <= lo0 <= lo <= hi <= hi0 <= |s|
    && forall i, j :: lo0 <= i < j < hi0 && (i < lo || hi <= j) ==> Le(lt, s[i], s[j])
  }

  /** Pairs of [lo, hi) are in order unless both lie before `l` or both from `r` on. */
  ghost predicate Split<T(!new)>(lt: (T, T) -> bool, s: seq<T>, lo: int, l: int, r: int, hi: int) {
    && 0 <= lo <= l <= r <= hi <= |s|
    && forall i, j :: lo <= i < j < hi && !(j < l) && !(r <= i) ==> Le(lt, s[i], s[j])
  }

  lemma PartitionedSplits<T(!new)>(pred: (T, T) -> bool, lt: (T, T) -> bool, s: seq<T>, pivot: T,
                                   lo: int, l: int, r: int, hi: int)
    requires Decides(pred, lt) && Partitioned(s, pred, pivot, lo, l, r, hi)
    ensures Split(lt, s, lo, l, r, hi)
  {
    forall i, j | lo <= i < j < hi && !(j < l) && !(r <= i) ensures Le(lt, s[i], s[j]) {
      assert Le(lt, s[i], pivot) && Le(lt, pivot, s[j]);
    }
  }

  lemma Source<T>(s: seq<T>, t: seq<T>, lo: int, hi: int, k: int) returns (j: int)
    requires 0 <= lo <= hi <= |s| && Rearranged(s, t, lo, hi) && 0 <= k < |s|
    ensures 0 <= j < |s| && s[j] == t[k] && (lo <= k < hi <==> lo <= j < hi) && (!(lo <= k < hi) ==> j == k)
  {
    if lo <= k < hi {
      j := RearrangedSource(s, t, lo, hi, k);
    } else {
      j := k;
      Unchanged(s, t, lo, hi, k);
    }
  }

  lemma PendingKept<T(!new)>(lt: (T, T) -> bool, s: seq<T>, t: seq<T>, lo0: int, hi0: int, lo: int, hi: int, x: int, y: int)
    requires Pending(lt, s, lo0, hi0, lo, hi) && lo <= x <= y <= hi && Rearranged(s, t, x, y)
    ensures Pending(lt, t, lo0, hi0, lo, hi)
  {
    forall i, j | lo0 <= i < j < hi0 && (i < lo || hi <= j) ensures Le(lt, t[i], t[j]) {
      var p := Source(s, t, x, y, i);
      var q := Source(s, t, x, y, j);
      assert Le(lt, s[p], s[q]);
    }
  }

  lemma SplitKept<T(!new)>(lt: (T, T) -> bool, s: seq<T>, t: seq<T>, lo: int, l: int, r: int, hi: int, x: int, y: int)
    requires Split(lt, s, lo, l, r, hi) && ((lo == x && y == l) || (x == r && y == hi)) && Rearranged(s, t, x, y)
    ensures Split(lt, t, lo, l, r, hi)
  {
    forall i, j | lo <= i < j < hi && !(j < l) && !(r <= i) ensures Le(lt, t[i], t[j]) {
      var p := Source(s, t, x, y, i);
      var q := Source(s, t, x, y, j);
      assert Le(lt, s[p], s[q]);
    }
  }

  lemma SplitSorted<T(!new)>(lt: (T, T) -> bool, s: seq<T>, lo0: int, hi0: int, lo: int, l: int, r: int, hi: int)
    requires Pending(lt, s, lo0, hi0, lo, hi) && Split(lt, s, lo, l, r, hi)
    ensures SortedIn(lt, s, r, hi) ==> Pending(lt, s, lo0, hi0, lo, l)
    ensures SortedIn(lt, s, lo, l) ==> Pending(lt, s, lo0, hi0, r, hi)
  {
  }

  /** The pivot's own class, or a larger element, keeps the parts smaller than the whole. */
  lemma PartsShrink<T(!new)>(pred: (T, T) -> bool, lt: (T, T) -> bool, s: seq<T>, t: seq<T>,
                             lo: int, l: int, r: int, hi: int, p: int, q: int)
    requires Decides(pred, lt) && 0 <= lo <= p < hi <= |s| && lo <= q < hi
    requires Rearranged(s, t, lo, hi) && Partitioned(t, pred, s[p], lo, l, r, hi)
    requires pred(s[p], s[p]) ==> lt(s[p], s[q])
    ensures l - lo < hi - lo && hi - r < hi - lo
  {
    RearrangedBack(s, t, lo, hi);
    var p' := RearrangedSource(t, s, lo, hi, p);
    var q' := RearrangedSource(t, s, lo, hi, q);
  }

  lemma RearrangedBack<T>(s: seq<T>, t: seq<T>, lo: int, hi: int)
    requires 0 <= lo <= hi <= |s| && Rearranged(s, t, lo, hi)
    ensures |t| == |s| && Rearranged(t, s, lo, hi)
  {
  }

  lemma DistinctIn<T>(s: seq<T>, lo: int, hi: int, i: int, j: int)
    requires 0 <= lo <= i < j < hi <= |s| && Distinct(s[lo..hi])
    ensures s[i] != s[j]
  {
    assert s[i] == s[lo..hi][i - lo] && s[j] == s[lo..hi][j - lo];
  }

  lemma FairPart<T(!new)>(pred: (T, T) -> bool, s: seq<T>, lo: int, hi: int, lo': int, hi': int)
    requires 0 <= lo <= lo' <= hi' <= hi <= |s| && Fair(pred, s[lo..hi])
    ensures Fair(pred, s[lo'..hi'])
  {
    if Distinct(s[lo..hi]) {
      forall i, j | 0 <= i < j < hi' - lo' ensures s[lo'..hi'][i] != s[lo'..hi'][j] {
        DistinctIn(s, lo, hi, lo' + i, lo' + j);
      }
    }
  }

  ghost function Pow2(n: nat): nat { if n == 0 then 1 else 2 * Pow2(n - 1) }

  ghost function Max(x: int, y: int): int { if x < y then y else x }

  /** One round of sort on a long range: median, partition. */
  method SplitAround<T(!new,==)>(a: array<T>, lo: int, hi: int, pred: (T, T) -> bool, ghost lt: (T, T) -> bool)
      returns (eqbeg: int, eqend: int)
    requires 0 <= lo && hi <= a.Length && hi - lo > 16
    requires Decides(pred, lt) && Fair(pred, a[lo..hi])
    modifies a
    ensures Rearranged(old(a[..]), a[..], lo, hi) && Split(lt, a[..], lo, eqbeg, eqend, hi)
    ensures eqbeg - lo < hi - lo && hi - eqend < hi - lo
  {
    ghost var s := a[..];
    var middle := lo + (hi - lo) / 2;
    var m := Median3(a, lo, middle, hi - 1, pred, lt);
    ghost var q := m;
    if Distinct(s[lo..hi]) {
      DistinctIn(s, lo, hi, lo, middle);
      DistinctIn(s, lo, hi, middle, hi - 1);
      DistinctIn(s, lo, hi, lo, hi - 1);
      q := if lt(a[m], a[lo]) then lo else if lt(a[m], a[middle]) then middle else hi - 1;
    }
    eqbeg, eqend := Partition3(a, lo, hi, a[m], pred);
    PartsShrink(pred, lt, s, a[..], lo, eqbeg, eqend, hi, m, q);
    PartitionedSplits(pred, lt, a[..], s[m], lo, eqbeg, eqend, hi);
  }

  /** sort on [lo0, hi0): a sorted rearrangement; `depth`, the nesting of its recursive calls, is at
      most the binary logarithm of the length. */
  method Sort<T(!new,==)>(a: array<T>, lo0: int, hi0: int, pred: (T, T) -> bool, ghost lt: (T, T) -> bool)
      returns (ghost depth: nat)
    requires 0 <= lo0 <= hi0 <= a.Length
    requires Decides(pred, lt) && Fair(pred, a[lo0..hi0])
    modifies a
    decreases hi0 - lo0
    ensures Rearranged(old(a[..]), a[..], lo0, hi0) && SortedIn(lt, a[..], lo0, hi0)
    ensures Pow2(depth) <= Max(1, hi0 - lo0)
  {
    var lo, hi := lo0, hi0;
    ghost var s0 := a[..];
    depth := 0;
    while hi - lo > 16
      invariant lo0 <= lo <= hi <= hi0 && Rearranged(s0, a[..], lo0, hi0)
      invariant Pending(lt, a[..], lo0, hi0, lo, hi) && Fair(pred, a[lo..hi])
      invariant Pow2(depth) <= Max(1, hi0 - lo0)
      decreases hi - lo
    {
      ghost var d;
      lo, hi, d := SortRound(a, lo0, hi0, lo, hi, pred, lt, s0);
      depth := Max(depth, d);
    }
    ghost var s1 := a[..];
    InsertionSort(a, lo, hi, pred, lt);
    PendingKept(lt, s1, a[..], lo0, hi0, lo, hi, lo, hi);
    RearrangedWider(s1, a[..], lo, hi, lo0, hi0);
  }

  /** Why the comparator has to be false on equal elements if there are any: with more than sixteen copies of one
      element and a comparator that is true on it, partition3 puts all of them before the equal ones, so
      that the larger part, with which the loop goes on, is the whole range again. */
  lemma CopiesStall<T(!new)>(pred: (T, T) -> bool, x: T, s: seq<T>, lo: int, eqbeg: int, eqend: int, hi: int)
    requires Partitioned(s, pred, x, lo, eqbeg, eqend, hi) && pred(x, x) && hi - lo > 16
    requires forall k :: lo <= k < hi ==> s[k] == x
    ensures eqbeg - lo > hi - eqend && eqbeg == hi
  {
    assert s[hi - 1] == x;
  }

  /** The body of sort's loop: partition, sort the smaller part, go on with the larger one. */
  method SortRound<T(!new,==)>(a: array<T>, ghost lo0: int, ghost hi0: int, lo: int, hi: int, pred: (T, T) -> bool,
                               ghost lt: (T, T) -> bool, ghost s0: seq<T>)
      returns (lo': int, hi': int, ghost depth: nat)
    requires 0 <= lo0 <= lo && hi <= hi0 <= a.Length && hi - lo > 16 && |s0| == a.Length
    requires Rearranged(s0, a[..], lo0, hi0) && Pending(lt, a[..], lo0, hi0, lo, hi)
    requires Decides(pred, lt) && Fair(pred, a[lo..hi])
    modifies a
    decreases hi - lo, 0
    ensures lo <= lo' <= hi' <= hi && hi' - lo' < hi - lo
    ensures Rearranged(s0, a[..], lo0, hi0) && Pending(lt, a[..], lo0, hi0, lo', hi') && Fair(pred, a[lo'..hi'])
    ensures Pow2(depth) <= hi - lo
  {
    ghost var s1 := a[..];
    var eqbeg, eqend := SplitAround(a, lo, hi, pred, lt);
    ghost var s2 := a[..];
    FairRearranged(pred, s1, s2, lo, hi);
    if eqbeg - lo > hi - eqend {
      FairPart(pred, s2, lo, hi, eqend, hi);
      depth := Sort(a, eqend, hi, pred, lt);
      RoundDone(pred, lt, s0, s1, s2, a[..], lo0, hi0, lo, hi, eqbeg, eqend, false);
      lo', hi' := lo, eqbeg;
    } else {
      FairPart(pred, s2, lo, hi, lo, eqbeg);
      depth := Sort(a, lo, eqbeg, pred, lt);
      RoundDone(pred, lt, s0, s1, s2, a[..], lo0, hi0, lo, hi, eqbeg, eqend, true);
      lo', hi' := eqend, hi;
    }
    depth := depth + 1;
  }

  lemma RoundDone<T(!new)>(pred: (T, T) -> bool, lt: (T, T) -> bool, s0: seq<T>, s1: seq<T>, s2: seq<T>, s3: seq<T>,
                           lo0: int, hi0: int, lo: int, hi: int, l: int, r: int, left: bool)
    requires 0 <= lo0 <= lo <= hi <= hi0 <= |s0|
    requires Rearranged(s0, s1, lo0, hi0) && Pending(lt, s1, lo0, hi0, lo, hi) && Fair(pred, s1[lo..hi])
    requires Rearranged(s1, s2, lo, hi) && Split(lt, s2, lo, l, r, hi)
    requires if left then Rearranged(s2, s3, lo, l) && SortedIn(lt, s3, lo, l)
             else Rearranged(s2, s3, r, hi) && SortedIn(lt, s3, r, hi)
    ensures Rearranged(s0, s3, lo0, hi0)
    ensures if left then Pending(lt, s3, lo0, hi0, r, hi) && Fair(pred, s3[r..hi])
            else Pending(lt, s3, lo0, hi0, lo, l) && Fair(pred, s3[lo..l])
  {
    var x, y := if left then lo else r, if left then l else hi;
    PendingKept(lt, s1, s2, lo0, hi0, lo, hi, lo, hi);
    PendingKept(lt, s2, s3, lo0, hi0, lo, hi, x, y);
    SplitKept(lt, s2, s3, lo, l, r, hi, x, y);
    SplitSorted(lt, s3, lo0, hi0, lo, l, r, hi);
    RearrangedWider(s2, s3, x, y, lo, hi);
    RearrangedTrans(s1, s2, s3, lo, hi);
    FairRearranged(pred, s1, s3, lo, hi);
    if left { FairPart(pred, s3, lo, hi, r, hi); } else { FairPart(pred, s3, lo, hi, lo, l); }
    RearrangedWider(s1, s3, lo, hi, lo0, hi0);
    RearrangedTrans(s0, s1, s3, lo0, hi0);
  }
}
