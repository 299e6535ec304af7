/** The open-addressing hash table of the compact mode: triangular probing in a table of a power of two
    of buckets. Keys are addresses; 0, the null pointer, marks a free bucket. */
module HashTable {
  // ---------- triangular probing ----------

  predicate PowerOfTwo(n: nat) {
    n == 1 || (n > 0 && n % 2 == 0 && PowerOfTwo(n / 2))
  }

  /** 0 + 1 + .. + p */
  function Triangle(p: nat): nat {
    if p == 0 then 0 else Triangle(p - 1) + p
  }

  /** The bucket of the p-th probe for a key with hash `h` in a table of `n` buckets. */
  function Slot(h: nat, p: nat, n: nat): (b: nat)
    requires n > 0
    ensures b < n
  {
    (h + Triangle(p)) % n
  }

  lemma DivMod(x: nat, n: nat)
    requires n > 0
    ensures x == n * (x / n) + x % n
  {
  }

  /** Equal remainders: the difference is a multiple. */
  lemma SameRemainder(x: nat, y: nat, n: nat) returns (k: int)
    requires n > 0 && x % n == y % n
    ensures y - x == n * k
  {
    DivMod(x, n);
    DivMod(y, n);
    k := y / n - x / n;
    assert n * k == n * (y / n) - n * (x / n);
  }

  lemma OddTimesOdd(a: int, b: int)
    requires a % 2 == 1 && b % 2 == 1
    ensures a * b % 2 == 1
  {
    var d := b / 2;
    Distribute(a, d);
    assert b == 2 * d + 1;
    OddSum(a * d, a);
  }

  lemma Distribute(a: int, d: int)
    ensures a * (2 * d + 1) == 2 * (a * d) + a
  {
  }

  lemma OddSum(x: int, a: int)
    requires a % 2 == 1
    ensures (2 * x + a) % 2 == 1
  {
  }

  /** A power of two that divides a product with one odd factor divides the other factor. */
  lemma {:induction false} OddFactor(n: nat, a: int, b: int, k: int) returns (j: int)
    requires PowerOfTwo(n) && b % 2 == 1 && a * b == n * k
    ensures a == n * j
  {
    if n == 1 {
      // n == 1 divides everything
      j := a;
    } else {
      var m := n / 2;
      assert n * k == 2 * (m * k) by { assert n == 2 * m; }
      if a % 2 == 1 {
        OddTimesOdd(a, b);
        assert false;
      }
      var c := a / 2;
      assert a == 2 * c;
      assert 2 * (c * b) == 2 * (m * k);
      j := OddFactor(m, c, b, k);
      assert n * j == 2 * (m * j);
    }
  }

  lemma {:induction false} TriangleGap(p: nat, q: nat)
    requires p <= q
    ensures 2 * (Triangle(q) - Triangle(p)) == (q - p) * (q + p + 1)
    decreases q
  {
    if p < q {
      TriangleGap(p, q - 1);
      var d, s := q - p, q + p + 1;
      assert (q - 1 - p) * (q - 1 + p + 1) == (d - 1) * (s - 1);
      assert (d - 1) * (s - 1) == d * s - d - s + 1;
    }
  }

  lemma PowerDoubles(n: nat)
    requires PowerOfTwo(n)
    ensures PowerOfTwo(2 * n)
  {
    assert 2 * n / 2 == n;
  }

  /** No bucket comes twice in one round of probes. */
  lemma ProbesDiffer(h: nat, p: nat, q: nat, n: nat)
    requires PowerOfTwo(n) && p < q < n
    ensures Slot(h, p, n) != Slot(h, q, n)
  {
    if Slot(h, p, n) == Slot(h, q, n) {
      var k := SameRemainder(h + Triangle(p), h + Triangle(q), n);
      TriangleGap(p, q);
      Twice(n, k);
      PowerDoubles(n);
      GapTooSmall(2 * n, q - p, q + p + 1, k);
    }
  }

  /** Two factors below a power of two, one even and one odd, make no multiple of it. */
  lemma GapTooSmall(n: nat, a: int, b: int, k: int)
    requires PowerOfTwo(n) && 0 < a < n && 0 < b < n && (a + b) % 2 == 1
    ensures a * b != n * k
  {
    OneIsOdd(a, b);
    if a % 2 == 1 {
      Swap(a, b);
      OddCofactor(n, b, a, k);
    } else {
      OddCofactor(n, a, b, k);
    }
  }

  lemma OneIsOdd(a: int, b: int)
    requires (a + b) % 2 == 1
    ensures a % 2 == 1 || b % 2 == 1
  {
  }

  lemma OddCofactor(n: nat, a: int, b: int, k: int)
    requires PowerOfTwo(n) && 0 < a < n && b % 2 == 1
    ensures a * b != n * k
  {
    if a * b == n * k {
      var j := OddFactor(n, a, b, k);
      NoSmallMultiple(n, a, j);
    }
  }

  lemma Swap(a: int, b: int)
    ensures a * b == b * a
  {
  }

  lemma Twice(n: int, k: int)
    ensures 2 * (n * k) == (2 * n) * k
  {
  }

  lemma NoSmallMultiple(n: nat, a: int, j: int)
    requires a == n * j
    ensures !(0 < a < n)
  {
    if j >= 1 {
      assert n * j >= n;
    } else if j < 0 {
      assert n * j <= 0;
    }
  }

  ghost function Slots(h: nat, m: nat, n: nat): (s: set<nat>)
    requires n > 0
  {
    if m == 0 then {} else Slots(h, m - 1, n) + {Slot(h, m - 1, n)}
  }

  lemma {:induction false} SlotsHold(h: nat, m: nat, n: nat, b: nat)
    requires n > 0
    ensures b in Slots(h, m, n) <==> exists p: nat :: p < m && Slot(h, p, n) == b
  {
    if m > 0 {
      SlotsHold(h, m - 1, n, b);
    }
  }

  lemma NewSlot(h: nat, m: nat, n: nat)
    requires PowerOfTwo(n) && m < n
    ensures forall p: nat {:trigger Slot(h, p, n)} :: p < m ==> Slot(h, p, n) != Slot(h, m, n)
  {
    forall p: nat {:trigger Slot(h, p, n)} | p < m
      ensures Slot(h, p, n) != Slot(h, m, n)
    {
      ProbesDiffer(h, p, m, n);
    }
  }

  lemma {:induction false} SlotsCount(h: nat, m: nat, n: nat)
    requires PowerOfTwo(n) && m <= n
    ensures |Slots(h, m, n)| == m
  {
    if m > 0 {
      SlotsCount(h, m - 1, n);
      var b := Slot(h, m - 1, n);
      SlotsHold(h, m - 1, n, b);
      NewSlot(h, m - 1, n);
    }
  }

  ghost function UpTo(n: nat): (s: set<nat>)
    ensures |s| == n && forall b: nat :: b in s <==> b < n
  {
    if n == 0 then {} else UpTo(n - 1) + {n - 1}
  }

  lemma FillsUp(s: set<nat>, t: set<nat>)
    requires s <= t && |s| == |t|
    ensures s == t
  {
    if s != t {
      var x :| x in t && x !in s;
      Grows(s + {x}, t);
    }
  }

  lemma {:induction false} Grows(s: set<nat>, t: set<nat>)
    requires s <= t
    ensures |s| <= |t|
    decreases |s|
  {
    if x :| x in s {
      Grows(s - {x}, t - {x});
    }
  }

  /** Every bucket is reached by exactly one of the first `n` probes. */
  lemma ProbesReachAll(h: nat, n: nat, b: nat) returns (p: nat)
    requires PowerOfTwo(n) && b < n
    ensures p < n && Slot(h, p, n) == b
    ensures forall q: nat :: q < n && Slot(h, q, n) == b ==> q == p
  {
    SlotsCount(h, n, n);
    forall c | c in Slots(h, n, n)
      ensures c in UpTo(n)
    {
      SlotsHold(h, n, n, c);
    }
    FillsUp(Slots(h, n, n), UpTo(n));
    SlotsHold(h, n, n, b);
    p :| p < n && Slot(h, p, n) == b;
    forall q: nat | q < n && Slot(h, q, n) == b
      ensures q == p
    {
      if q < p { ProbesDiffer(h, q, p, n); } else if p < q { ProbesDiffer(h, p, q, n); }
    }
  }

  // ---------- buckets ----------

  /** The first `p` probes meet neither `key` nor a free bucket. */
  ghost predicate Passed(ks: seq<nat>, h: nat, key: nat, p: nat)
    requires |ks| > 0
  {
    forall q: nat {:trigger Slot(h, q, |ks|)} :: q < p ==> ks[Slot(h, q, |ks|)] != 0 && ks[Slot(h, q, |ks|)] != key
  }

  /** Probing for `key` ends in bucket `b`. */
  ghost predicate LeadsTo(ks: seq<nat>, h: nat, key: nat, b: nat)
    requires |ks| > 0
  {
    exists p: nat {:trigger Slot(h, p, |ks|)} :: p < |ks| && Slot(h, p, |ks|) == b && Passed(ks, h, key, p)
  }

  /** Every key in the table is where probing for it ends. */
  ghost predicate Placed(ks: seq<nat>, hash: nat -> nat) {
    |ks| > 0 ==> forall b {:trigger ks[b]} :: 0 <= b < |ks| && ks[b] != 0 ==> LeadsTo(ks, hash(ks[b]), ks[b], b)
  }

  ghost predicate Holds(ks: seq<nat>, vs: seq<nat>, contents: map<nat, nat>)
    requires |ks| == |vs|
  {
    && (forall b {:trigger ks[b]} :: 0 <= b < |ks| && ks[b] != 0 ==> ks[b] in contents && contents[ks[b]] == vs[b])
    && (forall b {:trigger ks[b]} :: 0 <= b < |ks| && ks[b] == 0 ==> vs[b] == 0)
    && (forall k {:trigger k in contents} :: k in contents ==> k != 0 && k in ks)
  }

  function Used(ks: seq<nat>): (n: nat)
    ensures n <= |ks|
  {
    if ks == [] then 0 else Used(ks[..|ks| - 1]) + if ks[|ks| - 1] != 0 then 1 else 0
  }

  lemma {:induction false} UsedUpdate(ks: seq<nat>, b: nat, key: nat)
    requires b < |ks| && ks[b] == 0 && key != 0
    ensures Used(ks[b := key]) == Used(ks) + 1
  {
    var t := ks[b := key];
    if b == |ks| - 1 {
      assert t[..|ks| - 1] == ks[..|ks| - 1];
    } else {
      UsedUpdate(ks[..|ks| - 1], b, key);
      assert t[..|ks| - 1] == ks[..|ks| - 1][b := key];
    }
  }

  /** A table that is not full has a free bucket. */
  lemma {:induction false} FreeBucket(ks: seq<nat>) returns (b: nat)
    requires Used(ks) < |ks|
    ensures b < |ks| && ks[b] == 0
  {
    if ks[|ks| - 1] == 0 {
      b := |ks| - 1;
    } else {
      b := FreeBucket(ks[..|ks| - 1]);
    }
  }

  lemma UsedStep(ks: seq<nat>, i: nat)
    requires i < |ks|
    ensures Used(ks[..i + 1]) == Used(ks[..i]) + if ks[i] != 0 then 1 else 0
  {
    assert ks[..i + 1][..i] == ks[..i];
  }

  lemma {:induction false} UsedPrefix(ks: seq<nat>, i: nat)
    requires i <= |ks|
    ensures Used(ks[..i]) <= Used(ks)
    decreases |ks|
  {
    if i == |ks| {
      assert ks[..i] == ks;
    } else {
      UsedPrefix(ks[..|ks| - 1], i);
      assert ks[..|ks| - 1][..i] == ks[..i];
    }
  }

  lemma {:induction false} UsedZero(n: nat)
    ensures Used(seq(n, _ => 0)) == 0
  {
    if n > 0 {
      UsedZero(n - 1);
      assert seq(n, _ => 0)[..n - 1] == seq(n - 1, _ => 0);
    }
  }

  /** A key that is in the table is found: the probes that lead to two buckets cannot part. */
  lemma OneEnd(ks: seq<nat>, h: nat, key: nat, b: nat, c: nat)
    requires |ks| > 0 && key != 0 && b < |ks| && c < |ks|
    requires LeadsTo(ks, h, key, b) && LeadsTo(ks, h, key, c)
    requires (ks[b] == key || ks[b] == 0) && (ks[c] == key || ks[c] == 0)
    ensures b == c
  {
    var p: nat :| p < |ks| && Slot(h, p, |ks|) == b && Passed(ks, h, key, p);
    var q: nat :| q < |ks| && Slot(h, q, |ks|) == c && Passed(ks, h, key, q);
  }

  lemma PassedStep(ks: seq<nat>, h: nat, key: nat, p: nat)
    requires |ks| > 0 && Passed(ks, h, key, p)
    requires ks[Slot(h, p, |ks|)] != 0 && ks[Slot(h, p, |ks|)] != key
    ensures Passed(ks, h, key, p + 1)
  {
  }

  /** The search stops on the key if the table holds it, and else on a free bucket. */
  lemma FoundBucket(ks: seq<nat>, vs: seq<nat>, contents: map<nat, nat>, hash: nat -> nat, key: nat, b: nat, p: nat)
    requires |ks| == |vs| > 0 && key != 0 && Placed(ks, hash) && Holds(ks, vs, contents)
    requires p < |ks| && b == Slot(hash(key), p, |ks|) && Passed(ks, hash(key), key, p) && (ks[b] == key || ks[b] == 0)
    ensures LeadsTo(ks, hash(key), key, b) && ks[b] == (if key in contents then key else 0)
  {
    if key in contents {
      var c :| 0 <= c < |ks| && ks[c] == key;
      OneEnd(ks, hash(key), key, b, c);
    }
  }

  /** Filling the free bucket where probing for a key ends disturbs no other key. */
  lemma PlacedUpdate(ks: seq<nat>, hash: nat -> nat, key: nat, b: nat)
    requires |ks| > 0 && Placed(ks, hash) && b < |ks| && ks[b] == 0 && key != 0 && LeadsTo(ks, hash(key), key, b)
    ensures Placed(ks[b := key], hash)
  {
    var t := ks[b := key];
    forall c | 0 <= c < |t| && t[c] != 0
      ensures LeadsTo(t, hash(t[c]), t[c], c)
    {
      var h := hash(t[c]);
      var p: nat :| p < |ks| && Slot(h, p, |ks|) == c && Passed(ks, h, t[c], p);
      assert Passed(t, h, t[c], p);
    }
  }

  /** The search for `key` before probe `p`, which looks at bucket `b`; the free bucket of probe `last` ends it. */
  ghost predicate Probing(ks: seq<nat>, h: nat, key: nat, last: nat, p: nat, b: nat) {
    |ks| > 0 && last < |ks| && ks[Slot(h, last, |ks|)] == 0 && p <= last && b == Slot(h, p, |ks|) && Passed(ks, h, key, p)
  }

  lemma ProbeStarts(ks: seq<nat>, h: nat, key: nat, last: nat)
    requires 0 < |ks| && last < |ks| && ks[Slot(h, last, |ks|)] == 0
    ensures Probing(ks, h, key, last, 0, h % |ks|)
  {
  }

  lemma ProbeMoves(ks: seq<nat>, h: nat, key: nat, last: nat, p: nat, b: nat)
    requires Probing(ks, h, key, last, p, b) && ks[b] != key && ks[b] != 0
    ensures Probing(ks, h, key, last, p + 1, (b + p + 1) % |ks|)
  {
    PassedStep(ks, h, key, p);
    NextSlot(h, p, |ks|);
  }

  // ---------- the table ----------

  class CompactHashTable {
    const hash: nat -> nat
    var keys: array<nat>
    var values: array<nat>
    var capacity: nat
    var count: nat
    ghost var contents: map<nat, nat>

    ghost predicate Valid()
      reads this, keys, values
    {
      && keys != values && keys.Length == values.Length == capacity
      && (capacity == 0 || (capacity >= 32 && PowerOfTwo(capacity)))
      && count == Used(keys[..]) == |contents|
      && Placed(keys[..], hash) && Holds(keys[..], values[..], contents)
      && (capacity > 0 ==> count <= capacity - capacity / 4)
    }

    constructor (hash: nat -> nat)
      ensures Valid() && fresh(keys) && fresh(values) && this.hash == hash && contents == map[] && capacity == 0
    {
      this.hash := hash;
      keys, values := new nat[0], new nat[0];
      capacity, count, contents := 0, 0, map[];
    }

    /** get_item: the bucket of `key`, or the free bucket where it would go. The search never runs off
        the end of its loop. */
    method GetItem(key: nat) returns (b: nat)
      requires Valid() && key != 0 && capacity > 0
      ensures b < capacity && LeadsTo(keys[..], hash(key), key, b)
      ensures keys[b] == (if key in contents then key else 0)
    {
      ghost var ks := keys[..];
      ghost var free := FreeBucket(ks);
      ghost var last := ProbesReachAll(hash(key), capacity, free);
      b := hash(key) % capacity;
      ProbeStarts(ks, hash(key), key, last);
      var probe := 0;
      while probe < capacity
        invariant Probing(ks, hash(key), key, last, probe, b)
      {
        assert ks[b] == keys[b];
        if keys[b] == key || keys[b] == 0 {
          FoundBucket(ks, values[..], contents, hash, key, b, probe);
          return;
        }
        ProbeMoves(ks, hash(key), key, last, probe, b);
        b := (b + probe + 1) % capacity;
        probe := probe + 1;
      }
    }

    method Find(key: nat) returns (value: nat)
      requires Valid() && key != 0
      ensures value == if key in contents then contents[key] else 0
    {
      if capacity == 0 {
        return 0;
      }
      var b := GetItem(key);
      value := values[b];
      assert keys[..][b] == keys[b];
    }

    method Insert(key: nat, value: nat)
      requires Valid() && key != 0 && count < capacity - capacity / 4
      modifies this`count, this`contents, keys, values
      ensures Valid() && contents == old(contents)[key := value]
      ensures count <= old(count) + 1
    {
      ghost var ks, vs := keys[..], values[..];
      var b := GetItem(key);
      forall c: nat | c < |ks| && ks[c] == key
        ensures c == b
      {
        OneEnd(ks, hash(key), key, b, c);
      }
      HoldsUpdate(ks, vs, contents, b, key, value);
      if keys[b] == 0 {
        UsedUpdate(ks, b, key);
        PlacedUpdate(ks, hash, key, b);
        count := count + 1;
        keys[b] := key;
      }
      values[b] := value;
      contents := contents[key := value];
      assert keys[..] == ks[b := key] && values[..] == vs[b := value];
    }

    /** Makes room for `extra` more keys. */
    method Reserve(extra: nat)
      requires Valid()
      modifies this
      ensures Valid() && contents == old(contents) && count == old(count)
      ensures count + extra < capacity - capacity / 4
      ensures (keys == old(keys) && values == old(values)) || (fresh(keys) && fresh(values))
    {
      if count + extra >= capacity - capacity / 4 {
        Rehash(count + extra);
      }
    }

    /** A table with room for more than `wanted` keys that holds what this one does. */
    method Rehash(wanted: nat)
      requires Valid() && count <= wanted
      modifies this
      ensures Valid() && contents == old(contents) && count == old(count)
      ensures wanted < capacity - capacity / 4
      ensures fresh(keys) && fresh(values)
    {
      var size := 32;
      while wanted >= size - size / 4
        invariant size >= 32 && PowerOfTwo(size)
        decreases 4 * wanted + 4 - size
      {
        size := size * 2;
      }
      var rt := new CompactHashTable.WithCapacity(hash, size);
      CopyInto(rt);
      capacity := size;
      keys, values := rt.keys, rt.values;
    }

    /** The loop of rehash: every used bucket is inserted into the new table. */
    method CopyInto(rt: CompactHashTable)
      requires Valid() && rt.Valid() && rt.hash == hash && rt.contents == map[] && rt.count == 0
      requires rt != this && {rt.keys, rt.values} !! {keys, values} && count < rt.capacity - rt.capacity / 4
      modifies rt`count, rt`contents, rt.keys, rt.values
      ensures rt.Valid() && rt.contents == contents && rt.count == count
    {
      var i := 0;
      ghost var ks := keys[..];
      assert ks[..0] == [];
      while i < capacity
        invariant i <= capacity && rt.Valid() && Valid() && keys[..] == ks && rt.count <= Used(ks[..i])
        invariant CopiedUpTo(ks, i, contents, rt.contents)
      {
        CopyBucket(rt, i, ks);
        i := i + 1;
      }
      AllCopied(ks, values[..], contents, rt.contents);
    }

    method CopyBucket(rt: CompactHashTable, i: nat, ghost ks: seq<nat>)
      requires Valid() && rt.Valid() && rt.hash == hash && i < capacity && keys[..] == ks
      requires rt != this && {rt.keys, rt.values} !! {keys, values} && count < rt.capacity - rt.capacity / 4
      requires rt.count <= Used(ks[..i]) && CopiedUpTo(ks, i, contents, rt.contents)
      modifies rt`count, rt`contents, rt.keys, rt.values
      ensures rt.Valid() && rt.count <= Used(ks[..i + 1]) && CopiedUpTo(ks, i + 1, contents, rt.contents)
    {
      assert ks[i] == keys[i];
      UsedPrefix(ks, i + 1);
      UsedStep(ks, i);
      CopyStep(ks, i, contents, rt.contents);
      if keys[i] != 0 {
        rt.Insert(keys[i], values[i]);
      }
    }

    constructor WithCapacity(hash: nat -> nat, size: nat)
      requires size >= 32 && PowerOfTwo(size)
      ensures Valid() && fresh(keys) && fresh(values) && this.hash == hash && contents == map[] && capacity == size && count == 0
    {
      this.hash := hash;
      keys, values := new nat[size](_ => 0), new nat[size](_ => 0);
      capacity, count, contents := size, 0, map[];
      new;
      UsedZero(size);
      assert keys[..] == seq(size, _ => 0);
    }

    method Clear()
      requires Valid()
      modifies this
      ensures Valid() && contents == map[] && capacity == 0 && fresh(keys) && fresh(values)
    {
      keys, values := new nat[0], new nat[0];
      capacity, count, contents := 0, 0, map[];
    }

    /** Insertions for which there is room. */
    method InsertAll(entries: seq<(nat, nat)>)
      requires Valid() && count + |entries| < capacity - capacity / 4 && forall e <- entries :: e.0 != 0
      modifies this`count, this`contents, keys, values
      ensures Valid() && contents == Inserted(old(contents), entries)
    {
      var i := 0;
      ghost var before, room := contents, capacity - capacity / 4;
      assert entries[..0] == [];
      while i < |entries|
        invariant i <= |entries| && Valid() && capacity - capacity / 4 == room && count + (|entries| - i) < room
        invariant contents == Inserted(before, entries[..i])
      {
        InsertedNext(before, entries, i);
        Insert(entries[i].0, entries[i].1);
        i := i + 1;
      }
      assert entries[..i] == entries;
    }

    /** One reserve() allows sixteen insertions. */
    method ReserveAndInsert(entries: seq<(nat, nat)>)
      requires Valid() && |entries| <= 16 && forall e <- entries :: e.0 != 0
      modifies this, keys, values
      ensures Valid() && contents == Inserted(old(contents), entries)
    {
      Reserve(16);
      InsertAll(entries);
    }
  }

  ghost function Inserted(contents: map<nat, nat>, entries: seq<(nat, nat)>): map<nat, nat> {
    if entries == [] then contents
    else Inserted(contents, entries[..|entries| - 1])[entries[|entries| - 1].0 := entries[|entries| - 1].1]
  }

  lemma InsertedNext(contents: map<nat, nat>, entries: seq<(nat, nat)>, i: nat)
    requires i < |entries|
    ensures Inserted(contents, entries[..i + 1]) == Inserted(contents, entries[..i])[entries[i].0 := entries[i].1]
    ensures entries[i] in entries
  {
    assert entries[..i + 1][..i] == entries[..i];
  }

  /** The copy holds the bindings of the first `i` buckets. */
  ghost predicate CopiedUpTo(ks: seq<nat>, i: nat, contents: map<nat, nat>, copy: map<nat, nat>)
    requires i <= |ks|
  {
    && (forall k {:trigger k in copy} :: k in copy <==> k in contents && k != 0 && k in ks[..i])
    && (forall k {:trigger copy[k]} :: k in copy ==> copy[k] == contents[k])
  }

  lemma AllCopied(ks: seq<nat>, vs: seq<nat>, contents: map<nat, nat>, copy: map<nat, nat>)
    requires |ks| == |vs| && Holds(ks, vs, contents) && CopiedUpTo(ks, |ks|, contents, copy)
    ensures copy == contents
  {
    assert ks[..|ks|] == ks;
  }

  lemma CopyStep(ks: seq<nat>, i: nat, contents: map<nat, nat>, copy: map<nat, nat>)
    requires i < |ks| && CopiedUpTo(ks, i, contents, copy) && (ks[i] != 0 ==> ks[i] in contents)
    ensures CopiedUpTo(ks, i + 1, contents, if ks[i] == 0 then copy else copy[ks[i] := contents[ks[i]]])
  {
    assert ks[..i + 1] == ks[..i] + [ks[i]];
  }

  /** What a new binding makes of what the table holds. */
  lemma HoldsUpdate(ks: seq<nat>, vs: seq<nat>, contents: map<nat, nat>, b: nat, key: nat, value: nat)
    requires |ks| == |vs| && b < |ks| && key != 0 && Holds(ks, vs, contents)
    requires ks[b] == key || (ks[b] == 0 && key !in contents)
    requires forall c: nat :: c < |ks| && ks[c] == key ==> c == b
    ensures Holds(ks[b := key], vs[b := value], contents[key := value])
  {
    var t := ks[b := key];
    forall k | k in contents[key := value]
      ensures k in t
    {
      if k == key {
        assert t[b] == key;
      } else {
        var c :| 0 <= c < |ks| && ks[c] == k;
        assert t[c] == k;
      }
    }
  }

  lemma NextSlot(h: nat, p: nat, n: nat)
    requires n > 0
    ensures (Slot(h, p, n) + p + 1) % n == Slot(h, p + 1, n)
  {
    AddMod(h + Triangle(p), p + 1, n);
  }

  lemma AddMod(x: nat, y: nat, n: nat)
    requires n > 0
    ensures (x % n + y) % n == (x + y) % n
  {
    DivMod(x, n);
    Turns(x / n, x % n + y, n);
  }

  lemma {:induction false} Turns(k: nat, y: nat, n: nat)
    requires n > 0
    ensures (n * k + y) % n == y % n
  {
    if k > 0 {
      Turns(k - 1, y, n);
      assert n * k + y == n + (n * (k - 1) + y);
      OneTurn(n * (k - 1) + y, n);
    }
  }

  lemma OneTurn(x: nat, n: nat)
    requires n > 0
    ensures (n + x) % n == x % n
  {
    DivMod(x, n);
    DivMod(n + x, n);
    var q := (n + x) / n - x / n;
    assert n * q == n * ((n + x) / n) - n * (x / n);
    assert n * q == n + x % n - (n + x) % n;
    NoSmallMultiple(n, x % n - (n + x) % n, q - 1) by { assert n * (q - 1) == n * q - n; }
    NoSmallMultiple(n, (n + x) % n - x % n, 1 - q) by { assert n * (1 - q) == n - n * q; }
  }
}
