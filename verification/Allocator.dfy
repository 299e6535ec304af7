/** The page allocator: blocks are cut off the last page, bytes are only counted when they are freed,
    and a page goes away as a whole. */
module Allocator {
  // The usable bytes of a page on a 64-bit machine: 32768 less the page header.
  const PAGE_SIZE: nat := 32728

  const ALIGNMENT: nat := 8

  const MAX_ENCODED_OFFSET: nat := 0x1_0000 * ALIGNMENT

  const STRING_HEADER: nat := 4

  /** A stretch of a page that was handed out once; `live` until it is given back. */
  datatype Cell = Cell(size: nat, live: bool)

  function Sum(cells: seq<Cell>): nat {
    if cells == [] then 0 else Sum(cells[..|cells| - 1]) + cells[|cells| - 1].size
  }

  function Dead(cells: seq<Cell>): (n: nat)
    ensures n <= Sum(cells)
  {
    if cells == [] then 0
    else Dead(cells[..|cells| - 1]) + if cells[|cells| - 1].live then 0 else cells[|cells| - 1].size
  }

  /** Cells lie side by side from the start of the page. */
  function Offset(cells: seq<Cell>, i: nat): nat
    requires i < |cells|
  {
    Sum(cells[..i])
  }

  /** Nothing is handed out in other than whole units of alignment. */
  predicate Positive(cells: seq<Cell>) {
    forall c <- cells :: c.size > 0 && c.size % ALIGNMENT == 0
  }

  lemma {:induction false} Aligned(cells: seq<Cell>)
    requires Positive(cells)
    ensures Sum(cells) % ALIGNMENT == 0
  {
    if cells != [] {
      Aligned(cells[..|cells| - 1]);
    }
  }

  lemma {:induction false} SumPrefix(cells: seq<Cell>, i: nat, j: nat)
    requires i <= j <= |cells|
    ensures Sum(cells[..i]) <= Sum(cells[..j])
    decreases j
  {
    if i < j {
      SumPrefix(cells, i, j - 1);
      assert cells[..j][..j - 1] == cells[..j - 1];
    }
  }

  lemma SumStep(cells: seq<Cell>, i: nat)
    requires i < |cells|
    ensures Sum(cells[..i + 1]) == Sum(cells[..i]) + cells[i].size
  {
    assert cells[..i + 1][..i] == cells[..i];
  }

  lemma Before(cells: seq<Cell>, i: nat, j: nat)
    requires i < j <= |cells|
    ensures Offset(cells, i) + cells[i].size <= Sum(cells[..j])
  {
    SumStep(cells, i);
    SumPrefix(cells, i + 1, j);
  }

  /** Two cells of a page never overlap, and every cell lies within what is in use. */
  lemma Disjoint(cells: seq<Cell>, i: nat, j: nat)
    requires i < j < |cells|
    ensures Offset(cells, i) + cells[i].size <= Offset(cells, j)
    ensures Offset(cells, j) + cells[j].size <= Sum(cells)
  {
    Before(cells, i, j);
    Before(cells, j, |cells|);
    assert cells[..|cells|] == cells;
  }

  lemma {:induction false} Dies(cells: seq<Cell>, i: nat)
    requires i < |cells| && cells[i].live
    ensures var t := cells[i := Cell(cells[i].size, false)];
      Sum(t) == Sum(cells) && Dead(t) == Dead(cells) + cells[i].size
  {
    var n := |cells|;
    var t := cells[i := Cell(cells[i].size, false)];
    if i == n - 1 {
      assert t[..n - 1] == cells[..n - 1];
    } else {
      Dies(cells[..n - 1], i);
      assert t[..n - 1] == cells[..n - 1][i := Cell(cells[i].size, false)];
    }
  }

  predicate AnyLive(cells: seq<Cell>) {
    exists i :: 0 <= i < |cells| && cells[i].live
  }

  /** All bytes are freed exactly when no block is live. */
  lemma {:induction false} AllDead(cells: seq<Cell>)
    requires Positive(cells)
    ensures Dead(cells) == Sum(cells) <==> !AnyLive(cells)
  {
    if cells != [] {
      var n := |cells|;
      var t := cells[..n - 1];
      AllDead(t);
      if AnyLive(t) {
        var i :| 0 <= i < |t| && t[i].live;
        assert cells[i].live;
      }
      if AnyLive(cells) {
        var i :| 0 <= i < n && cells[i].live;
        assert i < n - 1 ==> t[i].live;
      }
    }
  }

  class Page {
    var prev: Page?
    var next: Page?
    var busySize: nat
    var freedSize: nat
    ghost var cells: seq<Cell>
    ghost const dataSize: nat

    constructor (dataSize: nat)
      ensures prev == null && next == null && busySize == 0 && freedSize == 0 && cells == [] && this.dataSize == dataSize
    {
      prev, next, busySize, freedSize, cells := null, null, 0, 0, [];
      this.dataSize := dataSize;
    }
  }

  class XmlAllocator {
    var root: Page
    var busySize: nat
    ghost var pages: seq<Page>

    ghost predicate Linked(i: int)
      requires 0 <= i < |pages|
      reads this, pages
    {
      && pages[i].prev == (if i > 0 then pages[i - 1] else null)
      && pages[i].next == (if i == |pages| - 1 then null else pages[i + 1])
    }

    /** The counters of page `i`; the busy size of the last page is kept in the allocator. A page is of the
        ordinary size or holds a single block. */
    ghost predicate Counted(i: int)
      requires 0 <= i < |pages|
      reads this, pages
    {
      var p := pages[i];
      var last := i == |pages| - 1;
      && (if last then busySize else p.busySize) == Sum(p.cells) <= p.dataSize
      && p.freedSize == Dead(p.cells) && Positive(p.cells)
      && (p.dataSize == PAGE_SIZE || (|p.cells| == 1 && !last))
      && (i == 0 ==> p.cells == [Cell(PAGE_SIZE, true)])
    }

    /** What is known of page `i`: only the last page may be without blocks in use. The first one holds
        the document itself. */
    ghost predicate PageOk(i: int)
      requires 0 <= i < |pages|
      reads this, pages
    {
      Linked(i) && Counted(i) && (AnyLive(pages[i].cells) || (i == |pages| - 1 && pages[i].cells == []))
    }

    ghost predicate Valid()
      reads this, pages
    {
      && |pages| > 0 && root == pages[|pages| - 1]
      && Distinct(pages)
      && (forall i {:trigger PageOk(i)} :: 0 <= i < |pages| ==> PageOk(i))
    }

    constructor (sentinel: Page)
      requires sentinel.prev == null && sentinel.next == null && sentinel.busySize == PAGE_SIZE == sentinel.dataSize
      requires sentinel.freedSize == 0 && sentinel.cells == [Cell(PAGE_SIZE, true)]
      ensures Valid() && pages == [sentinel]
    {
      root, busySize := sentinel, sentinel.busySize;
      pages := [sentinel];
      new;
      OneCell(Cell(PAGE_SIZE, true));
      assert PageOk(0);
    }

    /** The blocks of a page after one more is cut off. */
    ghost predicate Cut(page: Page, before: seq<Cell>, size: nat, offset: nat)
      reads page
    {
      page.cells == before + [Cell(size, true)] && offset == Sum(before) && offset + size <= page.dataSize
    }

    /** allocate_memory_oob for a small block: a new last page. */
    method AppendPage(size: nat) returns (page: Page)
      requires Valid() && 0 < size <= PAGE_SIZE / 4 && size % ALIGNMENT == 0 && busySize + size > PAGE_SIZE
      modifies this, root
      ensures Valid() && fresh(page) && page.cells == [Cell(size, true)] && page.dataSize == PAGE_SIZE
      ensures forall p <- old(pages) :: p.cells == old(p.cells)
      ensures pages == old(pages) + [page]
    {
      ghost var n := |pages|;
      ghost var was := pages;
      assert PageOk(n - 1);
      OneCell(Cell(size, true));
      assert Sum([]) == 0;
      page := new Page(PAGE_SIZE);
      page.cells := [Cell(size, true)];
      root.busySize := busySize;
      page.prev := root;
      root.next := page;
      root := page;
      busySize := size;
      pages := pages + [page];
      DistinctInsert(was, n, page);
      assert pages == was[..n] + [page] + was[n..];
      forall i | 0 <= i <= n
        ensures PageOk(i)
      {
        if i < n {
          assert old(PageOk(i));
          assert Same(was, i, n - 1) <==> i == n - 1;
        }
      }
    }

    /** allocate_memory_oob for a large block: a page of its own before the last one. */
    method InsertPage(size: nat) returns (page: Page)
      requires Valid() && size > PAGE_SIZE / 4 && size % ALIGNMENT == 0 && root.prev != null
      modifies this, root, root.prev
      ensures Valid() && fresh(page) && page.cells == [Cell(size, true)] && page.dataSize == size
      ensures forall p <- old(pages) :: p.cells == old(p.cells)
      ensures pages == old(pages[..|pages| - 1] + [page, root])
    {
      ghost var n := |pages|;
      ghost var was := pages;
      assert PageOk(n - 1);
      OneCell(Cell(size, true));
      page := new Page(size);
      page.cells := [Cell(size, true)];
      page.prev := root.prev;
      page.next := root;
      root.prev.next := page;
      root.prev := page;
      page.busySize := size;
      pages := pages[..n - 1] + [page, root];
      DistinctInsert(was, n - 1, page);
      assert pages == was[..n - 1] + [page] + was[n - 1..];
      forall i | 0 <= i <= n
        ensures PageOk(i)
      {
        if i != n - 1 {
          ghost var j := if i < n - 1 then i else n - 1;
          assert old(PageOk(j));
          assert Same(was, j, n - 1) <==> j == n - 1;
          assert Same(was, j, n - 2) <==> j == n - 2;
        }
      }
    }

    /** allocate_memory_oob */
    method AllocateMemoryOob(size: nat) returns (page: Page, offset: nat)
      requires Valid() && 0 < size && size % ALIGNMENT == 0 && busySize + size > PAGE_SIZE && (size <= PAGE_SIZE / 4 || root.prev != null)
      modifies this, pages
      ensures Valid() && fresh(page) && Cut(page, [], size, offset)
      ensures forall p <- old(pages) :: p.cells == old(p.cells)
      ensures pages == if size <= PAGE_SIZE / 4 then old(pages) + [page] else old(pages[..|pages| - 1] + [page, root])
    {
      assert PageOk(|pages| - 1);
      if size <= PAGE_SIZE / 4 {
        page := AppendPage(size);
      } else {
        page := InsertPage(size);
      }
      offset := 0;
    }

    /** allocate_memory */
    method AllocateMemory(size: nat) returns (page: Page, offset: nat)
      requires Valid() && size > 0 && size % ALIGNMENT == 0 && (size <= PAGE_SIZE / 4 || root.prev != null)
      modifies this, pages
      ensures Valid() && page in pages && page != pages[0]
      ensures Cut(page, if page in old(pages) then old(page.cells) else [], size, offset)
      ensures forall p <- old(pages) :: p in pages && p != page ==> p.cells == old(p.cells)
      ensures root.prev != null
      ensures page in old(pages) ==> pages == old(pages) && page == root
      ensures page !in old(pages) ==> fresh(page) && (pages == old(pages) + [page] || pages == old(pages[..|pages| - 1] + [page, root]))
    {
      assert PageOk(|pages| - 1) && PageOk(0);
      OneCell(Cell(PAGE_SIZE, true));
      if busySize + size > PAGE_SIZE {
        page, offset := AllocateMemoryOob(size);
        LastHasPrev();
        return;
      }
      Appended(root.cells, Cell(size, true));
      offset := busySize;
      busySize := busySize + size;
      root.cells := root.cells + [Cell(size, true)];
      page := root;
      forall i | 0 <= i < |pages|
        ensures PageOk(i)
      {
        assert old(PageOk(i));
        assert Same(pages, i, |pages| - 1) <==> i == |pages| - 1;
      }
      LastHasPrev();
    }

    /** A block that is still in use: the cell it was cut as. */
    ghost predicate Block(page: Page, i: nat, offset: nat, size: nat)
      reads this, page
    {
      page in pages && page != pages[0] && i < |page.cells| && page.cells[i] == Cell(size, true) && offset == Offset(page.cells, i)
    }

    /** The first part of deallocate_memory: the page counts the bytes. */
    method CountFreed(page: Page, size: nat, ghost i: nat, ghost k: nat)
      requires Valid() && k < |pages| && pages[k] == page && i < |page.cells| && page.cells[i] == Cell(size, true) && k > 0
      modifies page
      ensures page.cells == old(page.cells)[i := Cell(size, false)]
      ensures forall j {:trigger Linked(j)} {:trigger Counted(j)} :: 0 <= j < |pages| ==> Linked(j) && Counted(j)
      ensures forall j {:trigger PageOk(j)} :: 0 <= j < |pages| && j != k ==> PageOk(j)
      ensures page == root ==> page.busySize == busySize
    {
      assert PageOk(k) && Same(pages, k, |pages| - 1) <==> k == |pages| - 1;
      Dies(page.cells, i);
      if page == root {
        page.busySize := busySize;
      }
      page.freedSize := page.freedSize + size;
      page.cells := page.cells[i := Cell(size, false)];
      forall j | 0 <= j < |pages|
        ensures Linked(j) && Counted(j) && (j != k ==> PageOk(j))
      {
        assert old(PageOk(j));
        assert Same(pages, j, k) <==> j == k;
      }
    }

    /** The second part, for a page that is not the last one. */
    method Release(page: Page, ghost k: nat)
      requires |pages| > 0 && root == pages[|pages| - 1] && Distinct(pages) && 0 < k < |pages| - 1 && page == pages[k]
      requires forall j {:trigger Linked(j)} {:trigger Counted(j)} :: 0 <= j < |pages| ==> Linked(j) && Counted(j)
      requires forall j {:trigger PageOk(j)} :: 0 <= j < |pages| && j != k ==> PageOk(j)
      modifies `pages, pages
      ensures Valid() && pages == old(pages)[..k] + old(pages)[k + 1..] && page !in pages
      ensures forall p <- old(pages) :: p.cells == old(p.cells)
    {
      ghost var was := pages;
      assert Counted(k);
      page.prev.next := page.next;
      page.next.prev := page.prev;
      pages := pages[..k] + pages[k + 1..];
      DistinctRemove(was, k);
      forall i | 0 <= i < |pages|
        ensures PageOk(i)
      {
        ghost var j := if i < k then i else i + 1;
        assert old(PageOk(j));
        assert Same(was, j, k - 1) <==> j == k - 1;
        assert Same(was, j, k + 1) <==> j == k + 1;
        assert pages[i] == was[j];
        assert i > 0 ==> pages[i - 1] == was[if i - 1 < k then i - 1 else i];
        assert i < |pages| - 1 ==> pages[i + 1] == was[if i + 1 < k then i + 1 else i + 2];
      }
    }

    /** The second part, for the last page: it starts afresh. */
    method Reset(page: Page)
      requires |pages| > 1 && root == page == pages[|pages| - 1] && Distinct(pages)
      requires forall j {:trigger Linked(j)} {:trigger Counted(j)} :: 0 <= j < |pages| ==> Linked(j) && Counted(j)
      requires forall j {:trigger PageOk(j)} :: 0 <= j < |pages| - 1 ==> PageOk(j)
      modifies `busySize, page
      ensures Valid() && page.cells == []
    {
      assert Counted(|pages| - 1);
      page.busySize := 0;
      page.freedSize := 0;
      page.cells := [];
      busySize := 0;
      forall j | 0 <= j < |pages|
        ensures PageOk(j)
      {
        assert Same(pages, j, |pages| - 1) <==> j == |pages| - 1;
        assert old(Counted(j));
        assert j < |pages| - 1 ==> old(PageOk(j));
      }
    }

    /** deallocate_memory: the page keeps count, and once all its blocks are freed it is reset if it is the
        last one and released otherwise. `k` is its place in the list. */
    method DeallocateMemory(page: Page, offset: nat, size: nat, ghost i: nat) returns (ghost k: nat)
      requires Valid() && Block(page, i, offset, size)
      modifies this, pages
      ensures Valid() && k < |old(pages)| && old(pages)[k] == page
      ensures var t := old(page.cells)[i := Cell(size, false)];
        if AnyLive(t) then pages == old(pages) && page.cells == t
        else if page == old(root) then pages == old(pages) && page.cells == []
        else pages == old(pages)[..k] + old(pages)[k + 1..] && page !in pages
      ensures forall p <- old(pages) :: p != page ==> p.cells == old(p.cells)
      ensures root.prev != null
    {
      k :| 0 <= k < |pages| && pages[k] == page;
      ghost var t := page.cells[i := Cell(size, false)];
      CountFreed(page, size, i, k);
      assert Counted(k) && Same(pages, k, |pages| - 1) <==> k == |pages| - 1;
      AllDead(t);
      if page.freedSize == page.busySize {
        if page.next == null {
          Reset(page);
        } else {
          Release(page, k);
        }
      }
      LastHasPrev();
    }

    /** Once there is a page beside the document's, there always is. */
    lemma LastHasPrev()
      requires Valid()
      ensures root.prev != null <==> |pages| > 1
    {
      assert PageOk(|pages| - 1);
    }

    // ---------- strings ----------

    /** The header of a string tells where its block starts and how long it is; 0 stands for a whole page. */
    ghost predicate Describes(page: Page, i: nat, header: StringHeader)
      reads page
    {
      && i < |page.cells| && header.pageOffset * ALIGNMENT == Offset(page.cells, i)
      && header.fullSize * ALIGNMENT == (if page.cells[i].size < MAX_ENCODED_OFFSET then page.cells[i].size else 0)
    }

    method AllocateString(length: nat) returns (header: StringHeader, page: Page, ghost i: nat)
      requires Valid() && (FullSize(length) <= PAGE_SIZE / 4 || root.prev != null)
      modifies this, pages
      ensures Valid() && root.prev != null && page in pages && page != pages[0]
      ensures i == |page.cells| - 1 && page.cells[i] == Cell(FullSize(length), true) && Describes(page, i, header)
      ensures header.pageOffset < 0x1_0000 && header.fullSize < 0x1_0000
      ensures page in old(pages) ==> page.cells[..i] == old(page.cells)
      ensures forall p <- old(pages) :: p in pages && p != page ==> p.cells == old(p.cells)
    {
      var size := STRING_HEADER + length;
      var fullSize := (size + (ALIGNMENT - 1)) / ALIGNMENT * ALIGNMENT;
      var offset;
      page, offset := AllocateMemory(fullSize);
      i := |page.cells| - 1;
      InPage(page, i);
      header := StringHeader(offset / ALIGNMENT, if fullSize < MAX_ENCODED_OFFSET then fullSize / ALIGNMENT else 0);
    }

    /** Freeing a string gives back exactly the bytes it took. */
    method DeallocateString(page: Page, header: StringHeader, ghost i: nat) returns (ghost k: nat)
      requires Valid() && page in pages && page != pages[0] && Describes(page, i, header) && page.cells[i].live
      modifies this, pages
      ensures Valid() && root.prev != null && k < |old(pages)| && old(pages)[k] == page
      ensures var t := old(page.cells)[i := Cell(old(page.cells)[i].size, false)];
        if AnyLive(t) then pages == old(pages) && page.cells == t
        else if page == old(root) then pages == old(pages) && page.cells == []
        else pages == old(pages)[..k] + old(pages)[k + 1..] && page !in pages
      ensures forall p <- old(pages) :: p != page ==> p.cells == old(p.cells)
    {
      InPage(page, i);
      var fullSize := if header.fullSize == 0 then page.busySize else header.fullSize * ALIGNMENT;
      assert fullSize == page.cells[i].size;
      k := DeallocateMemory(page, header.pageOffset * ALIGNMENT, fullSize, i);
    }

    /** A block lies within its page, at an aligned offset; one that is larger than an ordinary page has a
        page to itself. */
    lemma InPage(page: Page, i: nat)
      requires Valid() && page in pages && i < |page.cells|
      ensures Offset(page.cells, i) + page.cells[i].size <= page.dataSize
      ensures Offset(page.cells, i) % ALIGNMENT == 0 && page.cells[i].size % ALIGNMENT == 0 && page.cells[i].size > 0
      ensures page.dataSize == PAGE_SIZE || (page.busySize == page.cells[i].size && i == 0 && Offset(page.cells, i) == 0)
    {
      var k :| 0 <= k < |pages| && pages[k] == page;
      assert PageOk(k);
      Before(page.cells, i, |page.cells|);
      assert page.cells[..|page.cells|] == page.cells;
      Aligned(page.cells[..i]);
      if |page.cells| == 1 {
        assert page.cells == [page.cells[0]];
        OneCell(page.cells[0]);
      }
    }

    /** Blocks in use never overlap, and no page has more bytes freed than handed out. */
    lemma BlocksApart(p: Page, i: nat, offset: nat, size: nat, q: Page, j: nat, offset': nat, size': nat)
      requires Valid() && Block(p, i, offset, size) && Block(q, j, offset', size') && (p != q || i != j)
      ensures p != q || offset + size <= offset' || offset' + size' <= offset
      ensures offset + size <= p.dataSize && p.freedSize <= Sum(p.cells)
    {
      InPage(p, i);
      if p == q {
        if i < j { Disjoint(p.cells, i, j); } else { Disjoint(p.cells, j, i); }
      }
      var k :| 0 <= k < |pages| && pages[k] == p;
      assert PageOk(k);
    }
  }

  datatype StringHeader = StringHeader(pageOffset: nat, fullSize: nat)

  /** The header and the characters, rounded up to the alignment. */
  function FullSize(length: nat): nat {
    (STRING_HEADER + length + (ALIGNMENT - 1)) / ALIGNMENT * ALIGNMENT
  }

  /** A block has room for a header of four bytes and the characters, in whole units of eight bytes, of which
      it wastes less than one. */
  lemma RoomForString(length: nat)
    ensures 4 + length <= FullSize(length) < 4 + length + 8 && FullSize(length) % 8 == 0
  {
    var n := 4 + length + 7;
    assert n / 8 * 8 == n - n % 8;
  }

  lemma Appended(cells: seq<Cell>, c: Cell)
    ensures Sum(cells + [c]) == Sum(cells) + c.size
    ensures Dead(cells + [c]) == Dead(cells) + (if c.live then 0 else c.size)
    ensures c.live ==> AnyLive(cells + [c])
  {
    assert (cells + [c])[..|cells|] == cells;
    assert (cells + [c])[|cells|] == c;
  }

  ghost predicate Same(pages: seq<Page>, i: int, j: int)
    requires 0 <= i < |pages| && 0 <= j < |pages|
  {
    pages[i] == pages[j]
  }

  ghost predicate Distinct(pages: seq<Page>) {
    forall i, j {:trigger Same(pages, i, j)} :: 0 <= i < |pages| && 0 <= j < |pages| && Same(pages, i, j) ==> i == j
  }

  lemma DistinctInsert(pages: seq<Page>, k: nat, page: Page)
    requires Distinct(pages) && k <= |pages| && page !in pages
    ensures Distinct(pages[..k] + [page] + pages[k..])
  {
    var t := pages[..k] + [page] + pages[k..];
    forall i, j | 0 <= i < |t| && 0 <= j < |t| && Same(t, i, j)
      ensures i == j
    {
      if i != k && j != k {
        assert Same(pages, if i < k then i else i - 1, if j < k then j else j - 1);
      }
    }
  }

  lemma DistinctRemove(pages: seq<Page>, k: nat)
    requires Distinct(pages) && k < |pages|
    ensures Distinct(pages[..k] + pages[k + 1..]) && pages[k] !in pages[..k] + pages[k + 1..]
  {
    var t := pages[..k] + pages[k + 1..];
    forall i, j | 0 <= i < |t| && 0 <= j < |t| && Same(t, i, j)
      ensures i == j
    {
      assert Same(pages, if i < k then i else i + 1, if j < k then j else j + 1);
    }
    forall i | 0 <= i < |t|
      ensures t[i] != pages[k]
    {
      assert Same(pages, if i < k then i else i + 1, k) <==> t[i] == pages[k];
    }
  }

  lemma OneCell(c: Cell)
    ensures Sum([c]) == c.size && Dead([c]) == (if c.live then 0 else c.size) && (c.live ==> AnyLive([c]))
  {
    assert [c][..0] == [];
    assert [c][0] == c;
  }
}
