// xml_allocator: pages in a doubly linked list, blocks carved from the last page, a page given back
// when everything on it has been. The 64-bit layout without PUGIXML_COMPACT.
module Allocator {
  import opened Guard

  // Each guarded definition below has its own number.
  const BALANCE: nat := 1
  const KNOWN: nat := 2
  const CHAIN: nat := 3
  const HANDS: nat := 4
  const JOINS: nat := 5

  // ---------------------------------------------------------------- what a page holds

  /** A stretch of a page handed out once; it stays in place when it is given back. */
  datatype Cell = Cell(size: nat, live: bool)

  function Total(c: seq<Cell>): nat {
    if c == [] then 0 else Total(c[..|c| - 1]) + c[|c| - 1].size
  }

  function Dead(c: seq<Cell>): nat {
    if c == [] then 0 else Dead(c[..|c| - 1]) + if c[|c| - 1].live then 0 else c[|c| - 1].size
  }

  /** Where the k-th stretch starts. */
  function Offset(c: seq<Cell>, k: nat): nat
    requires k <= |c|
  {
    Total(c[..k])
  }

  lemma {:induction false} OffsetStep(c: seq<Cell>, k: nat)
    requires k < |c|
    ensures Offset(c, k + 1) == Offset(c, k) + c[k].size
  {
    assert c[..k + 1][..k] == c[..k];
  }

  /** Stretches lie one behind the other, up to the total. */
  lemma {:induction false} OffsetsOrdered(c: seq<Cell>, i: nat, j: nat)
    requires i < j <= |c|
    ensures Offset(c, i) + c[i].size <= Offset(c, j) <= Total(c)
    decreases |c| - i, j - i
  {
    OffsetStep(c, j - 1);
    if i < j - 1 {
      OffsetsOrdered(c, i, j - 1);
    }
    if j < |c| {
      OffsetStep(c, j);
      OffsetsOrdered(c, j, |c|);
    }
    assert c[..|c|] == c;
  }

  lemma {:induction false} KillCell(c: seq<Cell>, k: nat)
    requires k < |c| && c[k].live
    ensures var d := c[k := Cell(c[k].size, false)];
            && Total(d) == Total(c) && Dead(d) == Dead(c) + c[k].size
            && forall i :: 0 <= i <= |c| ==> Offset(d, i) == Offset(c, i)
  {
    var d := c[k := Cell(c[k].size, false)];
    var n := |c| - 1;
    if k == n {
      assert d[..n] == c[..n];
    } else {
      KillCell(c[..n], k);
      assert d[..n] == c[..n][k := Cell(c[k].size, false)];
    }
    forall i | 0 <= i <= |c| ensures Offset(d, i) == Offset(c, i) {
      if i <= n {
        assert c[..n][..i] == c[..i] && d[..n][..i] == d[..i];
        if k < n {
          assert Offset(d[..n], i) == Offset(c[..n], i);
        }
      } else {
        assert c[..i] == c && d[..i] == d;
      }
    }
  }

  /** Every byte is back exactly when no stretch is live. */
  lemma {:induction false} AllDead(c: seq<Cell>)
    requires forall k :: 0 <= k < |c| ==> c[k].size > 0
    ensures Dead(c) <= Total(c)
    ensures Dead(c) == Total(c) <==> forall k :: 0 <= k < |c| ==> !c[k].live
  {
    if c != [] {
      AllDead(c[..|c| - 1]);
    }
  }

  // ---------------------------------------------------------------- pages and the allocator

  /** Bytes of a page after its five-field header. */
  const PAGE_SIZE: nat := 32768 - 40
  const LARGE_THRESHOLD: nat := PAGE_SIZE / 4

  /** Every block is a whole number of pointers. */
  const ALIGNMENT: nat := 8

  class Page {
    var prev: Page?
    var next: Page?
    var busy_size: nat
    var freed_size: nat
    /** Data bytes that were allocated for the page. */
    const capacity: nat

    constructor (capacity: nat)
      ensures prev == null && next == null && busy_size == 0 && freed_size == 0 && this.capacity == capacity
    {
      prev, next, busy_size, freed_size := null, null, 0, 0;
      this.capacity := capacity;
    }
  }

  datatype Block = Block(page: Page, offset: nat, size: nat)

  ghost predicate LiveAt(c: seq<Cell>, offset: nat, size: nat) {
    exists k :: 0 <= k < |c| && IsCell(c, k, offset, size)
  }

  ghost predicate IsCell(c: seq<Cell>, k: nat, offset: nat, size: nat)
    requires k < |c|
  {
    c[k] == Cell(size, true) && Offset(c, k) == offset
  }

  lemma Grown(c: seq<Cell>, size: nat)
    ensures var d := c + [Cell(size, true)]; Total(d) == Total(c) + size && Dead(d) == Dead(c)
    ensures size > 0 ==> !LiveAt(c, Total(c), size)
  {
    var d := c + [Cell(size, true)];
    assert d[..|d| - 1] == c;
    if size > 0 && LiveAt(c, Total(c), size) {
      var k :| 0 <= k < |c| && IsCell(c, k, Total(c), size);
      OffsetsOrdered(c, k, |c|);
    }
  }

  lemma LiveAtAppend(c: seq<Cell>, size: nat, offset: nat, z: nat)
    ensures LiveAt(c + [Cell(size, true)], offset, z) <==> LiveAt(c, offset, z) || (offset == Total(c) && z == size)
  {
    var d := c + [Cell(size, true)];
    assert d[..|c|] == c;
    forall k | 0 <= k < |c| ensures IsCell(d, k, offset, z) <==> IsCell(c, k, offset, z) {
      assert d[..k] == c[..k];
    }
    if LiveAt(d, offset, z) {
      var k :| 0 <= k < |d| && IsCell(d, k, offset, z);
      assert k < |c| ==> IsCell(c, k, offset, z);
    }
    if LiveAt(c, offset, z) {
      var k :| 0 <= k < |c| && IsCell(c, k, offset, z);
      assert IsCell(d, k, offset, z);
    }
    assert offset == Total(c) && z == size ==> IsCell(d, |c|, offset, z);
  }

  lemma LiveAtKill(c: seq<Cell>, k: nat, offset: nat, z: nat)
    requires k < |c| && c[k].live && forall i :: 0 <= i < |c| ==> c[i].size > 0
    ensures LiveAt(c[k := Cell(c[k].size, false)], offset, z) <==>
            LiveAt(c, offset, z) && !(offset == Offset(c, k) && z == c[k].size)
  {
    var d := c[k := Cell(c[k].size, false)];
    KillCell(c, k);
    forall i | 0 <= i < |c| ensures IsCell(d, i, offset, z) <==> IsCell(c, i, offset, z) && i != k {}
    if LiveAt(d, offset, z) {
      var i :| 0 <= i < |d| && IsCell(d, i, offset, z);
      if i < k {
        OffsetsOrdered(c, i, k);
      } else {
        OffsetsOrdered(c, k, i);
      }
      assert IsCell(c, i, offset, z);
    }
    if LiveAt(c, offset, z) {
      var i :| 0 <= i < |c| && IsCell(c, i, offset, z);
      assert i != k ==> IsCell(d, i, offset, z);
    }
  }

  /** A page's books: what it holds and its counters. */
  datatype Book = Book(cells: seq<Cell>, capacity: nat, isRoot: bool, busy: nat, freed: nat)

  type Books = map<Page, Book>

  /** Every byte handed out is live or freed, and no page but an untouched root is without a live one. */
  ghost predicate Booked(e: Book) {
    && e.busy == Total(e.cells) <= e.capacity
    && e.freed == Dead(e.cells)
    && (forall k :: 0 <= k < |e.cells| ==> e.cells[k].size > 0 && e.cells[k].size % ALIGNMENT == 0)
    && (e.isRoot ==> e.capacity == PAGE_SIZE)
    && (e.capacity == PAGE_SIZE || |e.cells| == 1)
    && (e.freed < e.busy || (e.isRoot && e.cells == []))
  }

  ghost predicate Balanced(books: Books) {
    forall k :: Unfold(k) && k == BALANCE ==> forall p <- books :: Booked(books[p])
  }

  ghost function CellsOf(books: Books, p: Page): seq<Cell> {
    if p in books then books[p].cells else []
  }

  ghost predicate IsLive(books: Books, b: Block) {
    LiveAt(CellsOf(books, b.page), b.offset, b.size)
  }

  predicate Overlap(a: Block, b: Block) {
    a.page == b.page && a.offset < b.offset + b.size && b.offset < a.offset + a.size
  }

  /** Two live blocks that share a byte are the same block. */
  lemma LiveBlocksAreDisjoint(books: Books, a: Block, b: Block)
    requires Balanced(books) && IsLive(books, a) && IsLive(books, b) && Overlap(a, b)
    ensures a == b
  {
    var c := CellsOf(books, a.page);
    var i :| 0 <= i < |c| && IsCell(c, i, a.offset, a.size);
    var j :| 0 <= j < |c| && IsCell(c, j, b.offset, b.size);
    if i < j {
      OffsetsOrdered(c, i, j);
    } else if j < i {
      OffsetsOrdered(c, j, i);
    }
  }

  // The books after each operation.

  /** The block behind everything handed out from a page. */
  ghost function NextBlock(books: Books, p: Page, size: nat): Block {
    Block(p, Total(CellsOf(books, p)), size)
  }

  ghost function Carved(books: Books, b: Block): Books
    requires b.page in books
  {
    var e := books[b.page];
    books[b.page := e.(cells := e.cells + [Cell(b.size, true)], busy := e.busy + b.size)]
  }

  ghost function WithRoot(books: Books, b: Block): Books {
    (map p | p in books :: books[p].(isRoot := false))[b.page := Book([Cell(b.size, true)], PAGE_SIZE, true, b.size, 0)]
  }

  ghost function WithLarge(books: Books, b: Block): Books {
    books[b.page := Book([Cell(b.size, true)], b.size, false, b.size, 0)]
  }

  ghost function Freed(books: Books, p: Page, k: nat): Books
    requires p in books && k < |books[p].cells|
  {
    var e := books[p];
    books[p := e.(cells := Killed(e.cells, k), freed := e.freed + e.cells[k].size)]
  }

  ghost function Killed(c: seq<Cell>, k: nat): seq<Cell>
    requires k < |c|
  {
    c[k := Cell(c[k].size, false)]
  }

  ghost function Emptied(books: Books, p: Page): Books {
    books[p := Book([], PAGE_SIZE, true, 0, 0)]
  }

  /** One more stretch on page p, and no other page's stretches touched. */
  ghost predicate HandsOut(before: Books, after: Books, b: Block) {
    forall k :: Unfold(k) && k == HANDS ==>
      && b == NextBlock(before, b.page, b.size) && b.size > 0
      && CellsOf(after, b.page) == CellsOf(before, b.page) + [Cell(b.size, true)]
      && (forall p <- before :: p != b.page ==> CellsOf(after, p) == CellsOf(before, p))
      && (forall p <- after :: p != b.page ==> p in before)
  }

  /** One page more has books. */
  ghost predicate Joins(before: Books, after: Books, page: Page) {
    forall k :: Unfold(k) && k == JOINS ==> after.Keys == before.Keys + {page}
  }

  lemma HandedOut(before: Books, after: Books, b: Block)
    requires HandsOut(before, after, b)
    ensures forall x :: IsLive(after, x) <==> IsLive(before, x) || x == b
    ensures !IsLive(before, b)
  {
    assert Unfold(HANDS);
    Grown(CellsOf(before, b.page), b.size);
    forall x: Block ensures IsLive(after, x) <==> IsLive(before, x) || x == b {
      LiveAtAppend(CellsOf(before, b.page), b.size, x.offset, x.size);
      assert x.page != b.page ==> CellsOf(after, x.page) == CellsOf(before, x.page);
    }
  }

  lemma CarvedBooks(books: Books, b: Block)
    requires Balanced(books) && b.page in books && books[b.page].isRoot
    requires b.size > 0 && b.size % ALIGNMENT == 0
    requires b.offset == books[b.page].busy && b.offset + b.size <= PAGE_SIZE
    ensures Balanced(Carved(books, b)) && HandsOut(books, Carved(books, b), b)
  {
    assert Unfold(BALANCE);
    CarvedBook(books[b.page], b.size);
    assert HandsOut(books, Carved(books, b), b) by {
      assert Unfold(HANDS);
    }
  }

  lemma CarvedBook(e: Book, size: nat)
    requires Booked(e) && e.isRoot && size > 0 && size % ALIGNMENT == 0 && e.busy + size <= PAGE_SIZE
    ensures Booked(e.(cells := e.cells + [Cell(size, true)], busy := e.busy + size))
  {
    Grown(e.cells, size);
  }

  lemma RootBooks(books: Books, b: Block)
    requires Balanced(books) && b.page !in books && b.offset == 0 && 0 < b.size <= PAGE_SIZE && b.size % ALIGNMENT == 0
    requires forall p <- books :: books[p].isRoot ==> books[p].busy > 0
    ensures Balanced(WithRoot(books, b)) && HandsOut(books, WithRoot(books, b), b)
    ensures Joins(books, WithRoot(books, b), b.page)
  {
    OneBlock(b.size, PAGE_SIZE, true);
    assert Balanced(WithRoot(books, b)) by {
      assert Unfold(BALANCE);
    }
    assert HandsOut(books, WithRoot(books, b), b) by {
      assert Unfold(HANDS);
    }
    assert Joins(books, WithRoot(books, b), b.page) by {
      assert Unfold(JOINS);
    }
  }

  lemma OneBlock(size: nat, capacity: nat, isRoot: bool)
    requires 0 < size <= capacity && size % ALIGNMENT == 0 && (isRoot ==> capacity == PAGE_SIZE)
    ensures Booked(Book([Cell(size, true)], capacity, isRoot, size, 0))
    ensures Total([]) == 0 && [] + [Cell(size, true)] == [Cell(size, true)]
  {
    Grown([], size);
  }

  lemma LargeBooks(books: Books, b: Block)
    requires Balanced(books) && b.page !in books && b.offset == 0 && b.size > 0 && b.size % ALIGNMENT == 0
    ensures Balanced(WithLarge(books, b)) && HandsOut(books, WithLarge(books, b), b)
    ensures Joins(books, WithLarge(books, b), b.page)
  {
    OneBlock(b.size, b.size, false);
    assert Balanced(WithLarge(books, b)) by {
      assert Unfold(BALANCE);
    }
    assert HandsOut(books, WithLarge(books, b), b) by {
      assert Unfold(HANDS);
    }
    assert Joins(books, WithLarge(books, b), b.page) by {
      assert Unfold(JOINS);
    }
  }

  /** The stretch of a block. */
  lemma CellOf(books: Books, b: Block) returns (k: nat)
    requires IsLive(books, b)
    ensures b.page in books && k < |books[b.page].cells| && IsCell(books[b.page].cells, k, b.offset, b.size)
  {
    var c := CellsOf(books, b.page);
    k :| 0 <= k < |c| && IsCell(c, k, b.offset, b.size);
  }

  /** Giving a block back: the counters, and whether anything is left on its page. */
  lemma FreedBooks(books: Books, b: Block, k: nat)
    requires Balanced(books) && b.page in books
    requires k < |books[b.page].cells| && IsCell(books[b.page].cells, k, b.offset, b.size)
    ensures var e := books[b.page];
            && b.offset + b.size <= e.busy && e.freed + b.size <= e.busy && b.size > 0
            && (e.freed + b.size < e.busy ==> Balanced(Freed(books, b.page, k)))
            && (e.freed + b.size == e.busy <==> forall x :: IsLive(books, x) && x.page == b.page ==> x == b)
    ensures Balanced(Freed(books, b.page, k) - {b.page})
    ensures forall x :: IsLive(Freed(books, b.page, k), x) <==> IsLive(books, x) && x != b
  {
    assert Unfold(BALANCE);
    var c := books[b.page].cells;
    var after := Freed(books, b.page, k);
    KillCell(c, k);
    AllDead(Killed(c, k));
    OffsetsOrdered(c, k, k + 1);
    OffsetStep(c, k);
    forall x: Block ensures IsLive(after, x) <==> IsLive(books, x) && x != b {
      LiveAtKill(c, k, x.offset, x.size);
    }
    LastOnPage(books, b, k);
  }

  lemma LastOnPage(books: Books, b: Block, k: nat)
    requires Balanced(books) && b.page in books
    requires k < |books[b.page].cells| && IsCell(books[b.page].cells, k, b.offset, b.size)
    requires forall x :: IsLive(Freed(books, b.page, k), x) <==> IsLive(books, x) && x != b
    ensures var e := books[b.page];
            e.freed + b.size == e.busy <==> forall x :: IsLive(books, x) && x.page == b.page ==> x == b
  {
    assert Unfold(BALANCE);
    var c := books[b.page].cells;
    var d := Killed(c, k);
    KillCell(c, k);
    AllDead(d);
    if books[b.page].freed + b.size != books[b.page].busy {
      var i :| 0 <= i < |d| && d[i].live;
      var x := Block(b.page, Offset(d, i), d[i].size);
      assert IsCell(d, i, x.offset, x.size);
      assert IsLive(Freed(books, b.page, k), x);
    } else {
      forall x | IsLive(books, x) && x.page == b.page ensures x == b {
        assert !LiveAt(d, x.offset, x.size);
        assert !IsLive(Freed(books, b.page, k), x);
      }
    }
  }

  /** A page without live blocks may be emptied or dropped. */
  lemma DroppedBooks(books: Books, p: Page)
    requires p in books && Balanced(books - {p}) && forall x :: IsLive(books, x) ==> x.page != p
    ensures Balanced(Emptied(books, p))
    ensures forall x :: IsLive(Emptied(books, p), x) <==> IsLive(books, x)
    ensures forall x :: IsLive(books - {p}, x) <==> IsLive(books, x)
  {
    assert Unfold(BALANCE);
    assert forall q <- books :: q != p ==> q in books - {p} && (books - {p})[q] == books[q];
    forall x: Block ensures IsLive(Emptied(books, p), x) <==> IsLive(books, x) {
      assert x.page == p ==> CellsOf(Emptied(books, p), p) == [];
    }
    forall x: Block ensures IsLive(books - {p}, x) <==> IsLive(books, x) {
      assert x.page == p ==> CellsOf(books - {p}, p) == [];
    }
  }

  /** Pages linked both ways, from the first to the root. */
  ghost predicate Chain(order: seq<Page>, repr: set<Page>, root: Page)
    reads repr`prev, repr`next
  {
    forall k :: Unfold(k) && k == CHAIN ==>
      && order != [] && root == order[|order| - 1]
      && (forall i, j :: 0 <= i < j < |order| ==> order[i] != order[j])
      && (forall i :: 0 <= i < |order| ==> order[i] in repr)
      && (forall i {:trigger LinkedAt(order, repr, i)} :: 0 <= i < |order| ==> LinkedAt(order, repr, i))
  }

  ghost predicate LinkedAt(order: seq<Page>, repr: set<Page>, i: nat)
    requires i < |order| && order[i] in repr
    reads repr`prev, repr`next
  {
    order[i].next == After(order, i) && order[i].prev == Before(order, i)
  }

  ghost function After(order: seq<Page>, i: nat): Page?
    requires i < |order|
  {
    if i + 1 < |order| then order[i + 1] else null
  }

  ghost function Before(order: seq<Page>, i: nat): Page?
    requires i < |order|
  {
    if i > 0 then order[i - 1] else null
  }

  /** The pages with books are those behind the sentinel. */
  ghost predicate Known(order: seq<Page>, sentinel: Page, books: Books) {
    forall k :: Unfold(k) && k == KNOWN ==>
      && order != [] && order[0] == sentinel && sentinel !in books
      && (forall i :: 0 < i < |order| ==> order[i] in books)
      && (forall p <- books :: p in order)
  }

  /** A page put at a place of the list behind the sentinel. */
  ghost function Inserted(order: seq<Page>, n: nat, page: Page): seq<Page>
    requires n <= |order|
  {
    order[..n] + [page] + order[n..]
  }

  lemma KnownGrown(order: seq<Page>, sentinel: Page, books: Books, page: Page, n: nat, after: Books)
    requires Known(order, sentinel, books) && page != sentinel && 0 < n <= |order|
    requires Joins(books, after, page)
    ensures Known(Inserted(order, n, page), sentinel, after)
  {
    assert Unfold(KNOWN) && Unfold(JOINS);
    var more := Inserted(order, n, page);
    forall i | 0 < i < |more| ensures more[i] in after {
      assert more[i] == if i < n then order[i] else if i == n then page else order[i - 1];
    }
    forall p <- books ensures p in more {
      var i :| 0 <= i < |order| && order[i] == p;
      assert more[if i < n then i else i + 1] == p;
    }
    assert more[n] == page;
  }

  lemma KnownShrunk(order: seq<Page>, sentinel: Page, books: Books, at: nat)
    requires Known(order, sentinel, books) && 0 < at < |order|
    requires forall i, j :: 0 <= i < j < |order| ==> order[i] != order[j]
    ensures Known(order[..at] + order[at + 1..], sentinel, books - {order[at]})
  {
    assert Unfold(KNOWN);
    var less := order[..at] + order[at + 1..];
    forall i | 0 < i < |less| ensures less[i] in books - {order[at]} {
      assert less[i] == if i < at then order[i] else order[i + 1];
    }
    forall p <- books - {order[at]} ensures p in less {
      var i :| 0 <= i < |order| && order[i] == p;
      assert less[if i < at then i else i - 1] == p;
    }
  }

  lemma KnownSame(order: seq<Page>, sentinel: Page, books: Books, p: Page, e: Book)
    requires Known(order, sentinel, books) && p in books
    ensures Known(order, sentinel, books[p := e])
  {
    assert Unfold(KNOWN);
  }

  class Allocator {
    var root: Page
    var busy_size: nat
    /** The pages from the sentinel to the root. */
    ghost var order: seq<Page>
    ghost var repr: set<Page>
    ghost var sentinel: Page
    ghost var books: Books

    /** xml_document::_create: the sentinel page claims to be full. */
    constructor ()
      ensures Valid() && fresh(repr) && root.prev == null
      ensures forall b :: !IsLive(books, b)
    {
      var page := new Page(PAGE_SIZE);
      root, busy_size := page, PAGE_SIZE;
      order, repr, sentinel, books := [page], {page}, page, map[];
      new;
      page.busy_size := PAGE_SIZE;
    }

    /** The books show the counters as they stand; the root's busy count is kept in the allocator. */
    ghost predicate Matches(p: Page)
      requires p in books
      reads this`root, this`busy_size, this`books, p`busy_size, p`freed_size
    {
      && books[p].capacity == p.capacity && books[p].isRoot == (p == root)
      && books[p].busy == (if p == root then busy_size else p.busy_size) && books[p].freed == p.freed_size
    }

    ghost predicate Linked()
      reads this`root, this`order, this`repr, repr`prev, repr`next
    {
      root in repr && Chain(order, repr, root)
    }

    /** The list and the counters of its pages. */
    ghost predicate Counted()
      reads this, repr
    {
      && Linked() && Known(order, sentinel, books)
      && sentinel in repr && (forall p <- books :: p in repr && Matches(p))
      && (if sentinel == root then busy_size else sentinel.busy_size) == PAGE_SIZE
      && sentinel.freed_size == 0
    }

    ghost predicate Valid()
      reads this, repr
    {
      Counted() && Balanced(books)
    }

    /** When the root is not the sentinel it has books and a page in front of it. */
    lemma RootIsKnown()
      requires Counted()
      ensures root.prev != null <==> root in books
      ensures root.prev == null <==> root == sentinel
      ensures order != [] && (root.prev != null <==> |order| > 1) && (root.prev != null ==> root.prev in repr)
    {
      assert Unfold(KNOWN) && Unfold(CHAIN);
      assert LinkedAt(order, repr, |order| - 1);
    }

    /** A page linked behind the root becomes the root. */
    method LinkLast(page: Page)
      requires Linked() && page !in repr && page.next == null
      modifies this`root, this`order, this`repr, root`next, page`prev
      ensures Linked() && root == page && root.prev == old(root)
      ensures old(|order|) > 0 && order == Inserted(old(order), old(|order|), page) && repr == old(repr) + {page}
    {
      assert Unfold(CHAIN);
      ghost var was, before := order, repr;
      page.prev := root;
      root.next := page;
      root := page;
      order, repr := was + [page], repr + {page};
      assert order == Inserted(was, |was|, page);
      assert forall i :: 0 <= i < |order| ==> order[i] in repr;
      forall i | 0 <= i < |order| ensures LinkedAt(order, repr, i) {
        if i < |was| {
          assert old(LinkedAt(was, before, i));
          assert order[i] == was[i];
        }
      }
    }

    /** A page linked in front of the root. */
    method LinkBeforeRoot(page: Page)
      requires Linked() && page !in repr && root.prev != null
      modifies this`order, this`repr, root.prev`next, root`prev, page`prev, page`next
      ensures Linked() && root.prev == page
      ensures old(|order|) > 1 && order == Inserted(old(order), old(|order|) - 1, page)
      ensures repr == old(repr) + {page}
    {
      assert Unfold(CHAIN);
      ghost var was, before, n := order, repr, |order| - 1;
      assert LinkedAt(was, before, n);
      assert was[n - 1] == root.prev;
      page.prev := root.prev;
      page.next := root;
      root.prev.next := page;
      root.prev := page;
      order, repr := was[..n] + [page] + was[n..], repr + {page};
      assert was[n..] == [root];
      assert forall i :: 0 <= i < |order| ==> order[i] in repr;
      forall i | 0 <= i < |order| ensures LinkedAt(order, repr, i) {
        if i < n {
          assert old(LinkedAt(was, before, i));
          assert order[i] == was[i] && (i + 1 < n ==> order[i + 1] == was[i + 1]) && (i > 0 ==> order[i - 1] == was[i - 1]);
        }
      }
    }

    /** A page between two others is taken out. */
    method Unlink(page: Page, ghost at: nat)
      requires Linked() && 0 < at < |order| - 1 && page == order[at]
      modifies this`order, this`repr, repr`prev, repr`next
      ensures Linked() && root.prev != null
      ensures order == old(order[..at] + order[at + 1..]) && repr == old(repr) - {page}
    {
      assert Unfold(CHAIN);
      ghost var was, before := order, repr;
      assert LinkedAt(was, before, at);
      page.prev.next := page.next;
      page.next.prev := page.prev;
      order, repr := was[..at] + was[at + 1..], repr - {page};
      forall i | 0 <= i < |order| ensures order[i] in repr {
        assert order[i] == was[if i < at then i else i + 1];
      }
      forall i | 0 <= i < |order| ensures LinkedAt(order, repr, i) {
        ghost var j := if i < at then i else i + 1;
        assert old(LinkedAt(was, before, j));
        assert order[i] == was[j];
        assert i + 1 < |order| ==> order[i + 1] == was[if i + 1 < at then i + 1 else i + 2];
        assert i > 0 ==> order[i - 1] == was[if i - 1 < at then i - 1 else i];
      }
      assert LinkedAt(order, repr, |order| - 1);
    }

    /** The count of the old root goes to its page, and the new root starts with one block. */
    method PushRoot(page: Page, size: nat)
      requires Linked() && page !in repr && page.next == null
      modifies this`root, this`order, this`repr, this`busy_size, root`next, root`busy_size, page`prev
      ensures Linked() && root == page && root.prev == old(root) && busy_size == size
      ensures order == Inserted(old(order), old(|order|), page) && repr == old(repr) + {page}
      ensures old(root) != page && old(root).busy_size == old(busy_size)
    {
      root.busy_size := busy_size;
      LinkLast(page);
      busy_size := size;
    }

    /** A fresh page of the usual size becomes the root. */
    method AllocateRoot(size: nat) returns (b: Block)
      requires Valid() && 0 < size <= LARGE_THRESHOLD && size % ALIGNMENT == 0 && busy_size + size > PAGE_SIZE
      modifies this, repr
      ensures Valid() && root.prev != null
      ensures fresh(b.page) && repr == old(repr) + {b.page} && b.page.capacity == PAGE_SIZE
      ensures b.size == size && b.offset == 0 && HandsOut(old(books), books, b)
    {
      var page := new Page(PAGE_SIZE);
      b := Block(page, 0, size);
      RootBooks(books, b);
      RootIsKnown();
      KnownGrown(order, sentinel, books, page, |order|, WithRoot(books, b));
      PushRoot(page, size);
      books := WithRoot(books, b);
      forall p <- books ensures Matches(p) {
        if p != page {
          assert old(Matches(p));
        }
      }
    }

    /** A page of its own in front of the root. */
    method AllocateLarge(size: nat) returns (b: Block)
      requires Valid() && LARGE_THRESHOLD < size && size % ALIGNMENT == 0 && root.prev != null
      modifies this, repr
      ensures Valid() && root.prev != null
      ensures fresh(b.page) && repr == old(repr) + {b.page} && b.page.capacity == size
      ensures b.size == size && b.offset == 0 && HandsOut(old(books), books, b)
    {
      var page := new Page(size);
      b := Block(page, 0, size);
      page.busy_size := size;
      LargeBooks(books, b);
      RootIsKnown();
      KnownGrown(order, sentinel, books, page, |order| - 1, WithLarge(books, b));
      LinkBeforeRoot(page);
      books := WithLarge(books, b);
      forall p <- books ensures Matches(p) {
        if p != page {
          assert old(Matches(p));
        }
      }
    }

    /** Space behind what the root has handed out. */
    method Carve(size: nat) returns (b: Block)
      requires Valid() && 0 < size && size % ALIGNMENT == 0 && busy_size + size <= PAGE_SIZE
      modifies this`busy_size, this`books
      ensures Valid() && root.prev != null
      ensures b.page == root && root.capacity == PAGE_SIZE >= b.offset + size
      ensures b.size == size && HandsOut(old(books), books, b)
    {
      RootIsKnown();
      assert Matches(root);
      b := Block(root, busy_size, size);
      CarvedBooks(books, b);
      RootCapacity();
      KnownSame(order, sentinel, books, root, Carved(books, b)[root]);
      busy_size := busy_size + size;
      books := Carved(books, b);
      forall p <- books ensures Matches(p) {
        assert old(Matches(p));
      }
    }

    method Allocate(size: nat) returns (b: Block)
      requires Valid() && size > 0 && size % ALIGNMENT == 0
      requires size > LARGE_THRESHOLD ==> root.prev != null
      modifies this, repr
      ensures Valid() && root.prev != null && fresh(repr - old(repr))
      ensures b.size == size && b.offset + size <= b.page.capacity
      ensures !IsLive(old(books), b)
      ensures forall x :: IsLive(books, x) <==> IsLive(old(books), x) || x == b
    {
      if busy_size + size > PAGE_SIZE {
        if size <= LARGE_THRESHOLD {
          b := AllocateRoot(size);
        } else {
          b := AllocateLarge(size);
        }
      } else {
        b := Carve(size);
      }
      HandedOut(old(books), books, b);
    }

    lemma RootCapacity()
      requires Valid()
      ensures root in books ==> root.capacity == PAGE_SIZE
    {
      assert Unfold(BALANCE);
      assert root in books ==> Matches(root);
    }

    /** The place of a page in the list; only the root has nothing behind it. */
    lemma PlaceOf(p: Page) returns (at: nat)
      requires Linked() && Known(order, sentinel, books) && p in books
      ensures 0 < at < |order| && order[at] == p
      ensures at == |order| - 1 <==> p == root
      ensures p in repr && p != sentinel && (p.next == null <==> p == root)
    {
      assert Unfold(KNOWN) && Unfold(CHAIN);
      at :| 0 <= at < |order| && order[at] == p;
      assert LinkedAt(order, repr, at);
    }

    lemma PagesDiffer()
      requires Linked()
      ensures forall i, j :: 0 <= i < j < |order| ==> order[i] != order[j]
    {
      assert Unfold(CHAIN);
    }

    method AddFreed(page: Page, size: nat)
      modifies page`busy_size, page`freed_size
      ensures page.busy_size == if page == root then busy_size else old(page.busy_size)
      ensures page.freed_size == old(page.freed_size) + size
    {
      if page == root {
        page.busy_size := busy_size;
      }
      page.freed_size := page.freed_size + size;
    }

    /** The bytes of a block count as freed; the books of its page may now be without a live block. */
    method MarkFreed(b: Block, ghost k: nat)
      requires Valid() && b.page in books
      requires k < |books[b.page].cells| && IsCell(books[b.page].cells, k, b.offset, b.size)
      modifies this`books, b.page`busy_size, b.page`freed_size
      ensures Counted() && books == Freed(old(books), b.page, k)
      ensures b.page.busy_size == old(books)[b.page].busy && b.page.freed_size == old(books)[b.page].freed + b.size
    {
      ghost var at := PlaceOf(b.page);
      assert Matches(b.page);
      KnownSame(order, sentinel, books, b.page, Freed(books, b.page, k)[b.page]);
      AddFreed(b.page, b.size);
      books := Freed(books, b.page, k);
      forall p <- books ensures Matches(p) {
        if p != b.page {
          assert old(Matches(p));
        }
      }
    }

    /** The top page is empty: its space starts over. */
    method ResetRoot()
      requires Counted() && root in books && root.capacity == PAGE_SIZE
      modifies this`busy_size, this`books, root`busy_size, root`freed_size
      ensures Counted() && books == Emptied(old(books), root)
    {
      ghost var at := PlaceOf(root);
      KnownSame(order, sentinel, books, root, Emptied(books, root)[root]);
      root.busy_size := 0;
      root.freed_size := 0;
      busy_size := 0;
      books := Emptied(books, root);
      forall p <- books ensures Matches(p) {
        if p != root {
          assert old(Matches(p));
        }
      }
    }

    /** An empty page below the top is unlinked and given back. */
    method Release(page: Page)
      requires Counted() && page in books && page != root
      modifies this`order, this`repr, this`books, repr`prev, repr`next
      ensures Counted() && books == old(books) - {page} && repr == old(repr) - {page}
    {
      ghost var at := PlaceOf(page);
      PagesDiffer();
      KnownShrunk(order, sentinel, books, at);
      Unlink(page, at);
      books := books - {page};
      forall p <- books ensures Matches(p) {
        assert old(Matches(p));
      }
    }

    method Deallocate(b: Block)
      requires Valid() && IsLive(books, b)
      modifies this, repr
      ensures Valid() && root == old(root) && root.prev != null && repr <= old(repr)
      ensures forall x :: IsLive(books, x) <==> IsLive(old(books), x) && x != b
      ensures b.page !in repr <==>
              b.page != root && forall x :: IsLive(old(books), x) && x.page == b.page ==> x == b
    {
      ghost var k := CellOf(books, b);
      ghost var at := PlaceOf(b.page);
      RootIsKnown();
      FreedBooks(books, b, k);
      RootCapacity();
      MarkFreed(b, k);
      if b.page.freed_size == b.page.busy_size {
        DroppedBooks(books, b.page);
        if b.page.next == null {
          ResetRoot();
        } else {
          Release(b.page);
        }
      }
      RootIsKnown();
    }

    /** xml_document::_destroy: walks the list behind the sentinel and gives every page back. */
    method Destroy(first: Page) returns (freed: seq<Page>)
      requires Valid() && first == sentinel
      ensures order != [] && freed == order[1..] && forall p :: p in freed <==> p in books
      ensures forall i, j :: 0 <= i < j < |freed| ==> freed[i] != freed[j]
    {
      assert Unfold(CHAIN) && Unfold(KNOWN);
      freed := [];
      assert LinkedAt(order, repr, 0);
      var page := first.next;
      while page != null
        invariant |freed| < |order| && freed == order[1..|freed| + 1]
        invariant page == After(order, |freed|)
        decreases |order| - |freed|
      {
        assert LinkedAt(order, repr, |freed| + 1);
        var next := page.next;
        freed := freed + [page];
        page := next;
      }
    }

    // ---------------------------------------------------------------- strings

    /** A block for a string of some length and its header, with the header in front. */
    method AllocateString(length: nat) returns (b: Block, h: Header)
      requires Valid()
      requires StringSize(length) > LARGE_THRESHOLD ==> root.prev != null
      modifies this, repr
      ensures Valid() && root.prev != null && fresh(repr - old(repr))
      ensures !IsLive(old(books), b) && forall x :: IsLive(books, x) <==> IsLive(old(books), x) || x == b
      ensures b.size == StringSize(length) >= STRING_HEADER + length && h == HeaderFor(b)
    {
      b := Allocate(StringSize(length));
      h := HeaderFor(b);
    }

    /** From a string's header alone: where its page starts and how long its block is. */
    method DeallocateString(b: Block, h: Header)
      requires Valid() && IsLive(books, b) && h == HeaderFor(b)
      modifies this, repr
      ensures Valid() && root == old(root) && root.prev != null && repr <= old(repr)
      ensures forall x :: IsLive(books, x) <==> IsLive(old(books), x) && x != b
    {
      HeaderRecovers(b);
      var page_offset := h.page_offset * ALIGNMENT;
      assert b.offset - page_offset == 0;
      var full_size := if h.full_size == 0 then b.page.busy_size else h.full_size * ALIGNMENT;
      Deallocate(Block(b.page, page_offset, full_size));
    }

    lemma HeaderRecovers(b: Block)
      requires Valid() && IsLive(books, b)
      ensures b.page in repr && HeaderFor(b).page_offset * ALIGNMENT == b.offset
      ensures HeaderFor(b).full_size == 0 ==> b.page.busy_size == b.size
      ensures HeaderFor(b).full_size != 0 ==> HeaderFor(b).full_size * ALIGNMENT == b.size
    {
      assert Unfold(BALANCE);
      var e := books[b.page];
      var k := CellOf(books, b);
      assert Matches(b.page);
      OffsetsOrdered(e.cells, k, k + 1);
      OffsetStep(e.cells, k);
      OffsetAligned(e.cells, k);
      if |e.cells| == 1 {
        assert e.cells[..0] == [] && e.cells[..1] == e.cells;
      }
    }
  }

  // ---------------------------------------------------------------- string headers

  const STRING_HEADER: nat := 4
  const MAX_ENCODED: nat := 0x1_0000 * ALIGNMENT

  /** Two 16-bit fields in units of the alignment; a full size of 0 stands for the whole page. */
  datatype Header = Header(page_offset: nat, full_size: nat)

  function StringSize(length: nat): (n: nat)
    ensures n % ALIGNMENT == 0 && STRING_HEADER + length <= n < STRING_HEADER + length + ALIGNMENT
  {
    (STRING_HEADER + length + ALIGNMENT - 1) / ALIGNMENT * ALIGNMENT
  }

  function HeaderFor(b: Block): Header {
    Header(b.offset / ALIGNMENT % 0x1_0000, if b.size < MAX_ENCODED then b.size / ALIGNMENT % 0x1_0000 else 0)
  }

  lemma {:induction false} OffsetAligned(c: seq<Cell>, k: nat)
    requires k <= |c| && forall i :: 0 <= i < |c| ==> c[i].size % ALIGNMENT == 0
    ensures Offset(c, k) % ALIGNMENT == 0
  {
    if k > 0 {
      OffsetAligned(c, k - 1);
      OffsetStep(c, k - 1);
    } else {
      assert c[..0] == [];
    }
  }
}
