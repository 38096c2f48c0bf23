/**
 * The whole content of a table file as one value, and what each step of a table operation does to it:
 * index and heap agree, their page families stay apart, no heap slot is lost, no rowid is used twice.
 */
module TableState {
  import opened Bytes
  import opened NodePage
  import opened Cells
  import opened Tree
  import opened TreeEdits
  import opened Index
  import opened Schema
  import opened SlottedPage
  import opened Storage
  import opened HeapFile

  /** `blank` counts the rows ever inserted that took no bytes: those of an empty row or a table without columns. */
  datatype Image = Image(tree: Tree, height: nat, cols: seq<Column>, nextRowid: nat, cur: nat,
                         records: map<nat, seq<byte>>, blank: nat)

  /** What the index maps rowids to. */
  ghost function Pointers(s: Image): map<nat, nat> {
    AsMap(CellsOf(s.tree))
  }

  /** The live rows on the current heap page. */
  ghost function HereOf(s: Image): set<nat> {
    RowsOn(Pointers(s), s.records, s.cur)
  }

  /** The schema fits the meta page. */
  predicate SchemaFits(cols: seq<Column>) {
    Encodable(cols) && 12 + |EncodeSchema(cols)| <= PAGE_SIZE
  }

  /** The index: a search tree on page 0 and on every page allocated from 1024 on. */
  ghost predicate TreeHeld(v: PageMap, next: nat, tree: Tree, height: nat) {
    && IsIndex(tree, height) && Stored(v, tree, true)
    && 1024 <= next && PagesOf(tree) == {0} + Span(1024, next) && Count(tree) == 1 + (next - 1024)
  }

  /** The heap: pages 512 to 1022, which hold exactly the rows the index points at. */
  ghost predicate HeapHeld(v: PageMap, s: Image) {
    && HeapPages(v, s.cur) && Agrees(v, Pointers(s), s.records, s.nextRowid, s.cur)
      && AllOwned(v, Pointers(s), s.records, s.cur)
    && s.blank < s.nextRowid < TWO_32 && Accounted(v, s.nextRowid - 1 - s.blank, s.cur)
  }

  /** The pages hold the table `s`; the allocator stands at `next`. */
  ghost predicate Holds(v: PageMap, next: nat, s: Image) {
    && TreeHeld(v, next, s.tree, s.height) && HeapHeld(v, s)
    && SchemaFits(s.cols) && Readable(s.cols, s.records)
  }

  ghost predicate IsTreePage(p: nat) { p == 0 || 1024 <= p }

  lemma SpanMember(a: nat, b: nat, p: nat)
    ensures p in Span(a, b) <==> a <= p < b
  {
  }

  /** The tree's pages are exactly page 0 and the pages from 1024 up to the allocator. */
  lemma TreePages(v: PageMap, next: nat, tree: Tree, height: nat)
    requires TreeHeld(v, next, tree, height)
    ensures forall p: nat :: p in PagesOf(tree) <==> p == 0 || 1024 <= p < next
    ensures PagesBelow(tree, next)
  {
    forall p: nat
      ensures p in PagesOf(tree) <==> p == 0 || 1024 <= p < next
    {
      SpanMember(1024, next, p);
    }
  }

  /** Neither page ids nor rowids run out of their 32 bits. */
  lemma AllocatorBound(v: PageMap, next: nat, tree: Tree, height: nat)
    requires TreeHeld(v, next, tree, height)
    ensures next + height + 2 < TWO_32 && height <= 3
  {
    hide IsIndex, Power, CellsOf, Count, Stored, PagesOf, Span;
    HeightBound(tree, height);
    SizeBound(tree, height);
  }

  /** A table whose rows all take bytes never hands out more than 1045506 rowids, however many it deletes. */
  lemma RowidsBounded(v: PageMap, next: nat, s: Image)
    requires Holds(v, next, s)
    ensures s.nextRowid - 1 <= 511 * 2046 + s.blank
  {
    AccountedBound(v, s.nextRowid - 1 - s.blank, s.cur);
  }

  /** Writes outside the tree's pages leave the index as it is. */
  lemma TreeApart(v: PageMap, w: PageMap, next: nat, tree: Tree, height: nat, changed: set<nat>)
    requires TreeHeld(v, next, tree, height) && SameBut(v, w, changed)
    requires forall p | p in changed :: !IsTreePage(p)
    ensures TreeHeld(w, next, tree, height)
  {
    hide IsIndex;
    TreePages(v, next, tree, height);
    OutsideSame(v, w, changed, PagesOf(tree));
    StoredSame(v, w, tree, true);
  }

  lemma HeapApart(v: PageMap, w: PageMap, s: Image, changed: set<nat>)
    requires HeapHeld(v, s) && SameBut(v, w, changed)
    requires forall p | p in changed :: !(HEAP_PAGE_BASE <= p < SCHEMA_PAGE_ID)
    ensures HeapHeld(w, s)
  {
    hide Agrees, AllOwned, HeapPages, AsMap;
    SamePages(v, w, changed);
    HeapUntouched(v, w, Pointers(s), s.records, s.nextRowid, s.cur);
    UntouchedOwned(v, w, Pointers(s), s.records, s.cur);
  }

  lemma SamePages(v: PageMap, w: PageMap, changed: set<nat>)
    requires SameBut(v, w, changed)
    ensures forall p: nat | p !in changed :: PageAt(w, p) == PageAt(v, p)
  {
  }

  /** The meta page belongs to neither family. */
  lemma MetaApart(v: PageMap, w: PageMap, next: nat, s: Image)
    requires Holds(v, next, s) && SameBut(v, w, {SCHEMA_PAGE_ID})
    ensures Holds(w, next, s)
  {
    TreeApart(v, w, next, s.tree, s.height, {SCHEMA_PAGE_ID});
    HeapApart(v, w, s, {SCHEMA_PAGE_ID});
  }

  // ---------------------------------------------------------------- the index as a map of pointers

  lemma EditAsMap(t: Tree, h: nat, k: nat, x: nat, next: nat)
    requires IsIndex(t, h) && k < TWO_32 && PagesBelow(t, next)
    ensures AsMap(CellsOf(EditTree(t, k, x, next).0)) == AsMap(CellsOf(t))[k := x]
  {
    hide EditTree, AsMap, CellsOf, WellFormed;
    EditTreeKeeps(t, k, x, next, h);
    CellsInRange(t, true, 0, TWO_32, h);
    AsMapPut(CellsOf(t), k, x);
  }

  lemma LookupPointer(t: Tree, h: nat, k: nat)
    requires IsIndex(t, h)
    ensures Lookup(CellsOf(t), k) == if k in AsMap(CellsOf(t)) then Some(AsMap(CellsOf(t))[k]) else None
  {
    CellsInRange(t, true, 0, TWO_32, h);
    AsMapLookup(CellsOf(t), k);
  }

  /** A rowid's entry in the index is a pointer to its record if it is live, and says so if it is not. */
  lemma RowLookup(v: PageMap, next: nat, s: Image, k: nat)
    requires Holds(v, next, s)
    ensures k in s.records ==>
              && k in Pointers(s) && Lookup(CellsOf(s.tree), k) == Some(Pointers(s)[k])
              && Pointers(s)[k] < 0x1F_F000 && PointsAt(v, s.cur, Pointers(s)[k], s.records[k])
    ensures k !in s.records ==> Lookup(CellsOf(s.tree), k) == None || Lookup(CellsOf(s.tree), k) == Some(TOMBSTONE)
  {
    hide PointsAt, AllOwned, HeapPages;
    LookupPointer(s.tree, s.height, k);
    if k in s.records {
      PointerSmall(v, s.cur, Pointers(s)[k], s.records[k]);
    }
  }

  lemma PointerSmall(v: PageMap, cur: nat, ptr: nat, bytes: seq<byte>)
    requires PointsAt(v, cur, ptr, bytes)
    ensures ptr < 0x1F_F000 && IsHeapPage(PtrPage(ptr), cur)
  {
  }

  // ---------------------------------------------------------------- steps of an insertion

  /** The next heap page has been laid out and become the current one. */
  lemma OpenedPage(v: PageMap, w: PageMap, next: nat, s: Image)
    requires Holds(v, next, s) && s.cur + 1 < SCHEMA_PAGE_ID
    requires SameBut(v, w, {s.cur + 1}) && PageAt(w, s.cur + 1) == EmptyPage()
    ensures Holds(w, next, s.(cur := s.cur + 1))
  {
    hide Agrees, AllOwned, HeapPages, AsMap, EmptyPage, WellLaid;
    TreeApart(v, w, next, s.tree, s.height, {s.cur + 1});
    SamePages(v, w, {s.cur + 1});
    PageOpened(v, w, Pointers(s), s.records, s.nextRowid, s.cur);
    CurrentIsHeap(v, s);
    OpenedOwned(v, w, Pointers(s), s.records, s.cur);
    MovedOnAccounted(v, w, s.nextRowid - 1 - s.blank, s.cur);
  }

  lemma CurrentIsHeap(v: PageMap, s: Image)
    requires HeapHeld(v, s)
    ensures HEAP_PAGE_BASE <= s.cur <= SCHEMA_PAGE_ID
    ensures s.cur < SCHEMA_PAGE_ID ==> WellLaid(PageAt(v, s.cur))
  {
  }

  /** There was no next heap page. */
  lemma RanOut(v: PageMap, next: nat, s: Image)
    requires Holds(v, next, s) && s.cur + 1 == SCHEMA_PAGE_ID
    ensures Holds(v, next, s.(cur := s.cur + 1))
  {
    hide Agrees, AllOwned, HeapPages, AsMap;
    PagesExhausted(v, Pointers(s), s.records, s.nextRowid, s.cur);
    OpenedOwned(v, v, Pointers(s), s.records, s.cur);
    MovedOnAccounted(v, v, s.nextRowid - 1 - s.blank, s.cur);
  }

  /** The table after a row of bytes `bytes` got slot `slot` of the current page. */
  ghost function WithRow(s: Image, tree: Tree, height: nat, bytes: seq<byte>): Image {
    s.(tree := tree, height := height, nextRowid := s.nextRowid + 1, records := s.records[s.nextRowid := bytes],
       blank := if |bytes| >= 2 then s.blank else s.blank + 1)
  }

  /** The heap once a record is on the current page (`w`) and the index points at it (`z`). */
  lemma RowAdded(v: PageMap, w: PageMap, z: PageMap, next: nat, next': nat, s: Image, s': Image, bytes: seq<byte>)
    requires Holds(v, next, s) && s.cur < SCHEMA_PAGE_ID && s.nextRowid + 1 < TWO_32
    requires |bytes| < TWO_16 && Bounded(PageAt(v, s.cur)) && Fits(PageAt(v, s.cur), |bytes|)
    requires DecodeRow(s.cols, bytes).Some?
    requires SameBut(v, w, {s.cur}) && PageAt(w, s.cur) == InsertPage(PageAt(v, s.cur), bytes).0
    requires var slot := InsertPage(PageAt(v, s.cur), bytes).1;
             (s'.tree, next') == EditTree(s.tree, s.nextRowid, PackPtr(s.cur, slot), next)
    requires s' == WithRow(s, s'.tree, s'.height, bytes)
    requires IsIndex(s'.tree, s'.height) && Stored(z, s'.tree, true) && SameBut(w, z, PagesOf(s'.tree))
    ensures Holds(z, next', s') && 1024 <= next' && HereOf(s') == HereOf(s) + {s.nextRowid}
  {
    hide Agrees, AllOwned, HeapPages, AsMap, EditTree, InsertPage, Fits, IsIndex, Stored;
    var slot := InsertPage(PageAt(v, s.cur), bytes).1;
    NewRowIndexed(v, next, s, PackPtr(s.cur, slot));
    HeapRowAdded(v, w, s, s', bytes);
    TreePages(v, next, s.tree, s.height);
    forall p: nat | p in PagesOf(s'.tree)
      ensures IsTreePage(p)
    {
      SpanMember(1024, next', p);
    }
    HeapApart(w, z, s', PagesOf(s'.tree));
    HereGrows(v, s, s', PackPtr(s.cur, slot));
  }

  lemma HereGrows(v: PageMap, s: Image, s': Image, ptr: nat)
    requires HeapHeld(v, s) && PtrPage(ptr) == s.cur == s'.cur && s.nextRowid in s'.records
    requires Pointers(s') == Pointers(s)[s.nextRowid := ptr]
    requires s'.records == s.records[s.nextRowid := s'.records[s.nextRowid]]
    ensures HereOf(s') == HereOf(s) + {s.nextRowid}
  {
    hide Pointers;
    FreshRowid(v, s);
  }

  /** No row is on a page not opened yet. */
  lemma NoneThere(v: PageMap, next: nat, s: Image)
    requires Holds(v, next, s)
    ensures HereOf(s.(cur := s.cur + 1)) == {}
  {
    hide AllOwned, HeapPages, AsMap, WellLaid, Records;
    var s' := s.(cur := s.cur + 1);
    assert Pointers(s') == Pointers(s);
    assert forall k | k in s.records :: PointsAt(v, s.cur, Pointers(s)[k], s.records[k]);
  }

  /** Rows deleted are no longer there; the others stay where they are. */
  lemma HereKept(s: Image, s': Image, gone: set<nat>)
    requires s'.cur == s.cur && s'.records.Keys == s.records.Keys - gone
    requires forall k | k in s'.records :: k in Pointers(s) && k in Pointers(s') && Pointers(s')[k] == Pointers(s)[k]
    ensures HereOf(s') == HereOf(s) - gone
  {
    hide Pointers;
  }

  /** The current heap page has a slot to reuse exactly when it has more slots than live rows. */
  lemma ReusableHere(v: PageMap, next: nat, s: Image)
    requires Holds(v, next, s) && s.cur < SCHEMA_PAGE_ID
    ensures WellLaid(PageAt(v, s.cur))
    ensures Reusable(PageAt(v, s.cur)) <==> |HereOf(s)| < RoomOn(PageAt(v, s.cur)).slots
  {
    hide AllOwned, Agrees, AsMap, WellLaid, Reusable;
    CurrentIsHeap(v, s);
    DeadSlots(v, Pointers(s), s.records, s.nextRowid, s.cur);
    LaidWithin(PageAt(v, s.cur));
  }

  lemma LaidWithin(p: seq<byte>)
    requires WellLaid(p)
    ensures Bounded(p)
  {
  }

  lemma NewRowIndexed(v: PageMap, next: nat, s: Image, ptr: nat)
    requires Holds(v, next, s)
    ensures var (u, n) := EditTree(s.tree, s.nextRowid, ptr, next);
            && 1024 <= n && PagesOf(u) == {0} + Span(1024, n) && Count(u) == 1 + (n - 1024)
            && AsMap(CellsOf(u)) == Pointers(s)[s.nextRowid := ptr]
  {
    hide Agrees, AllOwned, HeapPages, AsMap, EditTree, IsIndex, Stored;
    TreePages(v, next, s.tree, s.height);
    EditTreeKeeps(s.tree, s.nextRowid, ptr, next, s.height);
    EditAsMap(s.tree, s.height, s.nextRowid, ptr, next);
    var (u, n) := EditTree(s.tree, s.nextRowid, ptr, next);
    SpanJoined(1024, next, n);
  }

  lemma {:induction false} SpanJoined(a: nat, b: nat, c: nat)
    requires a <= b <= c
    ensures Span(a, b) + Span(b, c) == Span(a, c)
    decreases c
  {
    if b >= c {
    } else {
      SpanJoined(a, b, c - 1);
    }
  }

  lemma HeapRowAdded(v: PageMap, w: PageMap, s: Image, s': Image, bytes: seq<byte>)
    requires HeapHeld(v, s) && s.cur < SCHEMA_PAGE_ID && s.nextRowid + 1 < TWO_32
    requires |bytes| < TWO_16 && Bounded(PageAt(v, s.cur)) && Fits(PageAt(v, s.cur), |bytes|)
    requires SameBut(v, w, {s.cur}) && PageAt(w, s.cur) == InsertPage(PageAt(v, s.cur), bytes).0
    requires var slot := InsertPage(PageAt(v, s.cur), bytes).1;
             Pointers(s') == Pointers(s)[s.nextRowid := PackPtr(s.cur, slot)]
    requires s' == WithRow(s, s'.tree, s'.height, bytes)
    ensures HeapHeld(w, s')
  {
    hide HeapPages, AllOwned, Agrees, Accounted, Pointers, InsertPage, Fits, WellLaid, PageAt;
    CurrentIsHeap(v, s);
    SamePages(v, w, {s.cur});
    hide SameBut;
    FreshRowid(v, s);
    RecordPlaced(v, w, Pointers(s), s.records, s.nextRowid, s.cur, bytes);
    PlacedOwned(v, w, Pointers(s), s.records, s.nextRowid, s.cur, bytes);
    RowAccounted(v, w, s.nextRowid - 1 - s.blank, s.cur, bytes);
  }

  lemma FreshRowid(v: PageMap, s: Image)
    requires HeapHeld(v, s)
    ensures s.nextRowid !in s.records && s.nextRowid !in Pointers(s) && s.nextRowid >= 1
  {
  }

  lemma RowAccounted(v: PageMap, w: PageMap, rows: nat, cur: nat, bytes: seq<byte>)
    requires Accounted(v, rows, cur) && IsHeapPage(cur, cur) && |bytes| < TWO_16
    requires WellLaid(PageAt(v, cur)) && Fits(PageAt(v, cur), |bytes|)
             && PageAt(w, cur) == InsertPage(PageAt(v, cur), bytes).0
    ensures Accounted(w, if |bytes| >= 2 then rows + 1 else rows, cur)
  {
    hide InsertPage, Fits;
    InsertAddsRecord(PageAt(v, cur), bytes);
  }

  // ---------------------------------------------------------------- deletion

  lemma RowRemoved(v: PageMap, w: PageMap, z: PageMap, next: nat, s: Image, s': Image, k: nat)
    requires Holds(v, next, s) && k in s.records && k in Pointers(s)
    requires var page, slot := PtrPage(Pointers(s)[k]), PtrSlot(Pointers(s)[k]);
             SameBut(v, w, {page}) && Bounded(PageAt(v, page)) && PageAt(w, page) == DeletePage(PageAt(v, page), slot)
    requires (s'.tree, next) == EditTree(s.tree, k, TOMBSTONE, next)
    requires s' == s.(tree := s'.tree, height := s'.height, records := s.records - {k})
    requires IsIndex(s'.tree, s'.height) && Stored(z, s'.tree, true) && SameBut(w, z, PagesOf(s'.tree))
    ensures Holds(z, next, s') && Pointers(s') == Pointers(s)[k := TOMBSTONE]
  {
    hide Agrees, AllOwned, HeapPages, AsMap, EditTree, DeletePage, IsIndex, Stored;
    var page := PtrPage(Pointers(s)[k]);
    TreePages(v, next, s.tree, s.height);
    RowLookup(v, next, s, k);
    RowidSmall(v, s, k);
    EditTreeKeeps(s.tree, k, TOMBSTONE, next, s.height);
    EditAsMap(s.tree, s.height, k, TOMBSTONE, next);
    HeapRowRemoved(v, w, s, s', k);
    forall p: nat | p in PagesOf(s'.tree)
      ensures IsTreePage(p)
    {
      SpanMember(1024, next, p);
    }
    HeapApart(w, z, s', PagesOf(s'.tree));
  }

  lemma RowidSmall(v: PageMap, s: Image, k: nat)
    requires HeapHeld(v, s) && k in s.records
    ensures 1 <= k < s.nextRowid
  {
  }

  lemma HeapRowRemoved(v: PageMap, w: PageMap, s: Image, s': Image, k: nat)
    requires HeapHeld(v, s) && k in s.records && k in Pointers(s)
    requires var page, slot := PtrPage(Pointers(s)[k]), PtrSlot(Pointers(s)[k]);
             && IsHeapPage(page, s.cur) && SameBut(v, w, {page})
             && Bounded(PageAt(v, page)) && PageAt(w, page) == DeletePage(PageAt(v, page), slot)
    requires Pointers(s') == Pointers(s)[k := TOMBSTONE]
    requires s' == s.(tree := s'.tree, height := s'.height, records := s.records - {k})
    ensures HeapHeld(w, s')
  {
    hide AllOwned, Agrees, Pointers, DeletePage;
    var page, slot := PtrPage(Pointers(s)[k]), PtrSlot(Pointers(s)[k]);
    SamePages(v, w, {page});
    hide SameBut;
    RecordDeleted(v, w, Pointers(s), s.records, s.nextRowid, s.cur, k);
    DeletedOwned(v, w, Pointers(s), s.records, s.cur, k);
    DeleteRemovesRecord(PageAt(v, page), slot);
  }

  // ---------------------------------------------------------------- a new table

  ghost function EmptyTable(cols: seq<Column>): Image {
    Image(Leaf(0, [], INVALID_PAGE_ID), 0, cols, 1, HEAP_PAGE_BASE, map[], 0)
  }

  /** No page but `q` has ever been used. */
  ghost predicate UnusedBut(v: PageMap, q: nat) {
    forall p: nat | p != q :: |PageAt(v, p)| == PAGE_SIZE && FreeOffset(PageAt(v, p)) == 0
  }

  lemma UnusedStill(v: PageMap, w: PageMap, q: nat)
    requires UnusedBut(v, q) && SameBut(v, w, {q})
    ensures UnusedBut(w, q)
  {
    SamePages(v, w, {q});
  }

  /**
   * An empty root leaf and one empty heap page in a file of unused pages make an empty table, whatever the meta page.
   */
  lemma NewTableHolds(v: PageMap, u: PageMap, w: PageMap, cols: seq<Column>)
    requires UnusedBut(v, 0) && Stored(v, Leaf(0, [], INVALID_PAGE_ID), true) && SchemaFits(cols)
    requires SameBut(v, u, {HEAP_PAGE_BASE}) && PageAt(u, HEAP_PAGE_BASE) == EmptyPage()
    requires SameBut(u, w, {SCHEMA_PAGE_ID})
    ensures Holds(w, 1024, EmptyTable(cols))
  {
    hide EmptyPage, Stored, TreeHeld, HeapHeld, UnusedBut;
    SamePages(u, w, {SCHEMA_PAGE_ID});
    SameButTwice(v, u, w, {HEAP_PAGE_BASE}, {SCHEMA_PAGE_ID});
    assert {HEAP_PAGE_BASE} + {SCHEMA_PAGE_ID} == {HEAP_PAGE_BASE, SCHEMA_PAGE_ID};
    hide SameBut;
    NewTree(v);
    TreeApart(v, w, 1024, Leaf(0, [], INVALID_PAGE_ID), 0, {HEAP_PAGE_BASE, SCHEMA_PAGE_ID});
    NewHeap(v, w, cols);
  }

  lemma NewTree(v: PageMap)
    requires Stored(v, Leaf(0, [], INVALID_PAGE_ID), true)
    ensures TreeHeld(v, 1024, Leaf(0, [], INVALID_PAGE_ID), 0)
  {
    hide Stored;
    EmptyImplements();
    assert PagesOf(Leaf(0, [], INVALID_PAGE_ID)) == {0} && Span(1024, 1024) == {};
  }

  lemma NoRows(cols: seq<Column>)
    ensures var s := EmptyTable(cols);
            Pointers(s) == map[] && s.records == map[] && s.nextRowid == 1 && s.blank == 0 && s.cur == HEAP_PAGE_BASE
  {
  }

  lemma NewHeap(v: PageMap, w: PageMap, cols: seq<Column>)
    requires UnusedBut(v, 0)
    requires SameBut(v, w, {HEAP_PAGE_BASE, SCHEMA_PAGE_ID}) && PageAt(w, HEAP_PAGE_BASE) == EmptyPage()
    ensures HeapHeld(w, EmptyTable(cols))
  {
    hide EmptyPage;
    SamePages(v, w, {HEAP_PAGE_BASE, SCHEMA_PAGE_ID});
    hide SameBut, EmptyTable;
    NoRows(cols);
    NewHeapPages(w);
  }

  lemma NewHeapPages(w: PageMap)
    requires forall p: nat | HEAP_PAGE_BASE < p < SCHEMA_PAGE_ID ::
               && |PageAt(w, p)| == PAGE_SIZE
               && FreeOffset(PageAt(w, p)) == 0
    requires PageAt(w, HEAP_PAGE_BASE) == EmptyPage()
    ensures HeapPages(w, HEAP_PAGE_BASE) && AllOwned(w, map[], map[], HEAP_PAGE_BASE) && Accounted(w, 0, HEAP_PAGE_BASE)
  {
    EmptyIsWellLaid();
    hide EmptyPage, Records, WellLaid, PageAt;
  }
}
