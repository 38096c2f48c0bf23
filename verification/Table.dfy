/**
 * A table: rows in heap pages, found through the B-tree by rowid. Each operation is proved against the
 * finite map from rowids to rows that the pages stand for.
 */
module Table {
  import opened Bytes
  import opened NodePage
  import opened Cells
  import opened Tree
  import opened Index
  import opened Schema
  import opened BufferPool
  import opened Storage
  import opened PageWrites
  import opened BTree
  import opened SlottedPage
  import opened HeapFile
  import opened TableState
  import opened Meta
  import opened Scans

  datatype InsertResult = Inserted(rowid: nat) | OutOfHeapPages | SlotInsertFailed

  /** Whether a record of `len` bytes stays on a page with `free` bytes of free space. */
  predicate Stays(free: int, len: nat) { len + SLOT_SIZE + 4 <= free }

  /** How an insertion ends and the heap page it leaves current. */
  function InsertVerdict(free: int, len: nat, cur: nat, rowid: nat): (InsertResult, nat) {
    if Stays(free, len) then (Inserted(rowid), cur)
    else if cur + 1 >= SCHEMA_PAGE_ID then (OutOfHeapPages, cur + 1)
    else if len <= 4088 then (Inserted(rowid), cur + 1)
    else (SlotInsertFailed, cur + 1)
  }

  /**
   * A new table takes every text of up to 4082 bytes into a column, however narrow it was declared: the row is stored
   * as it is.
   */
  lemma OverlongStored(name: Str, width: uint16, text: Str)
    requires |text| <= 4082
    ensures var cols, row := [Column(name, TEXT, width)], [Value(TEXT, 0, text)];
            && InsertVerdict(4092, |EncodeRow(cols, row)|, HEAP_PAGE_BASE, 1) == (Inserted(1), HEAP_PAGE_BASE)
            && DecodeRow(cols, EncodeRow(cols, row)) == Some(row)
            && (WithinWidths(cols, row) <==> |text| <= width)
  {
    var cols, row := [Column(name, TEXT, width)], [Value(TEXT, 0, text)];
    RowRoundTrip(cols, row);
    TypedIsCoerced(cols, row);
    assert EncodeRow(cols, row) == EncodeField(TEXT, row[0]) + EncodeRow(cols[1..], row[1..]);
  }

  /** Fetches a page that exists already; nothing but the recency order can change. */
  method Fetch(pool: BufferPool, p: nat) returns (buf: array<byte>)
    requires pool.Sound({}) && p < pool.nextPageId
    modifies pool.Repr
    ensures Pinned(pool, p, buf, {}) && fresh(pool.Repr - old(pool.Repr))
    ensures pool.View() == old(pool.View()) && pool.nextPageId == old(pool.nextPageId)
    ensures buf[..] == PageAt(pool.View(), p)
    ensures forall q :: old(pool.Kept(q)) ==> pool.Kept(q)
  {
    buf := pool.GetPage(p, {});
  }

  /** Lays out a heap page that has never been used. */
  method InitHeapPage(pool: BufferPool, p: nat, buf: array<byte>)
    requires Pinned(pool, p, buf, {}) && p !in pool.watch.pages
    modifies pool.Repr
    ensures Pinned(pool, p, buf, {}) && pool.Repr == old(pool.Repr)
    ensures SameBut(old(pool.View()), pool.View(), {p}) && PageAt(pool.View(), p) == EmptyPage() == buf[..]
    ensures pool.nextPageId == old(pool.nextPageId)
    ensures pool.Kept(p) && forall q :: old(pool.Kept(q)) ==> pool.Kept(q)
  {
    hide EmptyPage;
    Init(buf);
    PageWritten(pool, p, buf, {});
    pool.MarkDirty(p, {p});
    assert {p} - {p} == {};
  }

  /** `heap_page`: fetches a heap page, laying it out on first use. */
  method HeapPage(pool: BufferPool, p: nat) returns (buf: array<byte>)
    requires pool.Sound({}) && p < pool.nextPageId && p !in pool.watch.pages
    modifies pool.Repr
    ensures Pinned(pool, p, buf, {}) && fresh(pool.Repr - old(pool.Repr))
    ensures buf[..] == PageAt(pool.View(), p) && pool.nextPageId == old(pool.nextPageId)
    ensures var before := PageAt(old(pool.View()), p);
            && |before| == PAGE_SIZE
            && (FreeOffset(before) != 0 ==> pool.View() == old(pool.View()))
            && (FreeOffset(before) == 0 ==>
                  SameBut(old(pool.View()), pool.View(), {p}) && PageAt(pool.View(), p) == EmptyPage())
    ensures forall q :: old(pool.Kept(q)) ==> pool.Kept(q)
  {
    hide EmptyPage;
    buf := Fetch(pool, p);
    if LoadU16(buf, 2) == 0 {
      InitHeapPage(pool, p, buf);
    }
  }

  /** A buffer that still holds what it held needs no write. */
  twostate lemma Unwritten(pool: BufferPool, new p: nat, new buf: array<byte>)
    requires old(pool.Sound({})) && p in old(pool.cache) && old(pool.cache[p].buffer) == buf
    requires unchanged(pool.watch) && forall o | o in old(pool.Repr) && o != buf :: unchanged(o)
    requires buf[..] == old(buf[..])
    ensures pool.Sound({}) && pool.View() == old(pool.View())
  {
    BuffersWritten(pool, {p}, {});
    forall q: nat
      ensures pool.View()[q] == old(pool.View())[q]
    {
    }
  }

  /** Puts a record that fits on heap page `p`. */
  method PlaceRecord(pool: BufferPool, p: nat, buf: array<byte>, bytes: seq<byte>) returns (slot: nat)
    requires Pinned(pool, p, buf, {}) && p !in pool.watch.pages && |bytes| < TWO_16 && Bounded(buf[..])
    modifies pool.Repr
    ensures pool.Sound({}) && pool.Repr == old(pool.Repr) && pool.nextPageId == old(pool.nextPageId)
    ensures Bounded(PageAt(old(pool.View()), p))
    ensures (PageAt(pool.View(), p), slot) == InsertPage(PageAt(old(pool.View()), p), bytes)
    ensures slot == NO_SLOT <==> !Fits(PageAt(old(pool.View()), p), |bytes|)
    ensures slot != NO_SLOT ==> SameBut(old(pool.View()), pool.View(), {p})
    ensures slot == NO_SLOT ==> pool.View() == old(pool.View())
    ensures forall q :: old(pool.Kept(q)) ==> pool.Kept(q)
  {
    hide InsertPage, Fits, Reusable;
    assert buf[..] == PageAt(pool.View(), p);
    RefusedUnchanged(buf[..], bytes);
    slot := SlottedPage.Insert(buf, bytes);
    PageWritten(pool, p, buf, {});
    if slot != NO_SLOT {
      pool.MarkDirty(p, {p});
      assert {p} - {p} == {};
    } else {
      Unwritten(pool, p, buf);
    }
  }

  /** Deletes a slot of heap page `p`. */
  method FreeSlot(pool: BufferPool, p: nat, buf: array<byte>, slot: nat)
    requires Pinned(pool, p, buf, {}) && p !in pool.watch.pages && Bounded(buf[..])
    modifies pool.Repr
    ensures pool.Sound({}) && pool.Repr == old(pool.Repr) && pool.nextPageId == old(pool.nextPageId)
    ensures Bounded(PageAt(old(pool.View()), p))
            && PageAt(pool.View(), p) == DeletePage(PageAt(old(pool.View()), p), slot)
    ensures SameBut(old(pool.View()), pool.View(), {p})
    ensures forall q :: old(pool.Kept(q)) ==> pool.Kept(q)
  {
    hide DeletePage;
    assert buf[..] == PageAt(pool.View(), p);
    DeleteSlot(buf, slot);
    PageWritten(pool, p, buf, {});
    pool.MarkDirty(p, {p});
    assert {p} - {p} == {};
  }

  /** A file with no pages reads as unused pages. */
  lemma EmptyFile(pool: BufferPool)
    requires pool.Sound({}) && pool.nextPageId == 0
    ensures pool.pager.numPages == 0 && UnusedBut(pool.View(), 0)
  {
  }

  /** The disk alone holds what the pool shows, up to the last page allocated. */
  ghost predicate OnDisk(pool: BufferPool)
    reads pool, pool.Repr, pool.watch
  {
    && pool.Sound({}) && pool.pager.numPages == pool.nextPageId
    && forall p: nat :: pool.pager.Page(p) == pool.View()[p]
  }

  lemma OnDiskAlike(pool: BufferPool, p: nat)
    requires OnDisk(pool)
    ensures pool.pager.Page(p) == PageAt(pool.View(), p)
  {
  }

  method Flush(pool: BufferPool)
    requires pool.Sound({}) && pool.Backed()
    modifies pool.Repr
    ensures OnDisk(pool) && pool.Backed() && pool.View() == old(pool.View())
    ensures pool.unwritten == {} && pool.Repr == old(pool.Repr) && pool.nextPageId == old(pool.nextPageId)
  {
    ghost var last := pool.nextPageId - 1;
    assert last >= 0 ==> pool.Kept(last);
    pool.FlushAll();
  }

  /** The first heap page and the meta page of a new table. */
  method FirstPages(pool: BufferPool, schema: Schema)
    requires pool.Sound({}) && pool.nextPageId == 1 && SchemaFits(schema.cols)
    requires UnusedBut(pool.View(), 0) && pool.watch.pages == {}
    requires Stored(pool.View(), Leaf(0, [], INVALID_PAGE_ID), true)
    modifies pool.Repr
    ensures pool.Sound({}) && pool.Backed() && fresh(pool.Repr - old(pool.Repr)) && pool.nextPageId == 1024
    ensures RoomOn(PageAt(pool.View(), HEAP_PAGE_BASE)) == NEW_PAGE
    ensures Holds(pool.View(), 1024, EmptyTable(schema.cols))
    ensures MetaSays(PageAt(pool.View(), SCHEMA_PAGE_ID), schema.cols, 1, HEAP_PAGE_BASE)
  {
    hide BufferPool.Shape, BufferPool.View, BufferPool.Contents, BufferPool.Kept, EmptyPage, Stored, Holds, SameBut,
      UnusedBut, MetaSays, EmptyTable, Layout, RoomOn;
    ghost var v := pool.View();
    var buf := pool.GetPage(HEAP_PAGE_BASE, {});
    InitHeapPage(pool, HEAP_PAGE_BASE, buf);
    ghost var w := pool.View();
    WriteMeta(pool, schema, 1, HEAP_PAGE_BASE);
    SamePages(w, pool.View(), {SCHEMA_PAGE_ID});
    RoomOnEmptyPage(0);
    NewTableHolds(v, w, pool.View(), schema.cols);
  }

  /** Forced to disk. */
  method StartFile(pool: BufferPool, schema: Schema)
    requires pool.Sound({}) && pool.nextPageId == 1 && SchemaFits(schema.cols)
    requires UnusedBut(pool.View(), 0) && pool.watch.pages == {}
    requires Stored(pool.View(), Leaf(0, [], INVALID_PAGE_ID), true)
    modifies pool.Repr
    ensures OnDisk(pool) && pool.Backed() && fresh(pool.Repr - old(pool.Repr)) && pool.nextPageId == 1024
    ensures pool.unwritten == {} && RoomOn(PageAt(pool.View(), HEAP_PAGE_BASE)) == NEW_PAGE
    ensures Holds(pool.View(), 1024, EmptyTable(schema.cols))
    ensures MetaSays(PageAt(pool.View(), SCHEMA_PAGE_ID), schema.cols, 1, HEAP_PAGE_BASE)
  {
    hide BufferPool.Shape, BufferPool.View, BufferPool.Contents, BufferPool.Kept, EmptyPage, Stored, Holds, SameBut,
      UnusedBut, MetaSays, EmptyTable, Layout, RoomOn;
    FirstPages(pool, schema);
    Flush(pool);
  }

  lemma Openable(pool: BufferPool, create: bool, s: Image)
    requires pool.Sound({})
    requires create ==> pool.nextPageId == 0
    requires !create ==>
               && Holds(pool.View(), pool.nextPageId, s)
               && MetaSays(PageAt(pool.View(), SCHEMA_PAGE_ID), s.cols, s.nextRowid, s.cur)
    ensures create ==> pool.pager.numPages == 0 && UnusedBut(pool.View(), 0)
    ensures !create ==>
              && IsIndex(s.tree, s.height) && Stored(pool.View(), s.tree, true) && PagesBelow(s.tree, pool.nextPageId)
              && PagesOf(s.tree) !! {SCHEMA_PAGE_ID} && SCHEMA_PAGE_ID < pool.nextPageId
              && MetaReadable(PageAt(pool.View(), SCHEMA_PAGE_ID))
              && MetaCounter(PageAt(pool.View(), SCHEMA_PAGE_ID)) == s.nextRowid
  {
    if create {
      EmptyFile(pool);
    } else {
      TreePages(pool.View(), pool.nextPageId, s.tree, s.height);
    }
  }

  /** From now on the meta page, which the disk has as it is, is watched. */
  ghost method Begin(pool: BufferPool)
    requires pool.Sound({}) && pool.unwritten == {} && SCHEMA_PAGE_ID < pool.nextPageId
    modifies pool.watch
    ensures (old(OnDisk(pool)) ==> OnDisk(pool)) && pool.Sound({})
    ensures pool.watch.pages == {SCHEMA_PAGE_ID} && pool.watch.past == iset{}
  {
    pool.watch.pages := {SCHEMA_PAGE_ID};
    pool.watch.past := iset{};
  }

  class Table {
    const pool: BufferPool
    const btree: BTree
    var schema: Schema
    var nextRowid: nat
    var curHeapPage: nat
    /** The bytes stored for each live rowid. */
    ghost var records: map<nat, seq<byte>>
    ghost var blank: nat

    ghost function Content(): Image
      reads this, btree
    {
      Image(btree.tree, btree.height, schema.cols, nextRowid, curHeapPage, records, blank)
    }

    /** Index, heap and pool are in order; the meta page may be out of date. */
    ghost predicate Consistent()
      reads this, btree, pool, pool.Repr, pool.watch
    {
      && btree.pool == pool && this !in pool.Repr && btree !in pool.Repr
      && pool.Sound({}) && 3 <= pool.maxPages && pool.Backed()
      && pool.watch.pages == {SCHEMA_PAGE_ID} && Holds(pool.View(), pool.nextPageId, Content())
    }

    /** The meta page as the pool has it. */
    ghost function MetaBytes(): seq<byte>
      reads this, pool, pool.Repr
    {
      if pool.Shape() then PageAt(pool.View(), SCHEMA_PAGE_ID) else []
    }

    /** The free space and slots of the current heap page, if there is one. */
    ghost function Room(): Space
      reads this, pool, pool.Repr
    {
      if pool.Shape() && curHeapPage < SCHEMA_PAGE_ID then RoomOn(PageAt(pool.View(), curHeapPage)) else NO_SPACE
    }

    /** The current heap page as the pool has it. */
    ghost function HeapBytes(): seq<byte>
      reads this, pool, pool.Repr
    {
      if pool.Shape() then PageAt(pool.View(), curHeapPage) else []
    }

    lemma RoomBytes()
      requires Consistent() && curHeapPage < SCHEMA_PAGE_ID
      ensures Room().free == FreeBytes(HeapBytes())
    {
      hide Layout, AllOwned, WellLaid, RoomOn, FreeBytes;
      CurrentIsHeap(pool.View(), Content());
      RoomIsFreeBytes(PageAt(pool.View(), curHeapPage));
    }

    /** The live rows on it. */
    ghost function Here(): set<nat>
      reads this, btree
    {
      HereOf(Content())
    }

    /** The meta page has the row counter in the pool; past versions of it, which the disk may have, are behind. */
    ghost predicate MetaTracked()
      reads this, pool, pool.Repr, pool.watch
    {
      MetaCounter(MetaBytes()) == nextRowid && forall c | c in pool.watch.past :: MetaCounter(c) < nextRowid
    }

    ghost predicate Valid()
      reads this, btree, pool, pool.Repr, pool.watch
    {
      Consistent() && MetaTracked()
    }

    /**
     * The disk has the current row counter exactly when the meta page has been written back, by an eviction or a flush,
     * since it was last marked dirty; otherwise it is behind.
     */
    lemma CounterOnDisk()
      requires Valid()
      ensures MetaCounter(pool.pager.Page(SCHEMA_PAGE_ID)) == nextRowid <==> SCHEMA_PAGE_ID !in pool.unwritten
      ensures MetaCounter(pool.pager.Page(SCHEMA_PAGE_ID)) <= nextRowid
    {
      hide Layout, Holds, MetaCounter;
      DiskCounter(nextRowid);
    }

    /**
     * Once the heap pages have run out, the current heap page is the meta page. Using the table for another insertion
     * would lay that page out anew, losing its counter, exactly when fewer than 65536 rowids have been reached.
     */
    lemma MetaTakenForHeap()
      requires Valid() && curHeapPage == SCHEMA_PAGE_ID
      ensures |MetaBytes()| == PAGE_SIZE && (FreeOffset(MetaBytes()) == 0 <==> nextRowid < TWO_16)
      ensures FreeOffset(MetaBytes()) == 0 ==> MetaCounter(EmptyPage()) != nextRowid
    {
      hide Layout, Holds, EmptyPage;
      CounterPositive();
      EmptyPageCounter();
    }

    lemma CounterPositive()
      requires Consistent()
      ensures nextRowid > 0
    {
    }

    /** The table as its users see it: live rowids and their rows. */
    ghost function Rows(): map<nat, Row>
      requires Readable(schema.cols, records)
      reads this
    {
      RowsOf(schema.cols, records)
    }

    /**
     * Creates a table in a file with no pages, or opens the one a file holds, which `s` describes.
     */
    constructor (pool: BufferPool, schema: Schema, create: bool, ghost s: Image)
      requires pool.Sound({}) && 3 <= pool.maxPages && pool.watch.pages == {} && pool.unwritten == {}
      requires create ==> pool.nextPageId == 0 && SchemaFits(schema.cols)
      requires !create ==>
                 && pool.pager.numPages != 0 && pool.Backed() && Holds(pool.View(), pool.nextPageId, s)
                 && MetaSays(PageAt(pool.View(), SCHEMA_PAGE_ID), s.cols, s.nextRowid, s.cur)
      modifies pool.Repr, pool.watch
      ensures this.pool == pool && Valid() && fresh(pool.Repr - old(pool.Repr)) && fresh(btree)
      ensures this.schema.tableName == schema.tableName
      ensures create ==> Content() == EmptyTable(schema.cols) && OnDisk(pool) && pool.nextPageId == 1024
      ensures !create ==> Content() == s && pool.View() == old(pool.View()) && pool.nextPageId == old(pool.nextPageId)
      ensures create ==> pool.unwritten == {} && Room() == NEW_PAGE
      ensures MetaSays(PageAt(pool.View(), SCHEMA_PAGE_ID), this.schema.cols, nextRowid, curHeapPage)
    {
      hide BufferPool.Shape, BufferPool.View, BufferPool.Contents, BufferPool.Kept, Layout, Holds, MetaSays, IsIndex,
        Stored, PagesBelow, EditTree, Lookup, SameBut, CellsOf, DecodeRow, NodeAt, EmptyPage, Readable, RoomOn,
        HereOf, UnusedBut, MetaCounter;
      ghost var v := pool.View();
      Openable(pool, create, s);
      if !create {
        Begin(pool);
      }
      var bt := new BTree(pool, s.tree, s.height);
      this.pool, btree, this.schema := pool, bt, schema;
      nextRowid, curHeapPage := 1, HEAP_PAGE_BASE;
      records, blank := if create then map[] else s.records, if create then 0 else s.blank;
      new;
      if create {
        UnusedStill(v, pool.View(), 0);
        LayOut();
      } else {
        LoadMeta(s);
      }
    }

    /** Lays out the file of a new table. */
    method LayOut()
      requires btree.pool == pool && this !in pool.Repr && btree !in pool.Repr
      requires pool.Sound({}) && 3 <= pool.maxPages && pool.nextPageId == 1 && SchemaFits(schema.cols)
      requires UnusedBut(pool.View(), 0) && pool.watch.pages == {}
      requires Stored(pool.View(), Leaf(0, [], INVALID_PAGE_ID), true) && Content() == EmptyTable(schema.cols)
      modifies pool.Repr, pool.watch
      ensures Valid() && OnDisk(pool) && fresh(pool.Repr - old(pool.Repr))
      ensures pool.nextPageId == 1024 && pool.unwritten == {} && Content() == old(Content()) && Room() == NEW_PAGE
      ensures MetaSays(PageAt(pool.View(), SCHEMA_PAGE_ID), schema.cols, nextRowid, curHeapPage)
    {
      hide BufferPool.Shape, BufferPool.View, BufferPool.Contents, BufferPool.Kept, Layout, Holds, MetaSays, Stored,
        SameBut, EmptyPage, Readable, MetaCounter, UnusedBut;
      StartFile(pool, schema);
      MetaSaysCounter(PageAt(pool.View(), SCHEMA_PAGE_ID), schema.cols, 1, HEAP_PAGE_BASE);
      Begin(pool);
    }

    /** Takes schema and counters from the meta page; only the table's name is not stored there. */
    method LoadMeta(ghost s: Image)
      requires btree.pool == pool && this !in pool.Repr && btree !in pool.Repr
      requires pool.Sound({}) && 3 <= pool.maxPages && pool.Backed() && SCHEMA_PAGE_ID < pool.nextPageId
      requires pool.watch.pages == {SCHEMA_PAGE_ID} && pool.watch.past == iset{}
      requires Holds(pool.View(), pool.nextPageId, s) && MetaReadable(PageAt(pool.View(), SCHEMA_PAGE_ID))
      requires MetaSays(PageAt(pool.View(), SCHEMA_PAGE_ID), s.cols, s.nextRowid, s.cur)
      requires Content() == s.(cols := Content().cols, nextRowid := Content().nextRowid, cur := Content().cur)
      modifies this, pool.Repr
      ensures Valid() && fresh(pool.Repr - old(pool.Repr)) && Content() == s
              && schema.tableName == old(schema.tableName)
      ensures pool.View() == old(pool.View()) && pool.nextPageId == old(pool.nextPageId)
    {
      hide BufferPool.Shape, BufferPool.View, BufferPool.Contents, BufferPool.Kept, Layout, Holds, MetaSays, IsIndex,
        Stored, PagesBelow, EditTree, Lookup, SameBut, CellsOf, DecodeRow, NodeAt, EmptyPage, Readable;
      var cols, next, cur := ReadMeta(pool);
      MetaSaysCounter(PageAt(pool.View(), SCHEMA_PAGE_ID), cols, next, cur);
      MetaSaysOnce(PageAt(pool.View(), SCHEMA_PAGE_ID), cols, s.cols, next, s.nextRowid, cur, s.cur);
      schema := Schema(schema.tableName, cols);
      nextRowid, curHeapPage := next, cur;
    }

    lemma TreeReady()
      requires Consistent()
      ensures btree.Valid() && pool.nextPageId + btree.height + 2 < TWO_32
    {
      TreePages(pool.View(), pool.nextPageId, btree.tree, btree.height);
      AllocatorBound(pool.View(), pool.nextPageId, btree.tree, btree.height);
    }

    lemma CurrentPage()
      requires Consistent()
      ensures HEAP_PAGE_BASE <= curHeapPage <= SCHEMA_PAGE_ID < pool.nextPageId && SchemaFits(schema.cols)
      ensures nextRowid < TWO_32
      ensures Readable(schema.cols, records) && nextRowid !in records
      ensures curHeapPage < SCHEMA_PAGE_ID ==> WellLaid(PageAt(pool.View(), curHeapPage))
    {
      hide AllOwned;
      CurrentIsHeap(pool.View(), Content());
      FreshRowid(pool.View(), Content());
    }

    /** Moves on to the next heap page, which has never been used. */
    method OpenNextPage() returns (buf: array<byte>)
      requires Valid() && curHeapPage + 1 < SCHEMA_PAGE_ID
      modifies this`curHeapPage, pool.Repr
      ensures Valid() && Content() == old(Content()).(cur := old(curHeapPage) + 1)
      ensures Pinned(pool, curHeapPage, buf, {}) && fresh(pool.Repr - old(pool.Repr))
      ensures PageAt(pool.View(), curHeapPage) == buf[..] == EmptyPage()
      ensures pool.nextPageId == old(pool.nextPageId) && MetaBytes() == old(MetaBytes())
    {
      hide BufferPool.Shape, BufferPool.View, BufferPool.Contents, BufferPool.Kept, Layout, Holds, MetaSays, IsIndex,
        Stored, PagesBelow, EditTree, Lookup, SameBut, CellsOf, DecodeRow, NodeAt, EmptyPage, Readable;
      CurrentPage();
      UnusedPage(pool.View(), pool.nextPageId, Content());
      ghost var v, s := pool.View(), Content();
      curHeapPage := curHeapPage + 1;
      buf := HeapPage(pool, curHeapPage);
      OpenedPage(v, pool.View(), pool.nextPageId, s);
      SamePages(v, pool.View(), {curHeapPage});
    }

    /** Stores the record on the current heap page, then enters it in the index and writes the meta page. */
    method AddRecord(bytes: seq<byte>, buf: array<byte>) returns (r: InsertResult)
      requires Valid() && curHeapPage < SCHEMA_PAGE_ID && nextRowid + 1 < TWO_32
      requires Pinned(pool, curHeapPage, buf, {}) && buf[..] == PageAt(pool.View(), curHeapPage)
      requires |bytes| < TWO_16 && Bounded(buf[..]) && DecodeRow(schema.cols, bytes).Some?
      modifies this, btree, pool.Repr, pool.watch
      ensures Valid() && fresh(pool.Repr - old(pool.Repr))
      ensures r == if old(Fits(buf[..], |bytes|)) then Inserted(old(nextRowid)) else SlotInsertFailed
      ensures r.Inserted? ==>
                && Content() == WithRow(old(Content()), btree.tree, btree.height, bytes)
                && MetaSays(PageAt(pool.View(), SCHEMA_PAGE_ID), schema.cols, nextRowid, curHeapPage)
      ensures r.Inserted? ==>
                && Room() == Taken(old(Room()), |bytes|, |old(Here())| < old(Room()).slots)
                && Here() == old(Here()) + {old(nextRowid)}
                && SCHEMA_PAGE_ID in pool.unwritten
      ensures !r.Inserted? ==> Content() == old(Content()) && Room() == old(Room())
      ensures schema == old(schema)
    {
      hide BufferPool.Shape, BufferPool.View, BufferPool.Contents, BufferPool.Kept, Layout, Holds, MetaSays, IsIndex,
        Stored, PagesBelow, EditTree, Lookup, SameBut, CellsOf, DecodeRow, NodeAt, EmptyPage, Readable, RoomOn,
        MetaCounter, SlotPos, Fits, InsertPage, Reusable, HereOf;
      ghost var v, s := pool.View(), Content();
      CurrentPage();
      var slot := PlaceRecord(pool, curHeapPage, buf, bytes);
      if slot == NO_SLOT {
        return SlotInsertFailed;
      }
      SamePages(v, pool.View(), {curHeapPage});
      ReusableHere(v, pool.nextPageId, s);
      RoomAfterInsert(PageAt(v, curHeapPage), bytes);
      CommitRow(bytes, slot, v, s);
      return Inserted(nextRowid - 1);
    }

    /** Enters a placed record in the index and writes the meta page. */
    method CommitRow(bytes: seq<byte>, slot: nat, ghost v: PageMap, ghost s: Image)
      requires btree.pool == pool && this !in pool.Repr && btree !in pool.Repr
      requires pool.Sound({}) && 3 <= pool.maxPages && pool.Backed()
      requires pool.watch.pages == {SCHEMA_PAGE_ID} && MetaTracked()
      requires Holds(v, pool.nextPageId, s) && s == Content() && s.cur < SCHEMA_PAGE_ID && s.nextRowid + 1 < TWO_32
      requires |bytes| < TWO_16 && Bounded(PageAt(v, s.cur)) && Fits(PageAt(v, s.cur), |bytes|)
      requires DecodeRow(s.cols, bytes).Some?
      requires SameBut(v, pool.View(), {s.cur})
               && (PageAt(pool.View(), s.cur), slot) == InsertPage(PageAt(v, s.cur), bytes)
      modifies this, btree, pool.Repr, pool.watch
      ensures Valid() && fresh(pool.Repr - old(pool.Repr)) && schema == old(schema)
      ensures Content() == WithRow(s, btree.tree, btree.height, bytes) && SCHEMA_PAGE_ID in pool.unwritten
      ensures Here() == HereOf(s) + {s.nextRowid}
      ensures MetaSays(PageAt(pool.View(), SCHEMA_PAGE_ID), schema.cols, nextRowid, curHeapPage)
      ensures PageAt(pool.View(), curHeapPage) == old(PageAt(pool.View(), curHeapPage))
    {
      hide BufferPool.Shape, BufferPool.View, BufferPool.Contents, BufferPool.Kept, Layout, Holds, MetaSays, IsIndex,
        Stored, PagesBelow, EditTree, Lookup, SameBut, CellsOf, DecodeRow, NodeAt, EmptyPage, Readable, InsertPage,
        Fits, MetaCounter, Bounded;
      EnterRow(bytes, slot, v, s);
      DiskCounter(s.nextRowid);
      ghost var w := pool.View();
      SaveMeta();
      SamePages(w, pool.View(), {SCHEMA_PAGE_ID});
      MetaSaysCounter(PageAt(pool.View(), SCHEMA_PAGE_ID), schema.cols, nextRowid, curHeapPage);
    }

    /** The disk has the meta page's counter or a past one. */
    lemma DiskCounter(n: nat)
      requires pool.Sound({}) && pool.watch.pages == {SCHEMA_PAGE_ID} && MetaCounter(MetaBytes()) == n
      requires forall c | c in pool.watch.past :: MetaCounter(c) < n
      ensures MetaCounter(pool.pager.Page(SCHEMA_PAGE_ID)) <= n
      ensures MetaCounter(pool.pager.Page(SCHEMA_PAGE_ID)) == n <==> SCHEMA_PAGE_ID !in pool.unwritten
    {
      hide Layout, MetaCounter;
    }

    /** Points the index at the record just placed. */
    method EnterRow(bytes: seq<byte>, slot: nat, ghost v: PageMap, ghost s: Image)
      requires btree.pool == pool && this !in pool.Repr && btree !in pool.Repr
      requires pool.Sound({}) && 3 <= pool.maxPages && pool.Backed()
      requires pool.watch.pages == {SCHEMA_PAGE_ID}
      requires Holds(v, pool.nextPageId, s) && s == Content() && s.cur < SCHEMA_PAGE_ID && s.nextRowid + 1 < TWO_32
      requires |bytes| < TWO_16 && Bounded(PageAt(v, s.cur)) && Fits(PageAt(v, s.cur), |bytes|)
      requires DecodeRow(s.cols, bytes).Some?
      requires SameBut(v, pool.View(), {s.cur})
               && (PageAt(pool.View(), s.cur), slot) == InsertPage(PageAt(v, s.cur), bytes)
      modifies this, btree, pool.Repr
      ensures Consistent() && fresh(pool.Repr - old(pool.Repr)) && schema == old(schema)
      ensures PageAt(pool.View(), SCHEMA_PAGE_ID) == old(PageAt(pool.View(), SCHEMA_PAGE_ID))
      ensures PageAt(pool.View(), curHeapPage) == old(PageAt(pool.View(), curHeapPage))
      ensures Content() == WithRow(s, btree.tree, btree.height, bytes) && Here() == HereOf(s) + {s.nextRowid}
    {
      hide BufferPool.Shape, BufferPool.View, BufferPool.Contents, BufferPool.Kept, Layout, Holds, MetaSays, IsIndex,
        Stored, PagesBelow, EditTree, Lookup, SameBut, CellsOf, DecodeRow, NodeAt, EmptyPage, Readable, InsertPage,
        Fits, HereOf, Pointers;
      ghost var w, next := pool.View(), pool.nextPageId;
      ReadyForRow(v, w, next, s, bytes);
      btree.Insert(nextRowid, PackPtr(curHeapPage, slot));
      nextRowid := nextRowid + 1;
      records := records[s.nextRowid := bytes];
      blank := if |bytes| >= 2 then blank else blank + 1;
      RowAdded(v, w, pool.View(), next, pool.nextPageId, s, Content(), bytes);
      OtherKept(w, pool.View(), pool.nextPageId, Content(), SCHEMA_PAGE_ID);
      OtherKept(w, pool.View(), pool.nextPageId, Content(), curHeapPage);
    }

    /** Brings the meta page, in the pool, up to date. */
    method SaveMeta()
      requires Consistent()
      modifies pool.Repr, pool.watch
      ensures Consistent() && fresh(pool.Repr - old(pool.Repr)) && Content() == old(Content())
      ensures MetaSays(PageAt(pool.View(), SCHEMA_PAGE_ID), schema.cols, nextRowid, curHeapPage)
      ensures pool.watch.past == old(pool.watch.past + iset{pool.pager.Page(SCHEMA_PAGE_ID)})
      ensures SCHEMA_PAGE_ID in pool.unwritten
      ensures pool.nextPageId == old(pool.nextPageId) && SameBut(old(pool.View()), pool.View(), {SCHEMA_PAGE_ID})
    {
      hide BufferPool.Shape, BufferPool.View, BufferPool.Contents, BufferPool.Kept, Layout, Holds, MetaSays, IsIndex,
        Stored, PagesBelow, EditTree, Lookup, SameBut, CellsOf, DecodeRow, NodeAt, EmptyPage, Readable, InsertPage,
        Fits;
      ghost var v := pool.View();
      CurrentPage();
      pool.watch.past := pool.watch.past + iset{pool.pager.Page(SCHEMA_PAGE_ID)};
      WriteMeta(pool, schema, nextRowid, curHeapPage);
      MetaApart(v, pool.View(), pool.nextPageId, Content());
    }

    /** Makes current the page a record of `len` bytes goes to, unless the pages have run out. */
    method PageFor(len: nat) returns (buf: array<byte>, found: bool)
      requires Valid() && curHeapPage < SCHEMA_PAGE_ID
      modifies this`curHeapPage, pool.Repr
      ensures Valid() && fresh(pool.Repr - old(pool.Repr)) && Content() == old(Content()).(cur := curHeapPage)
      ensures curHeapPage == if Stays(old(Room()).free, len) then old(curHeapPage) else old(curHeapPage) + 1
      ensures Room() == if Stays(old(Room()).free, len) then old(Room()) else if found then NEW_PAGE else NO_SPACE
      ensures Here() == if Stays(old(Room()).free, len) then old(Here()) else {}
      ensures found == (curHeapPage < SCHEMA_PAGE_ID)
      ensures found ==>
                && Pinned(pool, curHeapPage, buf, {}) && buf[..] == PageAt(pool.View(), curHeapPage) && Bounded(buf[..])
                && (Fits(buf[..], len) <==> Stays(old(Room()).free, len) || len <= 4088)
    {
      hide BufferPool.Shape, BufferPool.View, BufferPool.Contents, BufferPool.Kept, Layout, Holds, MetaSays, IsIndex,
        Stored, PagesBelow, EditTree, Lookup, SameBut, CellsOf, DecodeRow, NodeAt, EmptyPage, Readable, Bounded,
        Fits, WellLaid, SlotPos, HereOf;
      CurrentPage();
      LaidOut(PageAt(pool.View(), curHeapPage));
      NoneThere(pool.View(), pool.nextPageId, Content());
      buf := HeapPage(pool, curHeapPage);
      if FreeSpace(buf) < len + SLOT_SIZE + 4 {
        if curHeapPage + 1 >= SCHEMA_PAGE_ID {
          RanOut(pool.View(), pool.nextPageId, Content());
          curHeapPage := curHeapPage + 1;
          return buf, false;
        }
        buf := OpenNextPage();
        RoomOnEmptyPage(len);
      } else {
        AmpleRoomFits(buf[..], len);
      }
      found := true;
    }

    /**
     * Adds a row under the next rowid, on the current heap page or on the one after it. A row that fits
     * no page, or comes when the pages have run out, changes nothing but the current page.
     */
    method InsertRow(row: Row) returns (r: InsertResult)
      requires Valid() && curHeapPage < SCHEMA_PAGE_ID && nextRowid + 1 < TWO_32
      requires DecodeRow(schema.cols, StoredBytes(schema.cols, row)).Some?
      modifies this, btree, pool.Repr, pool.watch
      ensures Valid() && fresh(pool.Repr - old(pool.Repr)) && schema == old(schema)
      ensures (r, curHeapPage)
           == InsertVerdict(old(Room()).free, |StoredBytes(schema.cols, row)|, old(curHeapPage), old(nextRowid))
      ensures r.Inserted? ==>
                && nextRowid == old(nextRowid) + 1
                && records == old(records)[old(nextRowid) := StoredBytes(schema.cols, row)]
                && Readable(schema.cols, records) && Readable(schema.cols, old(records))
                && Rows() == RowsOf(schema.cols, old(records))[old(nextRowid) := StoredRow(schema.cols, row)]
                && MetaSays(PageAt(pool.View(), SCHEMA_PAGE_ID), schema.cols, nextRowid, curHeapPage)
      ensures r.Inserted? ==>
                && MetaCounter(MetaBytes()) == nextRowid && MetaCounter(pool.pager.Page(SCHEMA_PAGE_ID)) < nextRowid
      ensures var len := |StoredBytes(schema.cols, row)|;
              var stays := Stays(old(Room()).free, len);
              var room, here := if stays then old(Room()) else NEW_PAGE, if stays then old(Here()) else {};
              && (r.Inserted? ==>
                  && Room() == Taken(room, len, |here| < room.slots)
                  && Here() == here + {old(nextRowid)})
              && (!r.Inserted? ==> Room() == (if r.SlotInsertFailed? then NEW_PAGE else NO_SPACE) && Here() == {})
      ensures !r.Inserted? ==> nextRowid == old(nextRowid) && records == old(records)
      ensures |StoredBytes(schema.cols, row)| >= 2 ==> blank == old(blank)
      ensures curHeapPage == old(curHeapPage) <==> |StoredBytes(schema.cols, row)| + 8 <= old(Room()).free
    {
      hide BufferPool.Shape, BufferPool.View, BufferPool.Contents, BufferPool.Kept, Layout, Holds, MetaSays, IsIndex,
        Stored, PagesBelow, EditTree, Lookup, SameBut, CellsOf, DecodeRow, NodeAt, EmptyPage, Readable, Bounded,
        Fits, RowsOf, RoomOn, MetaCounter, StoredBytes, InsertPage, HereOf;
      CurrentPage();
      var bytes := SerializeRecord(schema, row);
      var buf, found := PageFor(|bytes|);
      if !found {
        return OutOfHeapPages;
      }
      r := AddRecord(bytes, buf);
      if r.Inserted? {
        CurrentPage();
        CounterOnDisk();
        RowsGrow(schema.cols, old(records), old(nextRowid), bytes);
      }
    }

    /** Index, then heap: the bytes stored for a rowid. */
    method Locate(rowid: nat) returns (data: Option<seq<byte>>)
      requires Valid() && rowid < TWO_32
      modifies pool.Repr
      ensures Valid() && fresh(pool.Repr - old(pool.Repr)) && Content() == old(Content())
      ensures pool.View() == old(pool.View()) && pool.nextPageId == old(pool.nextPageId)
      ensures data == if rowid in records then Some(records[rowid]) else None
    {
      hide BufferPool.Shape, BufferPool.View, BufferPool.Contents, BufferPool.Kept, Layout, Holds, MetaSays, IsIndex,
        Stored, PagesBelow, EditTree, Lookup, SameBut, CellsOf, DecodeRow, NodeAt, EmptyPage, Readable, Pointers,
        Records, WellLaid;
      TreeReady();
      CurrentPage();
      RowLookup(pool.View(), pool.nextPageId, Content(), rowid);
      var packed := btree.Find(rowid);
      if packed < 0 {
        return None;
      }
      var buf := Fetch(pool, PtrPage(packed));
      data := Get(buf, PtrSlot(packed));
    }

    method FindByRowid(rowid: nat) returns (r: Option<Row>)
      requires Valid() && rowid < TWO_32
      modifies pool.Repr
      ensures Valid() && fresh(pool.Repr - old(pool.Repr)) && Content() == old(Content()) && schema == old(schema)
      ensures pool.View() == old(pool.View()) && Readable(schema.cols, records)
      ensures r == if rowid in Rows() then Some(Rows()[rowid]) else None
    {
      hide BufferPool.Shape, BufferPool.View, BufferPool.Contents, BufferPool.Kept, Layout, Holds, MetaSays, IsIndex,
        Stored, PagesBelow, EditTree, Lookup, SameBut, CellsOf, NodeAt, EmptyPage;
      CurrentPage();
      var data := Locate(rowid);
      match data
      case None => r := None;
      case Some(bytes) =>
        var row := DeserializeRow(schema, bytes);
        r := Some(row);
    }

    /** Shows the callback every live row in rowid order until it has seen enough; counts the rows shown. */
    method Scan<A>(cb: (A, nat, Row) -> (A, bool), init: A) returns (acc: A, count: nat)
      requires Valid()
      modifies pool.Repr
      ensures Valid() && fresh(pool.Repr - old(pool.Repr)) && Content() == old(Content()) && schema == old(schema)
      ensures pool.View() == old(pool.View()) && Readable(schema.cols, records)
      ensures (acc, count) == Fold(Listing(Rows(), 1, nextRowid), cb, init)
    {
      hide RowsOf, BufferPool.Shape, BufferPool.View, BufferPool.Contents, BufferPool.Kept, Layout, Holds, MetaSays,
        IsIndex, Stored, PagesBelow, EditTree, Lookup, SameBut, CellsOf, NodeAt, EmptyPage;
      CurrentPage();
      ghost var rows := Rows();
      acc, count := init, 0;
      var rid := 1;
      while rid < nextRowid
        invariant Valid() && fresh(pool.Repr - old(pool.Repr)) && Content() == old(Content()) && schema == old(schema)
        invariant pool.View() == old(pool.View()) && nextRowid == old(nextRowid) && records == old(records)
        invariant Later(Fold(Listing(rows, rid, nextRowid), cb, acc), count) == Fold(Listing(rows, 1, nextRowid), cb, init)
      {
        hide Listing, Fold;
        var row := FindByRowid(rid);
        FoldStep(rows, rid, nextRowid, cb, acc);
        if row.Some? {
          count := count + 1;
          var (next, more) := cb(acc, rid, row.value);
          acc := next;
          if !more {
            break;
          }
        }
        rid := rid + 1;
      }
    }

    /** Frees the slot of a live row, then buries its index entry. */
    method DeleteRow(rowid: nat) returns (ok: bool)
      requires Valid() && rowid < TWO_32
      modifies this, btree, pool.Repr
      ensures Valid() && fresh(pool.Repr - old(pool.Repr)) && ok == (rowid in old(records))
      ensures MetaBytes() == old(MetaBytes()) && Room() == old(Room())
      ensures schema == old(schema) && Readable(schema.cols, records)
      ensures Content() == old(Content()).(tree := btree.tree, height := btree.height, records := old(records) - {rowid})
      ensures Pointers(Content()) == if ok then old(Pointers(Content()))[rowid := TOMBSTONE] else old(Pointers(Content()))
      ensures pool.nextPageId == old(pool.nextPageId)
    {
      hide BufferPool.Shape, BufferPool.View, BufferPool.Contents, BufferPool.Kept, Layout, Holds, MetaSays, IsIndex,
        Stored, PagesBelow, EditTree, Lookup, SameBut, CellsOf, DecodeRow, NodeAt, EmptyPage, Readable, Pointers,
        Records, WellLaid, DeletePage;
      TreeReady();
      CurrentPage();
      RowLookup(pool.View(), pool.nextPageId, Content(), rowid);
      var packed := btree.Find(rowid);
      if packed < 0 {
        assert records == records - {rowid};
        return false;
      }
      EraseRow(rowid, packed);
      CurrentPage();
      return true;
    }

    method EraseRow(rowid: nat, packed: nat)
      requires Valid() && rowid < TWO_32 && rowid in records && rowid in Pointers(Content())
               && packed == Pointers(Content())[rowid]
      modifies this, btree, pool.Repr
      ensures Valid() && fresh(pool.Repr - old(pool.Repr)) && schema == old(schema)
      ensures MetaBytes() == old(MetaBytes()) && Room() == old(Room())
      ensures Content() == old(Content()).(tree := btree.tree, height := btree.height, records := old(records) - {rowid})
      ensures Pointers(Content()) == old(Pointers(Content()))[rowid := TOMBSTONE]
              && pool.nextPageId == old(pool.nextPageId)
    {
      hide RoomOn, MetaCounter, Index.Live, BufferPool.Shape, BufferPool.View, BufferPool.Contents, BufferPool.Kept,
        Layout, Holds, MetaSays, IsIndex, Stored, PagesBelow, EditTree, Lookup, SameBut, CellsOf, DecodeRow, NodeAt,
        EmptyPage, Readable, Pointers, Records, WellLaid, DeletePage;
      ghost var v, next, s := pool.View(), pool.nextPageId, Content();
      TreeReady();
      CurrentPage();
      RowLookup(v, next, s, rowid);
      var page := PtrPage(packed);
      var buf := Fetch(pool, page);
      LaidOut(PageAt(v, page));
      FreeSlot(pool, page, buf, PtrSlot(packed));
      ghost var w := pool.View();
      BuryEntry(rowid, v, s);
      FaceKept(v, w, pool.View(), next, Content(), page, PtrSlot(packed));
    }

    /** The slot of a row has been freed: now its index entry goes. */
    method BuryEntry(rowid: nat, ghost v: PageMap, ghost s: Image)
      requires btree.pool == pool && this !in pool.Repr && btree !in pool.Repr
      requires pool.Sound({}) && 3 <= pool.maxPages && pool.Backed() && pool.watch.pages == {SCHEMA_PAGE_ID}
      requires Holds(v, pool.nextPageId, s) && s == Content() && rowid in s.records && rowid in Pointers(s)
      requires rowid < TWO_32
      requires var page, slot := PtrPage(Pointers(s)[rowid]), PtrSlot(Pointers(s)[rowid]);
               && SameBut(v, pool.View(), {page}) && Bounded(PageAt(v, page))
               && PageAt(pool.View(), page) == DeletePage(PageAt(v, page), slot)
      modifies this, btree, pool.Repr
      ensures Consistent() && fresh(pool.Repr - old(pool.Repr)) && schema == old(schema)
      ensures Content() == s.(tree := btree.tree, height := btree.height, records := s.records - {rowid})
      ensures Pointers(Content()) == Pointers(s)[rowid := TOMBSTONE] && pool.nextPageId == old(pool.nextPageId)
      ensures SameBut(old(pool.View()), pool.View(), PagesOf(btree.tree))
    {
      hide RoomOn, MetaCounter, Index.Live, BufferPool.Shape, BufferPool.View, BufferPool.Contents, BufferPool.Kept,
        Layout, Holds, MetaSays, IsIndex, Stored, PagesBelow, EditTree, Lookup, SameBut, CellsOf, DecodeRow, NodeAt,
        EmptyPage, Readable, Pointers, Records, WellLaid, DeletePage;
      ghost var w, next := pool.View(), pool.nextPageId;
      ReadyForBurial(v, w, next, s, rowid);
      var removed := btree.Remove(rowid);
      records := records - {rowid};
      RowRemoved(v, w, pool.View(), next, s, Content(), rowid);
    }

    /** Deletes exactly the rows satisfying `pred`, and says how many there were. */
    method DeleteWhere(pred: (nat, Row) -> bool) returns (count: nat)
      requires Valid()
      modifies this, btree, pool.Repr
      ensures Valid() && fresh(pool.Repr - old(pool.Repr)) && schema == old(schema)
      ensures MetaBytes() == old(MetaBytes()) && Room() == old(Room())
      ensures nextRowid == old(nextRowid) && curHeapPage == old(curHeapPage) && blank == old(blank)
      ensures Readable(schema.cols, old(records)) && Readable(schema.cols, records)
      ensures Rows() == Survivors(RowsOf(schema.cols, old(records)), pred)
      ensures count == |Victims(RowsOf(schema.cols, old(records)), pred)|
      ensures forall k | k in records :: k in old(records) && records[k] == old(records[k])
      ensures forall k | k in records ::
                && k in Pointers(Content()) && k in old(Pointers(Content()))
                && Pointers(Content())[k] == old(Pointers(Content()))[k]
    {
      hide BufferPool.Shape, BufferPool.View, BufferPool.Contents, BufferPool.Kept, Layout, Holds, MetaSays, IsIndex,
        Stored, PagesBelow, EditTree, Lookup, SameBut, CellsOf, NodeAt, EmptyPage, Pointers;
      CurrentPage();
      ghost var rows := Rows();
      var doomed, seen := Scan(Collector(pred), []);
      ghost var s := Content();
      DoomedRows(pool.View(), pool.nextPageId, s, doomed, pred);
      count := DeleteAll(doomed);
      CurrentPage();
      RowsLeft(s, Content(), doomed, pred);
    }

    /** Deletes the given live rows one by one. */
    method DeleteAll(doomed: seq<nat>) returns (count: nat)
      requires Valid() && forall i, j | 0 <= i < j < |doomed| :: doomed[i] < doomed[j]
      requires forall k | k in doomed :: k in records && k < TWO_32
      modifies this, btree, pool.Repr
      ensures Valid() && fresh(pool.Repr - old(pool.Repr)) && schema == old(schema) && count == |doomed|
      ensures MetaBytes() == old(MetaBytes()) && Room() == old(Room())
      ensures Content() == old(Content()).(tree := btree.tree, height := btree.height, records := records)
      ensures Reduced(old(Content()), Content(), doomed)
    {
      hide BufferPool.Shape, BufferPool.View, BufferPool.Contents, BufferPool.Kept, Layout, Holds, MetaSays, IsIndex,
        Stored, PagesBelow, EditTree, Lookup, SameBut, CellsOf, DecodeRow, NodeAt, EmptyPage, Readable, Pointers,
        Reduced;
      ghost var s := Content();
      NoneReduced(pool.View(), pool.nextPageId, s);
      count := 0;
      for i := 0 to |doomed|
        invariant Valid() && fresh(pool.Repr - old(pool.Repr)) && schema == old(schema) && count == i
        invariant Content() == s.(tree := btree.tree, height := btree.height, records := records)
        invariant MetaBytes() == old(MetaBytes()) && Room() == old(Room())
        invariant Reduced(s, Content(), doomed[..i])
      {
        ghost var s1 := Content();
        StillThere(s, s1, doomed, i);
        var ok := DeleteRow(doomed[i]);
        ReducedFurther(s, s1, Content(), doomed, i);
        if ok {
          count := count + 1;
        }
      }
      assert doomed[..|doomed|] == doomed;
    }

    /** The meta page and then every dirty page reach the disk. */
    method SaveAll()
      requires Consistent()
      modifies pool.Repr, pool.watch
      ensures Consistent() && fresh(pool.Repr - old(pool.Repr)) && Content() == old(Content())
      ensures Room() == old(Room())
      ensures OnDisk(pool) && pool.unwritten == {} && pool.nextPageId == old(pool.nextPageId)
      ensures MetaSays(PageAt(pool.View(), SCHEMA_PAGE_ID), schema.cols, nextRowid, curHeapPage)
    {
      hide BufferPool.Shape, BufferPool.View, BufferPool.Contents, BufferPool.Kept, Layout, Holds, MetaSays, IsIndex,
        Stored, PagesBelow, EditTree, Lookup, SameBut, CellsOf, DecodeRow, NodeAt, EmptyPage, Readable, RoomOn,
        MetaCounter, SchemaFits;
      ghost var v := pool.View();
      SaveMeta();
      SamePages(v, pool.View(), {SCHEMA_PAGE_ID});
      Flush(pool);
    }

    /** The destructor: saves the meta page and writes everything back. */
    method Close()
      requires Valid()
      modifies pool.Repr, pool.watch
      ensures Valid() && fresh(pool.Repr - old(pool.Repr)) && Content() == old(Content()) && schema == old(schema)
      ensures MetaCounter(pool.pager.Page(SCHEMA_PAGE_ID)) == nextRowid && pool.unwritten == {}
      ensures Room() == old(Room())
      ensures OnDisk(pool) && pool.nextPageId == old(pool.nextPageId)
      ensures MetaSays(PageAt(pool.View(), SCHEMA_PAGE_ID), schema.cols, nextRowid, curHeapPage)
    {
      hide BufferPool.Shape, BufferPool.View, BufferPool.Contents, BufferPool.Kept, Layout, Holds, MetaSays, IsIndex,
        Stored, PagesBelow, EditTree, Lookup, SameBut, CellsOf, DecodeRow, NodeAt, EmptyPage, Readable, RoomOn,
        MetaCounter, SchemaFits;
      SaveAll();
      MetaSaysCounter(PageAt(pool.View(), SCHEMA_PAGE_ID), schema.cols, nextRowid, curHeapPage);
      OnDiskAlike(pool, SCHEMA_PAGE_ID);
      Begin(pool);
    }
  }

  /** Writing the index's pages leaves heap and meta pages alone. */
  lemma OtherKept(w: PageMap, z: PageMap, next: nat, s: Image, p: nat)
    requires Holds(z, next, s) && SameBut(w, z, PagesOf(s.tree)) && 0 < p < 1024
    ensures PageAt(z, p) == PageAt(w, p)
  {
    hide HeapHeld;
    TreePages(z, next, s.tree, s.height);
    SamePages(w, z, PagesOf(s.tree));
  }

  /** Freeing a slot and burying its entry changes neither the meta page nor the room on the current page. */
  lemma FaceKept(v: PageMap, w: PageMap, z: PageMap, next: nat, s: Image, page: nat, slot: nat)
    requires SameBut(v, w, {page}) && IsHeapPage(page, s.cur) && WellLaid(PageAt(v, page)) && s.cur <= SCHEMA_PAGE_ID
    requires PageAt(w, page) == DeletePage(PageAt(v, page), slot)
    requires Holds(z, next, s) && SameBut(w, z, PagesOf(s.tree))
    ensures PageAt(z, SCHEMA_PAGE_ID) == PageAt(v, SCHEMA_PAGE_ID)
    ensures RoomOn(PageAt(z, s.cur)) == RoomOn(PageAt(v, s.cur))
  {
    hide Holds, DeletePage, WellLaid, RoomOn;
    OtherKept(w, z, next, s, SCHEMA_PAGE_ID);
    OtherKept(w, z, next, s, s.cur);
    SamePages(v, w, {page});
    RoomAfterDelete(PageAt(v, page), slot);
  }

  /** Of the rows of `s` those in `gone` have been deleted; the others have kept their bytes and index entries. */
  ghost predicate Reduced(s: Image, s': Image, gone: seq<nat>) {
    && (forall k :: k in s'.records <==> k in s.records && k !in gone)
    && forall k | k in s'.records ::
         s'.records[k] == s.records[k] && k in Pointers(s') && k in Pointers(s) && Pointers(s')[k] == Pointers(s)[k]
  }

  /** A delete scan collects exactly the rows that satisfy the predicate, each once. */
  lemma DoomedRows(v: PageMap, next: nat, s: Image, doomed: seq<nat>, pred: (nat, Row) -> bool)
    requires Holds(v, next, s)
             && doomed == Fold(Listing(RowsOf(s.cols, s.records), 1, s.nextRowid), Collector(pred), []).0
    ensures forall i, j | 0 <= i < j < |doomed| :: doomed[i] < doomed[j]
    ensures forall k :: k in doomed <==> k in Victims(RowsOf(s.cols, s.records), pred)
    ensures forall k | k in doomed :: k in s.records && k < TWO_32
    ensures |doomed| == |Victims(RowsOf(s.cols, s.records), pred)|
  {
    hide AllOwned, HeapPages, TreeHeld, PointsAt;
    var rows := RowsOf(s.cols, s.records);
    CollectsMatching(Listing(rows, 1, s.nextRowid), pred, []);
    MatchingExact(rows, 1, s.nextRowid, pred);
    assert doomed == [] + Matching(Listing(rows, 1, s.nextRowid), pred) == Matching(Listing(rows, 1, s.nextRowid), pred);
    AscendingCount(doomed, Victims(rows, pred));
  }

  lemma NoneReduced(v: PageMap, next: nat, s: Image)
    requires Holds(v, next, s)
    ensures Reduced(s, s, [])
  {
    hide PointsAt, AllOwned, TreeHeld, HeapPages, AsMap;
  }

  lemma StillThere(s: Image, s1: Image, doomed: seq<nat>, i: nat)
    requires i < |doomed| && Reduced(s, s1, doomed[..i])
    requires forall i, j | 0 <= i < j < |doomed| :: doomed[i] < doomed[j]
    requires forall k | k in doomed :: k in s.records && k < TWO_32
    ensures doomed[i] in s1.records && doomed[i] < TWO_32
  {
    assert doomed[i] in doomed;
    assert doomed[i] !in doomed[..i];
  }

  lemma ReducedFurther(s: Image, s1: Image, s2: Image, doomed: seq<nat>, i: nat)
    requires i < |doomed| && Reduced(s, s1, doomed[..i])
    requires s2.records == s1.records - {doomed[i]} && Pointers(s2) == Pointers(s1)[doomed[i] := TOMBSTONE]
    ensures Reduced(s, s2, doomed[..i + 1])
  {
    hide Pointers;
    assert doomed[..i + 1] == doomed[..i] + [doomed[i]];
  }

  lemma RowsLeft(s: Image, s': Image, doomed: seq<nat>, pred: (nat, Row) -> bool)
    requires Reduced(s, s', doomed) && s'.cols == s.cols && Readable(s.cols, s.records) && Readable(s.cols, s'.records)
    requires forall k :: k in doomed <==> k in Victims(RowsOf(s.cols, s.records), pred)
    ensures RowsOf(s'.cols, s'.records) == Survivors(RowsOf(s.cols, s.records), pred)
  {
    hide Pointers, DecodeRow;
  }

  lemma UnusedPage(v: PageMap, next: nat, s: Image)
    requires Holds(v, next, s) && s.cur + 1 < SCHEMA_PAGE_ID
    ensures |PageAt(v, s.cur + 1)| == PAGE_SIZE && FreeOffset(PageAt(v, s.cur + 1)) == 0
  {
  }

  /** With the record on its page, the index is ready to take the new rowid. */
  lemma ReadyForRow(v: PageMap, w: PageMap, next: nat, s: Image, bytes: seq<byte>)
    requires Holds(v, next, s) && SameBut(v, w, {s.cur}) && s.cur < SCHEMA_PAGE_ID
    requires |bytes| < TWO_16 && Bounded(PageAt(v, s.cur)) && Fits(PageAt(v, s.cur), |bytes|)
    ensures PagesOf(s.tree) !! {SCHEMA_PAGE_ID}
    ensures IsIndex(s.tree, s.height) && Stored(w, s.tree, true) && PagesBelow(s.tree, next)
    ensures HEAP_PAGE_BASE <= s.cur && SchemaFits(s.cols)
    ensures Lookup(CellsOf(s.tree), s.nextRowid).None? && next + s.height + 2 < TWO_32
    ensures var slot := InsertPage(PageAt(v, s.cur), bytes).1; slot < 0x1000 && PackPtr(s.cur, slot) < 0x1F_F000
  {
    hide Fits, InsertPage;
    TreeApart(v, w, next, s.tree, s.height, {s.cur});
    TreePages(v, next, s.tree, s.height);
    AllocatorBound(v, next, s.tree, s.height);
    FreshRowid(v, s);
    LookupPointer(s.tree, s.height, s.nextRowid);
    CurrentIsHeap(v, s);
    InsertAddsRecord(PageAt(v, s.cur), bytes);
  }

  lemma LaidOut(p: seq<byte>)
    requires WellLaid(p)
    ensures Bounded(p) && FreeOffset(p) != 0
  {
  }

  lemma RowsGrow(cols: seq<Column>, records: map<nat, seq<byte>>, k: nat, bytes: seq<byte>)
    requires Readable(cols, records[k := bytes]) && k !in records && DecodeRow(cols, bytes).Some?
    ensures Readable(cols, records)
    ensures RowsOf(cols, records[k := bytes]) == RowsOf(cols, records)[k := DecodeRow(cols, bytes).value]
  {
    forall j | j in records
      ensures DecodeRow(cols, records[j]).Some?
    {
      assert j in records[k := bytes] && records[k := bytes][j] == records[j];
    }
  }

  /** With the slot freed, the index is ready for its entry to be buried. */
  lemma ReadyForBurial(v: PageMap, w: PageMap, next: nat, s: Image, k: nat)
    requires Holds(v, next, s) && k in s.records && k in Pointers(s) && SameBut(v, w, {PtrPage(Pointers(s)[k])})
    ensures PagesOf(s.tree) !! {SCHEMA_PAGE_ID}
    ensures IsIndex(s.tree, s.height) && Stored(w, s.tree, true) && PagesBelow(s.tree, next)
    ensures Index.Live(s.tree, k)
  {
    hide PointsAt, AllOwned, HeapPages, Stored, IsIndex, SameBut, AsMap, Lookup;
    RowLookup(v, next, s, k);
    PointerSmall(v, s.cur, Pointers(s)[k], s.records[k]);
    TreeApart(v, w, next, s.tree, s.height, {PtrPage(Pointers(s)[k])});
    TreePages(v, next, s.tree, s.height);
  }
}
