/** Closing a table and opening its file again. */
module Persistence {
  import opened Tree
  import opened Schema
  import opened BufferPool
  import opened Storage
  import opened HeapFile
  import opened TableState
  import opened Meta
  import opened Table

  /** A pool that has cached nothing shows what is on the disk. */
  method OpenPool(old_: BufferPool, max: nat) returns (pool: BufferPool)
    requires OnDisk(old_) && 1 <= max && 0 < old_.nextPageId
    ensures fresh(pool) && fresh(pool.Repr - {old_.pager}) && pool.pager == old_.pager && pool.maxPages == max
    ensures fresh(pool.watch) && pool.watch.pages == {} && pool.unwritten == {}
    ensures pool.Sound({}) && pool.Backed() && pool.pager.numPages == pool.nextPageId == old_.nextPageId
    ensures SameBut(old_.View(), pool.View(), {})
  {
    pool := new BufferPool(old_.pager, max);
  }

  lemma PagerOwned(pool: BufferPool)
    requires pool.Sound({})
    ensures pool.pager in pool.Repr
  {
  }

  lemma SameTable(v: PageMap, w: PageMap, next: nat, s: Image)
    requires Holds(v, next, s) && SameBut(v, w, {})
    requires MetaSays(PageAt(v, SCHEMA_PAGE_ID), s.cols, s.nextRowid, s.cur)
    ensures Holds(w, next, s) && MetaSays(PageAt(w, SCHEMA_PAGE_ID), s.cols, s.nextRowid, s.cur)
    ensures 1024 <= next
  {
    hide Holds;
    assert PageAt(v, SCHEMA_PAGE_ID) == PageAt(w, SCHEMA_PAGE_ID);
    hide MetaSays;
    MetaApart(v, w, next, s);
    PagesAllocated(v, next, s);
  }

  lemma PagesAllocated(v: PageMap, next: nat, s: Image)
    requires Holds(v, next, s)
    ensures 1024 <= next
  {
  }

  /** A new pool over a file that a closed table left opens that table. */
  method Reopen(old_: BufferPool, schema: Schema, max: nat, ghost s: Image) returns (again: Table)
    requires OnDisk(old_) && 3 <= max && Holds(old_.View(), old_.nextPageId, s)
    requires MetaSays(PageAt(old_.View(), SCHEMA_PAGE_ID), s.cols, s.nextRowid, s.cur)
    modifies old_.pager
    ensures again.Valid() && fresh(again) && fresh(again.btree) && again.pool.maxPages == max
    ensures fresh(again.pool) && fresh(again.pool.watch) && fresh(again.pool.Repr - {old_.pager})
    ensures again.Content() == s && again.schema.tableName == schema.tableName
    ensures again.pool.nextPageId == old_.nextPageId
    ensures s.cur < SCHEMA_PAGE_ID ==> again.Room() == old(RoomOn(PageAt(old_.View(), s.cur)))
    ensures forall p | p in PagesOf(again.btree.tree) :: p < again.pool.nextPageId
  {
    hide BufferPool.Shape, BufferPool.View, BufferPool.Contents, BufferPool.Kept, Holds, MetaSays, SameBut, RoomOn;
    PagesAllocated(old_.View(), old_.nextPageId, s);
    var pool := OpenPool(old_, max);
    SameTable(old_.View(), pool.View(), pool.nextPageId, s);
    SamePages(old_.View(), pool.View(), {});
    again := new Table(pool, schema, false, s);
    again.TreeReady();
  }

  /**
   * After closing a table, a new pool of any size over the same file opens the same table: schema,
   * counters, rows and their bytes, index, free space; and it allocates from the same page on, past every page of
   * the index.
   */
  method CloseAndReopen(table: Table, max: nat) returns (again: Table)
    requires table.Valid() && 3 <= max
    modifies table.pool.Repr, table.pool.watch
    ensures again.Valid() && fresh(again) && again.pool.maxPages == max
    ensures fresh(again.btree) && fresh(again.pool) && fresh(again.pool.watch)
            && fresh(again.pool.Repr - old(table.pool.Repr))
    ensures again.Content() == old(table.Content()) && again.schema == old(table.schema)
    ensures again.Room() == old(table.Room())
    ensures again.pool.nextPageId == old(table.pool.nextPageId)
    ensures forall p | p in PagesOf(again.btree.tree) :: p < again.pool.nextPageId
  {
    hide BufferPool.Shape, BufferPool.View, BufferPool.Contents, BufferPool.Kept, Holds, MetaSays, SameBut, PagesOf,
      RoomOn;
    PagerOwned(table.pool);
    table.Close();
    again := Reopen(table.pool, table.schema, max, table.Content());
  }
}
