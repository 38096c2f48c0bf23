/** The meta page: next rowid, current heap page and schema of a table. */
module Meta {
  import opened Bytes
  import opened Cells
  import opened Schema
  import opened SlottedPage
  import opened BufferPool
  import opened Storage
  import opened HeapFile
  import opened TableState
  import opened PageWrites

  function SchemaLength(p: seq<byte>): nat
    requires |p| == PAGE_SIZE
  {
    U32At(p, 8)
  }

  /** The page holds a schema that can be read back. */
  predicate MetaReadable(p: seq<byte>) {
    |p| == PAGE_SIZE && 12 + SchemaLength(p) <= PAGE_SIZE && DecodeSchema(p[12..12 + SchemaLength(p)]).Some?
  }

  /** Page `p` records exactly this much about a table. */
  ghost predicate MetaSays(p: seq<byte>, cols: seq<Column>, nextRowid: nat, cur: nat) {
    && MetaReadable(p) && U32At(p, 0) == nextRowid && U32At(p, 4) == cur
    && DecodeSchema(p[12..12 + SchemaLength(p)]) == Some(cols)
  }

  lemma MetaSaysOnce(p: seq<byte>, cols: seq<Column>, cols': seq<Column>, next: nat, next': nat, cur: nat, cur': nat)
    requires MetaSays(p, cols, next, cur) && MetaSays(p, cols', next', cur')
    ensures cols == cols' && next == next' && cur == cur'
  {
  }

  /** The row counter of a meta page. */
  function MetaCounter(p: seq<byte>): (n: nat) {
    if |p| == PAGE_SIZE then U32At(p, 0) else 0
  }

  lemma MetaSaysCounter(p: seq<byte>, cols: seq<Column>, nextRowid: nat, cur: nat)
    requires MetaSays(p, cols, nextRowid, cur)
    ensures MetaCounter(p) == nextRowid
  {
  }

  lemma EmptyPageCounter()
    ensures MetaCounter(EmptyPage()) == 4096 * TWO_16
  {
    EmptyIsWellLaid();
  }

  function MetaPage(p: seq<byte>, cols: seq<Column>, nextRowid: nat, cur: nat): (q: seq<byte>)
    requires |p| == PAGE_SIZE && SchemaFits(cols) && nextRowid < TWO_32 && cur < TWO_32
    ensures |q| == PAGE_SIZE
  {
    var b := EncodeSchema(cols);
    WriteBytes(Put32(Put32(Put32(p, 0, nextRowid), 4, cur), 8, |b|), 12, b)
  }

  lemma MetaPageSays(p: seq<byte>, cols: seq<Column>, nextRowid: nat, cur: nat)
    requires |p| == PAGE_SIZE && SchemaFits(cols) && nextRowid < TWO_32 && cur < TWO_32
    ensures MetaSays(MetaPage(p, cols, nextRowid, cur), cols, nextRowid, cur)
  {
    hide Put32, WriteBytes, EncodeSchema, DecodeSchema;
    var b := EncodeSchema(cols);
    var p1 := Put32(p, 0, nextRowid);
    var p2 := Put32(p1, 4, cur);
    var p3 := Put32(p2, 8, |b|);
    var q := WriteBytes(p3, 12, b);
    StoredU32(p, 0, nextRowid);
    StoredU32(p1, 4, cur);
    StoredU32(p2, 8, |b|);
    WriteReads(p3, 12, b);
    assert forall i | 0 <= i < 12 :: q[i] == p3[i];
    assert forall i | 0 <= i < 4 :: q[i] == p1[i];
    assert forall i | 4 <= i < 8 :: q[i] == p2[i];
    assert U32At(q, 0) == U32At(p1, 0) && U32At(q, 4) == U32At(p2, 4) && U32At(q, 8) == U32At(p3, 8);
    assert q[12..12 + |b|] == b;
    SchemaRoundTrip(cols);
  }

  /** Stores the table's counters and schema on the meta page, in the pool. */
  method WriteMeta(pool: BufferPool, schema: Schema, nextRowid: nat, cur: nat)
    requires pool.Sound({}) && SchemaFits(schema.cols) && nextRowid < TWO_32 && cur < TWO_32
    requires SCHEMA_PAGE_ID in pool.watch.pages ==> pool.pager.Page(SCHEMA_PAGE_ID) in pool.watch.past
    modifies pool.Repr
    ensures pool.Sound({}) && fresh(pool.Repr - old(pool.Repr))
    ensures SameBut(old(pool.View()), pool.View(), {SCHEMA_PAGE_ID})
    ensures MetaSays(PageAt(pool.View(), SCHEMA_PAGE_ID), schema.cols, nextRowid, cur)
    ensures pool.nextPageId == if old(pool.nextPageId) <= SCHEMA_PAGE_ID then SCHEMA_PAGE_ID + 1 else old(pool.nextPageId)
    ensures pool.pager.Page(SCHEMA_PAGE_ID) == old(pool.pager.Page(SCHEMA_PAGE_ID)) && SCHEMA_PAGE_ID in pool.unwritten
    ensures pool.Kept(SCHEMA_PAGE_ID) && forall q :: old(pool.Kept(q)) ==> pool.Kept(q)
  {
    hide BufferPool.Shape, BufferPool.View, BufferPool.Contents, BufferPool.Kept, Layout, EncodeSchema, MetaSays;
    var b := SerializeSchema(schema);
    var buf := pool.GetPage(SCHEMA_PAGE_ID, {});
    StoreMeta(pool, buf, schema.cols, nextRowid, cur, b);
    pool.MarkDirty(SCHEMA_PAGE_ID, {SCHEMA_PAGE_ID});
    assert {SCHEMA_PAGE_ID} - {SCHEMA_PAGE_ID} == {};
  }

  method StoreMeta(pool: BufferPool, buf: array<byte>, ghost cols: seq<Column>, nextRowid: nat, cur: nat, b: seq<byte>)
    requires Pinned(pool, SCHEMA_PAGE_ID, buf, {}) && SchemaFits(cols) && b == EncodeSchema(cols)
    requires nextRowid < TWO_32 && cur < TWO_32
    modifies buf
    ensures Pinned(pool, SCHEMA_PAGE_ID, buf, {SCHEMA_PAGE_ID})
    ensures SameBut(old(pool.View()), pool.View(), {SCHEMA_PAGE_ID})
    ensures MetaSays(PageAt(pool.View(), SCHEMA_PAGE_ID), cols, nextRowid, cur)
    ensures pool.pager.Page(SCHEMA_PAGE_ID) == old(pool.pager.Page(SCHEMA_PAGE_ID))
    ensures forall q :: old(pool.Kept(q)) ==> pool.Kept(q)
  {
    hide Put32, WriteBytes, EncodeSchema, MetaSays;
    MetaPageSays(buf[..], cols, nextRowid, cur);
    StoreU32(buf, 0, nextRowid);
    StoreU32(buf, 4, cur);
    StoreU32(buf, 8, |b|);
    if |b| > 0 {
      CopyBytes(buf, 12, b);
    }
    PageWritten(pool, SCHEMA_PAGE_ID, buf, {});
  }

  method FetchMeta(pool: BufferPool) returns (buf: array<byte>)
    requires pool.Sound({})
    modifies pool.Repr
    ensures pool.Sound({}) && fresh(pool.Repr - old(pool.Repr)) && pool.View() == old(pool.View())
    ensures buf[..] == PageAt(pool.View(), SCHEMA_PAGE_ID)
    ensures pool.nextPageId == if old(pool.nextPageId) <= SCHEMA_PAGE_ID then SCHEMA_PAGE_ID + 1 else old(pool.nextPageId)
    ensures forall q :: old(pool.Kept(q)) ==> pool.Kept(q)
  {
    buf := pool.GetPage(SCHEMA_PAGE_ID, {});
  }

  method ReadMeta(pool: BufferPool) returns (cols: seq<Column>, nextRowid: nat, cur: nat)
    requires pool.Sound({}) && MetaReadable(PageAt(pool.View(), SCHEMA_PAGE_ID))
    modifies pool.Repr
    ensures pool.Sound({}) && fresh(pool.Repr - old(pool.Repr)) && pool.View() == old(pool.View())
    ensures MetaSays(PageAt(pool.View(), SCHEMA_PAGE_ID), cols, nextRowid, cur)
    ensures pool.nextPageId == if old(pool.nextPageId) <= SCHEMA_PAGE_ID then SCHEMA_PAGE_ID + 1 else old(pool.nextPageId)
    ensures forall q :: old(pool.Kept(q)) ==> pool.Kept(q)
  {
    hide BufferPool.Kept, BufferPool.Shape, BufferPool.View, BufferPool.Contents;
    var buf := FetchMeta(pool);
    ghost var p := PageAt(pool.View(), SCHEMA_PAGE_ID);
    nextRowid, cur := LoadU32(buf, 0), LoadU32(buf, 4);
    var len := LoadU32(buf, 8);
    cols := [];
    if len > 0 {
      assert buf[12..12 + len] == p[12..12 + len];
      cols := DeserializeSchema(buf[12..12 + len]);
    }
  }
}
