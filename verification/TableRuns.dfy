/** Whole runs of table operations, reopening included, against a map from rowids to rows and a few counters. */
module TableRuns {
  import opened Bytes
  import opened Cells
  import opened Schema
  import opened BufferPool
  import opened HeapFile
  import opened TableState
  import opened Table
  import opened Scans
  import Persistence
  import Query
  import Join

  datatype Operation<!A> =
    | InsertOp(row: Row)
    | FindOp(rowid: nat)
    | ScanOp(callback: (A, nat, Row) -> (A, bool), init: A)
    | DeleteOp(rowid: nat)
    | DeleteWhereOp(pred: (nat, Row) -> bool)
    | ReopenOp(capacity: nat)

  datatype Outcome<A> =
    | InsertedRow(result: InsertResult)
    | FoundRow(row: Option<Row>)
    | ScannedRows(acc: A, count: nat)
    | DeletedRow(ok: bool)
    | DeletedRows(count: nat)
    | Reopened

  /**
   * What a user of the table has to keep in mind: the rows and the next rowid; and of the current heap page its number,
   * its free space and slots, and the live rows on it.
   */
  datatype Model = Model(rows: map<nat, Row>, next: nat, cur: nat, room: Space, here: set<nat>)

  /** Rows of at least one value and at most 65535 stored bytes, 32-bit rowids, pools of at least three pages. */
  predicate Admissible<A>(cols: seq<Column>, op: Operation<A>) {
    match op
    case InsertOp(row) => row != [] && |EncodeRow(cols, row)| < TWO_16
    case FindOp(k) => k < TWO_32
    case DeleteOp(k) => k < TWO_32
    case ReopenOp(capacity) => 3 <= capacity
    case _ => true
  }

  /**
   * An insertion goes to the current page or, without ample room there, to the next one; it reuses a slot of that page
   * if there are more slots than live rows. If it fails, nothing but the current page changes.
   */
  ghost function AfterInsert(cols: seq<Column>, m: Model, row: Row): (InsertResult, Model) {
    var len := |EncodeRow(cols, row)|;
    var (r, cur) := InsertVerdict(m.room.free, len, m.cur, m.next);
    var room, here := if cur == m.cur then m.room else NEW_PAGE, if cur == m.cur then m.here else {};
    match r
    case Inserted(k) =>
      (r, Model(m.rows[k := Coerce(cols, row)], k + 1, cur, Taken(room, len, |here| < room.slots), here + {k}))
    case SlotInsertFailed => (r, m.(cur := cur, room := room, here := here))
    case OutOfHeapPages => (r, m.(cur := cur, room := NO_SPACE, here := {}))
  }

  /** The outcome of an operation and the model after it. */
  ghost function Respond<A>(cols: seq<Column>, m: Model, op: Operation<A>): (Outcome<A>, Model) {
    match op
    case InsertOp(row) => var (r, m') := AfterInsert(cols, m, row); (InsertedRow(r), m')
    case FindOp(k) => (FoundRow(if k in m.rows then Some(m.rows[k]) else None), m)
    case ScanOp(cb, init) => var (acc, n) := Fold(Listing(m.rows, 1, m.next), cb, init); (ScannedRows(acc, n), m)
    case DeleteOp(k) => (DeletedRow(k in m.rows), m.(rows := m.rows - {k}, here := m.here - {k}))
    case DeleteWhereOp(pred) =>
      var gone := Victims(m.rows, pred);
      (DeletedRows(|gone|), m.(rows := Survivors(m.rows, pred), here := m.here - gone))
    case ReopenOp(_) => (Reopened, m)
  }

  predicate Stopped<A>(out: Outcome<A>) {
    out.InsertedRow? && out.result.OutOfHeapPages?
  }

  ghost function ModelOf(t: Table): Model
    requires Readable(t.schema.cols, t.records)
    reads t, t.btree, t.pool, t.pool.Repr
  {
    Model(t.Rows(), t.nextRowid, t.curHeapPage, t.Room(), t.Here())
  }

  ghost function Footprint(t: Table): set<object>
    reads t.pool
  {
    {t, t.btree, t.pool, t.pool.watch} + t.pool.Repr
  }

  /** A table with columns into which only rows that take bytes have been inserted. */
  ghost predicate InUse(t: Table)
    reads t, t.btree, t.pool, t.pool.Repr, t.pool.watch
  {
    t.Valid() && t.schema.cols != [] && t.blank == 0
  }

  lemma InUseReadable(t: Table)
    requires InUse(t)
    ensures Readable(t.schema.cols, t.records) && t.curHeapPage <= SCHEMA_PAGE_ID
    ensures 0 <= t.nextRowid - 1 <= 511 * 2046
  {
    RowidsBounded(t.pool.View(), t.pool.nextPageId, t.Content());
    CurrentIsHeap(t.pool.View(), t.Content());
  }

  lemma RowsWithout(cols: seq<Column>, records: map<nat, seq<byte>>, k: nat)
    requires Readable(cols, records)
    ensures Readable(cols, records - {k}) && RowsOf(cols, records - {k}) == RowsOf(cols, records) - {k}
    ensures k in RowsOf(cols, records) <==> k in records
  {
    hide DecodeRow;
  }

  method PerformInsert(t: Table, row: Row) returns (r: InsertResult)
    requires InUse(t) && t.curHeapPage < SCHEMA_PAGE_ID && row != [] && |EncodeRow(t.schema.cols, row)| < TWO_16
    modifies t, t.btree, t.pool.Repr, t.pool.watch
    ensures InUse(t) && fresh(t.pool.Repr - old(t.pool.Repr)) && t.schema == old(t.schema)
    ensures Readable(t.schema.cols, old(t.records)) && Readable(t.schema.cols, t.records)
    ensures (r, ModelOf(t)) == AfterInsert(t.schema.cols, old(ModelOf(t)), row)
    ensures r.OutOfHeapPages? <==> t.curHeapPage == SCHEMA_PAGE_ID
  {
    hide BufferPool.Shape, BufferPool.View, BufferPool.Contents, BufferPool.Kept, Holds, Coerce, EncodeRow, RoomOn,
      Readable, RowsOf, HereOf, Pointers, Taken, Stays, StoredBytes, AfterInsert, InsertVerdict;
    InUseReadable(t);
    RecordReadsBack(t.schema.cols, row);
    ghost var m := ModelOf(t);
    r := t.InsertRow(row);
    InUseReadable(t);
    InsertedModel(t.schema.cols, m, row, r, ModelOf(t));
  }

  lemma InsertedModel(cols: seq<Column>, m: Model, row: Row, r: InsertResult, m': Model)
    requires (r, m'.cur) == InsertVerdict(m.room.free, |EncodeRow(cols, row)|, m.cur, m.next)
    requires r.Inserted? ==> m'.next == m.next + 1 && m'.rows == m.rows[m.next := Coerce(cols, row)]
    requires !r.Inserted? ==> m'.next == m.next && m'.rows == m.rows
    requires var len := |EncodeRow(cols, row)|;
             var stays := Stays(m.room.free, len);
             var room, here := if stays then m.room else NEW_PAGE, if stays then m.here else {};
             && (r.Inserted? ==> m'.room == Taken(room, len, |here| < room.slots) && m'.here == here + {m.next})
             && (!r.Inserted? ==> m'.room == (if r.SlotInsertFailed? then NEW_PAGE else NO_SPACE) && m'.here == {})
    ensures (r, m') == AfterInsert(cols, m, row)
    ensures r.OutOfHeapPages? ==> m'.cur >= SCHEMA_PAGE_ID
    ensures !r.OutOfHeapPages? && m.cur < SCHEMA_PAGE_ID ==> m'.cur < SCHEMA_PAGE_ID
  {
    hide Coerce, EncodeRow, Taken;
  }

  method PerformDelete(t: Table, k: nat) returns (ok: bool)
    requires InUse(t) && k < TWO_32
    modifies t, t.btree, t.pool.Repr
    ensures InUse(t) && fresh(t.pool.Repr - old(t.pool.Repr)) && t.schema == old(t.schema)
    ensures Readable(t.schema.cols, old(t.records)) && Readable(t.schema.cols, t.records)
    ensures ok == (k in old(ModelOf(t)).rows) && t.curHeapPage == old(t.curHeapPage)
    ensures var m := old(ModelOf(t)); ModelOf(t) == m.(rows := m.rows - {k}, here := m.here - {k})
  {
    hide BufferPool.Shape, BufferPool.View, BufferPool.Contents, BufferPool.Kept, Holds, RoomOn, Readable, RowsOf,
      HereOf, Pointers;
    InUseReadable(t);
    ghost var s := t.Content();
    RowsWithout(t.schema.cols, t.records, k);
    PointersKnown(t);
    ok := t.DeleteRow(k);
    HereKept(s, t.Content(), {k});
  }

  lemma PointersKnown(t: Table)
    requires InUse(t)
    ensures forall k | k in t.records :: k in Pointers(t.Content())
  {
    hide AllOwned, TreeHeld, HeapPages, PointsAt, AsMap;
  }

  method PerformDeleteWhere(t: Table, pred: (nat, Row) -> bool) returns (count: nat)
    requires InUse(t)
    modifies t, t.btree, t.pool.Repr
    ensures InUse(t) && fresh(t.pool.Repr - old(t.pool.Repr)) && t.schema == old(t.schema)
    ensures Readable(t.schema.cols, old(t.records)) && Readable(t.schema.cols, t.records)
    ensures t.curHeapPage == old(t.curHeapPage)
    ensures var m := old(ModelOf(t));
            var gone := Victims(m.rows, pred);
            count == |gone| && ModelOf(t) == m.(rows := Survivors(m.rows, pred), here := m.here - gone)
  {
    hide BufferPool.Shape, BufferPool.View, BufferPool.Contents, BufferPool.Kept, Holds, RoomOn, Readable, HereOf,
      Pointers;
    InUseReadable(t);
    ghost var s, rows := t.Content(), t.Rows();
    count := t.DeleteWhere(pred);
    assert rows.Keys == s.records.Keys && t.Rows().Keys == t.records.Keys;
    assert t.Rows().Keys == rows.Keys - Victims(rows, pred);
    HereKept(s, t.Content(), Victims(rows, pred));
  }

  /** One operation on an open table. */
  method PerformHere<A>(t: Table, op: Operation<A>) returns (out: Outcome<A>)
    requires InUse(t) && Admissible(t.schema.cols, op) && t.curHeapPage < SCHEMA_PAGE_ID && !op.ReopenOp?
    modifies t, t.btree, t.pool.Repr, t.pool.watch
    ensures InUse(t) && fresh(t.pool.Repr - old(t.pool.Repr)) && t.schema == old(t.schema)
    ensures Readable(t.schema.cols, old(t.records)) && Readable(t.schema.cols, t.records)
    ensures (out, ModelOf(t)) == Respond(t.schema.cols, old(ModelOf(t)), op)
    ensures Stopped(out) <==> t.curHeapPage == SCHEMA_PAGE_ID
  {
    hide BufferPool.Shape, BufferPool.View, BufferPool.Contents, BufferPool.Kept, Holds, Coerce, EncodeRow, RoomOn,
      Listing, Fold, Victims, Survivors, AfterInsert, Readable, RowsOf;
    InUseReadable(t);
    match op
    case InsertOp(row) =>
      var r := PerformInsert(t, row);
      out := InsertedRow(r);
    case FindOp(k) =>
      var r := t.FindByRowid(k);
      out := FoundRow(r);
    case ScanOp(cb, init) =>
      var acc, n := t.Scan(cb, init);
      out := ScannedRows(acc, n);
    case DeleteOp(k) =>
      var ok := PerformDelete(t, k);
      out := DeletedRow(ok);
    case DeleteWhereOp(pred) =>
      var n := PerformDeleteWhere(t, pred);
      out := DeletedRows(n);
  }

  /** One operation; `after` is the table to go on with, another one only after reopening. */
  method Perform<A>(t: Table, op: Operation<A>) returns (out: Outcome<A>, after: Table)
    requires InUse(t) && Admissible(t.schema.cols, op) && t.curHeapPage < SCHEMA_PAGE_ID
    modifies Footprint(t)
    ensures InUse(after) && fresh(Footprint(after) - old(Footprint(t))) && after.schema == old(t.schema)
    ensures Readable(t.schema.cols, old(t.records)) && Readable(after.schema.cols, after.records)
    ensures (out, ModelOf(after)) == Respond(after.schema.cols, old(ModelOf(t)), op)
    ensures Stopped(out) <==> after.curHeapPage == SCHEMA_PAGE_ID
  {
    hide BufferPool.Shape, BufferPool.View, BufferPool.Contents, BufferPool.Kept, Holds, RoomOn, Readable, Listing,
      Fold, Victims, Survivors, AfterInsert;
    InUseReadable(t);
    match op
    case ReopenOp(capacity) =>
      after := Persistence.CloseAndReopen(t, capacity);
      out := Reopened;
    case _ =>
      out := PerformHere(t, op);
      after := t;
  }

  /** The first `|outs|` operations have these outcomes, and lead from model to model. */
  ghost predicate Explained<A>(cols: seq<Column>, ops: seq<Operation<A>>, outs: seq<Outcome<A>>, models: seq<Model>) {
    && |outs| <= |ops| && |models| == |outs| + 1
    && forall i | 0 <= i < |outs| :: (outs[i], models[i + 1]) == Respond(cols, models[i], ops[i])
  }

  /** The run goes on to its end, or to the first insertion that finds no heap page left. */
  ghost predicate Complete<A>(ops: seq<Operation<A>>, outs: seq<Outcome<A>>) {
    && |outs| <= |ops| && (forall i | 0 <= i < |outs| - 1 :: !Stopped(outs[i]))
    && (|outs| < |ops| ==> outs != [] && Stopped(outs[|outs| - 1]))
  }

  /** The same operations, but for the capacities of the pools tables are reopened with. */
  ghost predicate Alike<A>(a: seq<Operation<A>>, b: seq<Operation<A>>) {
    |a| == |b| && forall i | 0 <= i < |a| :: a[i] == b[i] || (a[i].ReopenOp? && b[i].ReopenOp?)
  }

  /** A run is determined by its operations and the model it starts from. */
  lemma RunDetermined<A>(cols: seq<Column>, a: seq<Operation<A>>, b: seq<Operation<A>>,
                         outs: seq<Outcome<A>>, outs': seq<Outcome<A>>, models: seq<Model>, models': seq<Model>)
    requires Explained(cols, a, outs, models) && Explained(cols, b, outs', models') && Alike(a, b)
    requires Complete(a, outs) && Complete(b, outs') && models[0] == models'[0]
    ensures outs == outs' && models == models'
  {
    hide AfterInsert, Stopped;
    var n := if |outs| <= |outs'| then |outs| else |outs'|;
    for i := 0 to n
      invariant models[i] == models'[i] && outs[..i] == outs'[..i] && models[..i] == models'[..i]
    {
      assert (outs[i], models[i + 1]) == Respond(cols, models[i], a[i]);
      assert (outs'[i], models'[i + 1]) == Respond(cols, models'[i], b[i]);
      assert outs[..i + 1] == outs[..i] + [outs[i]] && models[..i + 1] == models[..i] + [models[i]];
      assert outs'[..i + 1] == outs'[..i] + [outs'[i]] && models'[..i + 1] == models'[..i] + [models'[i]];
    }
    SameLength(a, b, outs, outs', n);
    assert outs == outs[..n] && outs' == outs'[..n];
    assert models == models[..n] + [models[n]] && models' == models'[..n] + [models'[n]];
  }

  lemma SameLength<A>(a: seq<Operation<A>>, b: seq<Operation<A>>, outs: seq<Outcome<A>>, outs': seq<Outcome<A>>, n: nat)
    requires |a| == |b| && Complete(a, outs) && Complete(b, outs')
    requires n == (if |outs| <= |outs'| then |outs| else |outs'|) && outs[..n] == outs'[..n]
    ensures |outs| == |outs'|
  {
    hide Stopped;
    if n > 0 {
      assert outs[n - 1] == outs[..n][n - 1] == outs'[n - 1];
    }
  }

  // ---------------------------------------------------------------- what runs keep

  /** Every row to insert has a value for each column. */
  predicate FeedsFullRows<A>(cols: seq<Column>, ops: seq<Operation<A>>) {
    forall i | 0 <= i < |ops| && ops[i].InsertOp? :: |cols| <= |ops[i].row|
  }

  /** Every row to insert keeps to the declared widths. */
  predicate FeedsNarrowRows<A>(cols: seq<Column>, ops: seq<Operation<A>>) {
    forall i | 0 <= i < |ops| && ops[i].InsertOp? :: WithinWidths(cols, ops[i].row)
  }

  /** Every row inserted carries the next rowid in column 0. */
  predicate FeedsNumberedRows<A>(ops: seq<Operation<A>>, models: seq<Model>) {
    forall i | 0 <= i < |ops| && i < |models| && ops[i].InsertOp? ::
      ops[i].row != [] && models[i].next < TWO_32 ==> ops[i].row[0].intVal == ToSigned(models[i].next)
  }

  ghost predicate AllWithinWidths(cols: seq<Column>, rows: map<nat, Row>) {
    forall k | k in rows :: WithinWidths(cols, rows[k])
  }

  /** What one operation can do to the rows: remove those satisfying some `pred`, or add `row` under the next rowid. */
  lemma RowsAfter<A>(cols: seq<Column>, m: Model, op: Operation<A>, out: Outcome<A>, m': Model)
      returns (pred: (nat, Row) -> bool, row: Row)
    requires (out, m') == Respond(cols, m, op)
    ensures m.next <= m'.next && (op.InsertOp? ==> row == op.row)
    ensures m'.rows == m.rows || m'.rows == Survivors(m.rows, pred)
            || (op.InsertOp? && m.next < m'.next && m'.rows == m.rows[m.next := Coerce(cols, row)])
  {
    hide Coerce, EncodeRow, Taken, Listing, Fold, Stays;
    pred, row := (_, _) => false, [];
    match op
    case InsertOp(fed) => row := fed;
    case DeleteOp(k) => pred := (j, _) => j == k;
    case DeleteWhereOp(p) => pred := p;
    case _ =>
  }

  /** A table fed with rows of full width has only such rows. */
  lemma RunKeepsFullWidth<A>(cols: seq<Column>, ops: seq<Operation<A>>, outs: seq<Outcome<A>>, models: seq<Model>)
    requires Explained(cols, ops, outs, models) && FeedsFullRows(cols, ops)
    requires Join.AllFullWidth(cols, models[0].rows)
    ensures Join.AllFullWidth(cols, models[|outs|].rows)
  {
    hide Respond, Join.AllFullWidth, Survivors, Coerce;
    for i := 0 to |outs|
      invariant Join.AllFullWidth(cols, models[i].rows)
    {
      var m := models[i];
      var pred, row := RowsAfter(cols, m, ops[i], outs[i], models[i + 1]);
      Join.FullWidthKept(m.rows, pred, cols, m.next, row);
    }
  }

  /** A table in which every row inserted carries its rowid in column 0 has only rows numbered by their rowids. */
  lemma RunKeepsNumbering<A>(cols: seq<Column>, ops: seq<Operation<A>>, outs: seq<Outcome<A>>, models: seq<Model>)
    requires Explained(cols, ops, outs, models) && FeedsNumberedRows(ops, models) && cols != [] && cols[0].ty == INT
    requires Query.NumberedByRowid(models[0].rows) && 0 < models[0].next && models[|outs|].next <= TWO_32
    requires forall i | 0 <= i < |outs| && ops[i].InsertOp? :: ops[i].row != []
    ensures Query.NumberedByRowid(models[|outs|].rows)
  {
    hide Respond, Query.NumberedByRowid, Survivors, Coerce;
    for i := 0 to |outs|
      invariant 0 < models[i].next
      invariant models[i].next <= TWO_32 ==> Query.NumberedByRowid(models[i].rows)
    {
      var m := models[i];
      var pred, row := RowsAfter(cols, m, ops[i], outs[i], models[i + 1]);
      if models[i + 1].next <= TWO_32 {
        Query.NumberingKept(m.rows, pred, cols, m.next, row);
      }
    }
  }

  /** Whether a row newly inserted keeps to the widths is up to the caller alone. */
  lemma WidthsKept(cols: seq<Column>, rows: map<nat, Row>, pred: (nat, Row) -> bool, next: nat, row: Row)
    requires AllWithinWidths(cols, rows)
    ensures AllWithinWidths(cols, Survivors(rows, pred))
    ensures AllWithinWidths(cols, rows[next := Coerce(cols, row)]) <==> WithinWidths(cols, row)
  {
    CoercedWidths(cols, row);
    hide WithinWidths, Coerce;
    var after := rows[next := Coerce(cols, row)];
    assert next in after && after[next] == Coerce(cols, row);
  }

  /** A table fed with rows that keep to the widths has only such rows. */
  lemma RunKeepsWidths<A>(cols: seq<Column>, ops: seq<Operation<A>>, outs: seq<Outcome<A>>, models: seq<Model>)
    requires Explained(cols, ops, outs, models) && FeedsNarrowRows(cols, ops) && AllWithinWidths(cols, models[0].rows)
    ensures AllWithinWidths(cols, models[|outs|].rows)
  {
    hide Respond, AllWithinWidths, WithinWidths, Survivors, Coerce;
    for i := 0 to |outs|
      invariant AllWithinWidths(cols, models[i].rows)
    {
      var m := models[i];
      var pred, row := RowsAfter(cols, m, ops[i], outs[i], models[i + 1]);
      WidthsKept(cols, m.rows, pred, m.next, row);
    }
  }

  lemma RunKeeps<A>(cols: seq<Column>, ops: seq<Operation<A>>, outs: seq<Outcome<A>>, models: seq<Model>)
    requires Explained(cols, ops, outs, models) && cols != []
    requires forall i | 0 <= i < |ops| :: Admissible(cols, ops[i])
    requires 0 < models[0].next && models[|outs|].next <= TWO_32
    ensures FeedsFullRows(cols, ops) && Join.AllFullWidth(cols, models[0].rows) ==>
              Join.AllFullWidth(cols, models[|outs|].rows)
    ensures FeedsNarrowRows(cols, ops) && AllWithinWidths(cols, models[0].rows) ==>
              AllWithinWidths(cols, models[|outs|].rows)
    ensures cols[0].ty == INT && FeedsNumberedRows(ops, models) && Query.NumberedByRowid(models[0].rows) ==>
              Query.NumberedByRowid(models[|outs|].rows)
  {
    assert forall i | 0 <= i < |ops| && ops[i].InsertOp? :: Admissible(cols, ops[i]) && ops[i].row != [];
    hide Respond, AllWithinWidths, FeedsFullRows, FeedsNarrowRows, FeedsNumberedRows, Join.AllFullWidth,
      Query.NumberedByRowid;
    if FeedsFullRows(cols, ops) && Join.AllFullWidth(cols, models[0].rows) {
      RunKeepsFullWidth(cols, ops, outs, models);
    }
    if FeedsNarrowRows(cols, ops) && AllWithinWidths(cols, models[0].rows) {
      RunKeepsWidths(cols, ops, outs, models);
    }
    if cols[0].ty == INT && FeedsNumberedRows(ops, models) && Query.NumberedByRowid(models[0].rows) {
      RunKeepsNumbering(cols, ops, outs, models);
    }
  }

  /** After a deletion by predicate, and until something is inserted, the same deletion finds nothing. */
  lemma DeletedForGood<A>(cols: seq<Column>, ops: seq<Operation<A>>, outs: seq<Outcome<A>>, models: seq<Model>,
                          i: nat, j: nat)
    requires Explained(cols, ops, outs, models) && i < j < |outs|
    requires ops[i].DeleteWhereOp? && ops[j].DeleteWhereOp? && ops[i].pred == ops[j].pred
    requires forall k | i < k < j :: !ops[k].InsertOp?
    ensures outs[j] == DeletedRows(0) && models[j + 1] == models[j]
  {
    var pred := ops[i].pred;
    NoneLeft(models[i].rows, pred);
    assert (outs[i], models[i + 1]) == Respond(cols, models[i], ops[i]);
    hide Respond;
    for k := i + 1 to j
      invariant Victims(models[k].rows, pred) == {}
    {
      var p, row := RowsAfter(cols, models[k], ops[k], outs[k], models[k + 1]);
      NoneLeftBelow(models[k].rows, p, pred);
    }
    assert Respond(cols, models[j], ops[j]) == (outs[j], models[j + 1]);
    DeletedNothing(cols, models[j], ops[j]);
  }

  lemma NoneLeftBelow(rows: map<nat, Row>, p: (nat, Row) -> bool, pred: (nat, Row) -> bool)
    requires Victims(rows, pred) == {}
    ensures Victims(Survivors(rows, p), pred) == {}
  {
    assert forall k | k in rows :: k !in Victims(rows, pred);
  }

  lemma DeletedNothing<A>(cols: seq<Column>, m: Model, op: Operation<A>)
    requires op.DeleteWhereOp? && Victims(m.rows, op.pred) == {}
    ensures Respond(cols, m, op) == (DeletedRows(0), m)
  {
    assert forall k | k in m.rows :: k !in Victims(m.rows, op.pred);
    assert Survivors(m.rows, op.pred) == m.rows;
    assert m.here - {} == m.here;
  }

  /** The model of a new table. */
  const NEW_MODEL: Model := Model(map[], 1, HEAP_PAGE_BASE, NEW_PAGE, {})

  /** Every row to insert takes a heap page of its own. */
  ghost predicate FeedsPageRows<A>(cols: seq<Column>, ops: seq<Operation<A>>) {
    forall i | 0 <= i < |ops| :: ops[i].InsertOp? && 4085 <= |EncodeRow(cols, ops[i].row)| <= 4088
  }

  /** The heap pages do run out: 510 such rows fill them, and the next one finds none left, with 511 rowids reached. */
  lemma PagesRunOut<A>(cols: seq<Column>, ops: seq<Operation<A>>, outs: seq<Outcome<A>>, models: seq<Model>)
    requires Explained(cols, ops, outs, models) && Complete(ops, outs) && models[0] == NEW_MODEL
    requires FeedsPageRows(cols, ops) && |ops| >= 511
    ensures |outs| == 511 && Stopped(outs[510])
    ensures models[511].cur == SCHEMA_PAGE_ID && models[511].next == 511 && |models[511].rows| == 510
  {
    hide Coerce, EncodeRow;
    for i := 0 to 510
      invariant i < |outs| && forall j | 0 <= j < i :: !Stopped(outs[j])
      invariant PageFilled(models[i], i)
    {
      PageTaken(cols, models[i], ops[i].row, i);
      assert (outs[i], models[i + 1]) == Respond(cols, models[i], ops[i]);
    }
    PageTaken(cols, models[510], ops[510].row, 510);
    assert (outs[510], models[511]) == Respond(cols, models[510], ops[510]);
  }

  /** The model after `n` such rows. */
  ghost predicate PageFilled(m: Model, n: nat) {
    && m.next == 1 + n && m.cur == HEAP_PAGE_BASE + n && |m.rows| == n && (forall k | k in m.rows :: k < m.next)
    && !Stays(m.room.free, 4085)
  }

  lemma PageTaken(cols: seq<Column>, m: Model, row: Row, n: nat)
    requires PageFilled(m, n) && n <= 510 && 4085 <= |EncodeRow(cols, row)| <= 4088
    ensures var (r, m') := AfterInsert(cols, m, row);
            if n < 510 then r.Inserted? && PageFilled(m', n + 1)
            else r.OutOfHeapPages? && m'.cur == SCHEMA_PAGE_ID && m'.next == 511 && m'.rows == m.rows
  {
    hide Coerce, EncodeRow;
  }

  /** How many rows of `len` bytes a new heap page takes at least before it is left for the next one. */
  function PageCapacity(len: nat): nat
    requires len <= 4084
  {
    (4092 - (len + 8)) / (len + 4) + 1
  }

  /** Every row to insert takes at most `len` bytes. */
  ghost predicate FeedsShortRows<A>(cols: seq<Column>, ops: seq<Operation<A>>, len: nat) {
    forall i | 0 <= i < |ops| && ops[i].InsertOp? :: |EncodeRow(cols, ops[i].row)| <= len
  }

  /** All pages left have taken their number of rows, and `used` rows at most have been put on the current one. */
  ghost predicate PagesUsed(m: Model, len: nat, used: nat)
    requires len <= 4084
  {
    && HEAP_PAGE_BASE <= m.cur < SCHEMA_PAGE_ID && m.next - 1 >= (m.cur - HEAP_PAGE_BASE) * PageCapacity(len) + used
    && m.room.free >= 4092 - used * (len + 4)
  }

  /**
   * A new table fed with rows of at most `len` bytes, whatever else happens to it, takes as many rows as the 511 heap
   * pages have room for before an insertion finds them exhausted, and no insertion fails otherwise.
   */
  lemma RunsFill<A>(cols: seq<Column>, ops: seq<Operation<A>>, outs: seq<Outcome<A>>, models: seq<Model>, len: nat)
    requires Explained(cols, ops, outs, models) && Complete(ops, outs) && models[0] == NEW_MODEL
    requires len <= 4084 && FeedsShortRows(cols, ops, len)
    ensures forall i | 0 <= i < |outs| && ops[i].InsertOp? && !Stopped(outs[i]) ::
              outs[i] == InsertedRow(Inserted(models[i].next))
    ensures |outs| < |ops| ==> models[|outs|].next - 1 >= 511 * PageCapacity(len)
  {
    hide Respond, Stopped, PagesUsed;
    var used := 0;
    NoneUsed(len);
    var i := 0;
    while i < |outs| && !Stopped(outs[i])
      invariant i <= |outs| && PagesUsed(models[i], len, used) && forall j | 0 <= j < i :: !Stopped(outs[j])
      invariant forall j | 0 <= j < i && ops[j].InsertOp? :: outs[j] == InsertedRow(Inserted(models[j].next))
    {
      used := PageUse(cols, models[i], ops[i], outs[i], models[i + 1], len, used);
      i := i + 1;
    }
    if i < |outs| {
      assert i == |outs| - 1;
      LastPageUse(cols, models[i], ops[i], outs[i], models[i + 1], len, used);
    }
  }

  lemma NoneUsed(len: nat)
    requires len <= 4084
    ensures PagesUsed(NEW_MODEL, len, 0)
  {
  }

  /** A page with too little room for `len` bytes has taken its number of rows. */
  lemma PageFull(free: int, len: nat, used: nat, short: nat)
    requires len <= 4084 && free >= 4092 - used * (len + 4) && short <= len && !Stays(free, short)
    ensures used >= PageCapacity(len)
  {
    var a, b := 4092 - (len + 8), len + 4;
    assert used * b > a;
    var q := a / b;
    assert a == b * q + a % b;
    assert used <= q ==> used * b <= q * b;
  }

  lemma PageUse<A>(cols: seq<Column>, m: Model, op: Operation<A>, out: Outcome<A>, m': Model, len: nat, used: nat)
    returns (used': nat)
    requires len <= 4084 && PagesUsed(m, len, used) && (out, m') == Respond(cols, m, op) && !Stopped(out)
    requires op.InsertOp? ==> |EncodeRow(cols, op.row)| <= len
    ensures PagesUsed(m', len, used')
    ensures op.InsertOp? ==> out == InsertedRow(Inserted(m.next))
  {
    hide EncodeRow, Coerce, Listing, Fold;
    used' := used;
    match op
    case InsertOp(row) =>
      var short := |EncodeRow(cols, row)|;
      if Stays(m.room.free, short) {
        used' := used + 1;
        assert (used + 1) * (len + 4) == used * (len + 4) + (len + 4);
      } else {
        PageFull(m.room.free, len, used, short);
        used' := 1;
        var n, c := m.cur - HEAP_PAGE_BASE, PageCapacity(len);
        assert (n + 1) * c == n * c + c;
      }
    case _ =>
  }

  lemma LastPageUse<A>(cols: seq<Column>, m: Model, op: Operation<A>, out: Outcome<A>, m': Model, len: nat, used: nat)
    requires len <= 4084 && PagesUsed(m, len, used) && (out, m') == Respond(cols, m, op) && Stopped(out)
    requires op.InsertOp? ==> |EncodeRow(cols, op.row)| <= len
    ensures m'.next - 1 >= 511 * PageCapacity(len)
  {
    hide EncodeRow, Coerce, Listing, Fold;
    PageFull(m.room.free, len, used, |EncodeRow(cols, op.row)|);
    var n, c := m.cur - HEAP_PAGE_BASE, PageCapacity(len);
    assert (n + 1) * c == n * c + c;
  }

  // ---------------------------------------------------------------- runs on the table itself

  /** Performs the operations one after the other, up to one that finds the heap pages exhausted. */
  method PerformAll<A>(t: Table, ops: seq<Operation<A>>)
      returns (outs: seq<Outcome<A>>, last: Table, ghost models: seq<Model>)
    requires InUse(t) && t.curHeapPage < SCHEMA_PAGE_ID
    requires forall i | 0 <= i < |ops| :: Admissible(t.schema.cols, ops[i])
    modifies Footprint(t)
    ensures InUse(last) && fresh(Footprint(last) - old(Footprint(t))) && last.schema == old(t.schema)
    ensures Readable(last.schema.cols, old(t.records)) && Readable(last.schema.cols, last.records)
    ensures Explained(last.schema.cols, ops, outs, models) && Complete(ops, outs)
    ensures models[0] == old(ModelOf(t)) && models[|outs|] == ModelOf(last)
  {
    hide BufferPool.Shape, BufferPool.View, BufferPool.Contents, BufferPool.Kept, Holds, Respond, Admissible, RowsOf,
      Table.Valid, RoomOn, Readable, Stopped, Explained, StopsAt;
    InUseReadable(t);
    last := t;
    outs, models := [], [ModelOf(t)];
    NoneYet(t.schema.cols, ops, outs, models, t.curHeapPage);
    while |outs| < |ops| && last.curHeapPage < SCHEMA_PAGE_ID
      invariant InUse(last) && fresh(Footprint(last) - old(Footprint(t))) && last.schema == old(t.schema)
                && Readable(last.schema.cols, last.records)
      invariant |outs| <= |ops| && |models| == |outs| + 1
      invariant models[0] == old(ModelOf(t)) && models[|outs|] == ModelOf(last)
      invariant Explained(last.schema.cols, ops, outs, models) && StopsAt(outs, last.curHeapPage)
      decreases |ops| - |outs|
    {
      var out;
      out, last := Perform(last, ops[|outs|]);
      OneMore(last.schema.cols, ops, outs, models, out, ModelOf(last));
      models := models + [ModelOf(last)];
      outs := outs + [out];
      InUseReadable(last);
    }
    InUseReadable(last);
    RunEnds(ops, outs, last.curHeapPage);
  }

  /** Only the last of these outcomes stops the run, and does so when it leaves no heap page. */
  ghost predicate StopsAt<A>(outs: seq<Outcome<A>>, cur: nat) {
    && (forall i | 0 <= i < |outs| - 1 :: !Stopped(outs[i]))
    && (cur == SCHEMA_PAGE_ID <==> outs != [] && Stopped(outs[|outs| - 1]))
  }

  lemma NoneYet<A>(cols: seq<Column>, ops: seq<Operation<A>>, outs: seq<Outcome<A>>, models: seq<Model>, cur: nat)
    requires outs == [] && |models| == 1 && cur < SCHEMA_PAGE_ID
    ensures Explained(cols, ops, outs, models) && StopsAt(outs, cur)
  {
  }

  lemma OneMore<A>(cols: seq<Column>, ops: seq<Operation<A>>, outs: seq<Outcome<A>>, models: seq<Model>,
                   out: Outcome<A>, m: Model)
    requires |outs| < |ops| && Explained(cols, ops, outs, models) && StopsAt(outs, models[|outs|].cur)
    requires models[|outs|].cur < SCHEMA_PAGE_ID && (out, m) == Respond(cols, models[|outs|], ops[|outs|])
    requires Stopped(out) <==> m.cur == SCHEMA_PAGE_ID
    ensures Explained(cols, ops, outs + [out], models + [m]) && StopsAt(outs + [out], m.cur)
  {
    hide Respond, Stopped;
  }

  lemma RunEnds<A>(ops: seq<Operation<A>>, outs: seq<Outcome<A>>, cur: nat)
    requires StopsAt(outs, cur) && |outs| <= |ops| && (|outs| == |ops| || cur == SCHEMA_PAGE_ID)
    ensures Complete(ops, outs)
  {
  }

  /**
   * Along every run of operations, up to one that finds the heap pages exhausted, the tables, one after each
   * reopening, give the answers of the map and end up holding its rows; rowids never get near their 32 bits.
   */
  method Replay<A>(t: Table, ops: seq<Operation<A>>)
      returns (outs: seq<Outcome<A>>, last: Table, ghost models: seq<Model>)
    requires InUse(t) && t.curHeapPage < SCHEMA_PAGE_ID
    requires forall i | 0 <= i < |ops| :: Admissible(t.schema.cols, ops[i])
    modifies Footprint(t)
    ensures InUse(last) && last.schema == old(t.schema)
    ensures Readable(last.schema.cols, old(t.records)) && Readable(last.schema.cols, last.records)
    ensures Explained(last.schema.cols, ops, outs, models) && Complete(ops, outs)
    ensures models[0] == old(ModelOf(t)) && models[|outs|] == ModelOf(last)
    ensures last.nextRowid - 1 <= 511 * 2046
    ensures FeedsFullRows(last.schema.cols, ops) && Join.AllFullWidth(last.schema.cols, models[0].rows) ==>
              Join.AllFullWidth(last.schema.cols, last.Rows())
    ensures FeedsNarrowRows(last.schema.cols, ops) && AllWithinWidths(last.schema.cols, models[0].rows) ==>
              AllWithinWidths(last.schema.cols, last.Rows())
    ensures last.schema.cols[0].ty == INT && FeedsNumberedRows(ops, models) && Query.NumberedByRowid(models[0].rows) ==>
              Query.NumberedByRowid(last.Rows())
  {
    hide FeedsFullRows, FeedsNarrowRows, FeedsNumberedRows, Join.AllFullWidth, AllWithinWidths, Query.NumberedByRowid,
      BufferPool.Shape, BufferPool.View, BufferPool.Contents, BufferPool.Kept, Holds, Respond, Admissible, RowsOf,
      Table.Valid, RoomOn, Readable, Complete;
    InUseReadable(t);
    outs, last, models := PerformAll(t, ops);
    InUseReadable(last);
    RunKeeps(last.schema.cols, ops, outs, models);
  }

  lemma CurrentOf(t: Table)
    requires Readable(t.schema.cols, t.records)
    ensures ModelOf(t).cur == t.curHeapPage
  {
  }

  /** Two tables of equal models cannot be told apart, whatever the capacities of the pools they are opened with. */
  method ReplayTwice<A>(t: Table, u: Table, a: seq<Operation<A>>, b: seq<Operation<A>>)
      returns (outs: seq<Outcome<A>>, outs': seq<Outcome<A>>, last: Table, last': Table)
    requires InUse(t) && InUse(u) && Footprint(t) !! Footprint(u)
    requires t.schema.cols == u.schema.cols && t.curHeapPage < SCHEMA_PAGE_ID && Alike(a, b)
    requires Readable(t.schema.cols, t.records) && Readable(u.schema.cols, u.records) && ModelOf(t) == ModelOf(u)
    requires forall i | 0 <= i < |a| :: Admissible(t.schema.cols, a[i])
    requires forall i | 0 <= i < |b| :: Admissible(u.schema.cols, b[i])
    modifies Footprint(t), Footprint(u)
    ensures outs == outs' && InUse(last) && InUse(last')
    ensures Readable(last.schema.cols, last.records) && Readable(last'.schema.cols, last'.records)
    ensures ModelOf(last) == ModelOf(last')
  {
    hide BufferPool.Shape, BufferPool.View, BufferPool.Contents, BufferPool.Kept, Holds, Respond, Admissible, RowsOf,
      Table.Valid, RoomOn, Readable, Alike, Complete, Explained, ModelOf, InUse;
    CurrentOf(t);
    CurrentOf(u);
    ghost var models, models', cols := [], [], t.schema.cols;
    outs, last, models := PerformAll(t, a);
    outs', last', models' := PerformAll(u, b);
    RunDetermined(cols, a, b, outs, outs', models, models');
  }

  lemma NewModel(t: Table)
    requires InUse(t) && t.Content() == EmptyTable(t.schema.cols) && t.Room() == NEW_PAGE
    ensures Readable(t.schema.cols, t.records) && ModelOf(t) == NEW_MODEL
  {
    hide Holds, AsMap;
  }

  /** On a new table: after 511 such rows the meta page is next to be laid out as a heap page. */
  method FillUp(t: Table, row: Row) returns (last: Table)
    requires InUse(t) && t.Content() == EmptyTable(t.schema.cols) && t.Room() == NEW_PAGE
    requires row != [] && 4085 <= |EncodeRow(t.schema.cols, row)| <= 4088
    modifies Footprint(t)
    ensures InUse(last) && last.curHeapPage == SCHEMA_PAGE_ID && last.nextRowid == 511
    ensures |last.MetaBytes()| == PAGE_SIZE && SlottedPage.FreeOffset(last.MetaBytes()) == 0
  {
    hide BufferPool.Shape, BufferPool.View, BufferPool.Contents, BufferPool.Kept, Holds, Respond, RowsOf, RoomOn,
      Readable, Complete, Explained, EncodeRow, EmptyTable;
    NewModel(t);
    var ops: seq<Operation<int>> := seq(511, _ => InsertOp(row));
    var outs;
    ghost var models;
    outs, last, models := Replay(t, ops);
    PagesRunOut(last.schema.cols, ops, outs, models);
    last.MetaTakenForHeap();
  }
}
