/**
 * The heap side of a table as values: row pointers, which record each live rowid points at, and what
 * inserting and deleting a record does to that.
 */
module HeapFile {
  import opened Bytes
  import opened Schema
  import opened Index
  import opened SlottedPage
  import opened Storage

  const SCHEMA_PAGE_ID: int := 1023
  const HEAP_PAGE_BASE: int := 512

  /** `((page - base) << 12) | (slot & 0xFFF)`, for pages from the base on. */
  function PackPtr(page: nat, slot: nat): (ptr: nat)
    requires HEAP_PAGE_BASE <= page
  {
    (page - HEAP_PAGE_BASE) * 0x1000 + slot % 0x1000
  }

  function PtrPage(ptr: nat): (p: nat)
    ensures p >= HEAP_PAGE_BASE
  {
    ptr / 0x1000 + HEAP_PAGE_BASE
  }

  function PtrSlot(ptr: nat): nat { ptr % 0x1000 }

  /** Slots fit their twelve bits, so pointers to heap pages unpack to what was packed and stay non-negative. */
  lemma PtrRoundTrip(page: nat, slot: nat)
    requires HEAP_PAGE_BASE <= page && slot < 0x1000
    ensures PtrPage(PackPtr(page, slot)) == page && PtrSlot(PackPtr(page, slot)) == slot
    ensures page < SCHEMA_PAGE_ID ==> PackPtr(page, slot) < 0x1F_F000
  {
  }

  /** No page has more slots than a pointer can name. */
  lemma SlotsFit(p: seq<byte>, slot: nat)
    requires WellLaid(p) && slot in Records(p)
    ensures slot < 1023 < 0x1000
  {
  }

  ghost predicate IsHeapPage(p: nat, cur: nat) {
    HEAP_PAGE_BASE <= p <= cur && p < SCHEMA_PAGE_ID
  }

  ghost function PageAt(v: PageMap, p: nat): seq<byte> {
    if p in v then v[p] else []
  }

  /** `ptr` leads to a live slot that holds exactly `bytes`. */
  ghost predicate PointsAt(v: PageMap, cur: nat, ptr: nat, bytes: seq<byte>) {
    && IsHeapPage(PtrPage(ptr), cur) && WellLaid(PageAt(v, PtrPage(ptr)))
    && PtrSlot(ptr) in Records(PageAt(v, PtrPage(ptr)))
    && Records(PageAt(v, PtrPage(ptr)))[PtrSlot(ptr)] == bytes
  }

  /** Heap pages up to the current one are laid out; those after it have never been used. */
  ghost predicate HeapPages(v: PageMap, cur: nat) {
    && HEAP_PAGE_BASE <= cur <= SCHEMA_PAGE_ID
    && (forall p | IsHeapPage(p, cur) :: WellLaid(PageAt(v, p)))
    && (forall p: nat | cur < p < SCHEMA_PAGE_ID :: |PageAt(v, p)| == PAGE_SIZE && FreeOffset(PageAt(v, p)) == 0)
  }

  /**
   * Index `m` and heap agree on `records`: every rowid handed out is in the index, live ones point at
   * their own bytes and no two at the same slot, dead ones are tombstoned.
   */
  ghost predicate Agrees(v: PageMap, m: map<nat, nat>, records: map<nat, seq<byte>>, next: nat, cur: nat) {
    && 1 <= next
    && (forall k: nat :: k in m <==> 1 <= k < next)
    && (forall k | k in records :: k in m && PointsAt(v, cur, m[k], records[k]))
    && (forall k | k in m && k !in records :: m[k] == TOMBSTONE)
    && (forall j, k | j in records && k in records && j != k :: m[j] != m[k])
  }

  /** No heap space is lost: every live slot belongs to a live row. */
  ghost predicate AllOwned(v: PageMap, m: map<nat, nat>, records: map<nat, seq<byte>>, cur: nat) {
    forall p: nat, s: nat | IsHeapPage(p, cur) && WellLaid(PageAt(v, p))
      && s in Records(PageAt(v, p)) :: Owned(m, records, p, s)
  }

  ghost predicate Owned(m: map<nat, nat>, records: map<nat, seq<byte>>, p: nat, s: nat) {
    exists k :: k in records && k in m && PtrPage(m[k]) == p && PtrSlot(m[k]) == s
  }

  ghost predicate Readable(cols: seq<Column>, records: map<nat, seq<byte>>) {
    forall k | k in records :: DecodeRow(cols, records[k]).Some?
  }

  /** The rows the stored bytes stand for. */
  ghost function RowsOf(cols: seq<Column>, records: map<nat, seq<byte>>): (rows: map<nat, Row>)
    requires Readable(cols, records)
  {
    map k | k in records :: DecodeRow(cols, records[k]).value
  }

  /** The free bytes of a heap page and the entries of its slot directory, live and dead. */
  datatype Space = Space(free: int, slots: nat)

  const NEW_PAGE: Space := Space(4092, 0)
  const NO_SPACE: Space := Space(0, 0)

  function RoomOn(p: seq<byte>): Space {
    if Bounded(p) then Space(FreeOffset(p) - SlotPos(NumSlots(p)), NumSlots(p)) else NO_SPACE
  }

  /** What lies between slot directory and records, by the two numbers in the page's header. */
  function FreeBytes(p: seq<byte>): int {
    if |p| == PAGE_SIZE then U16At(p, 2) - (4 + 4 * U16At(p, 0)) else 0
  }

  lemma RoomIsFreeBytes(p: seq<byte>)
    requires WellLaid(p)
    ensures RoomOn(p).free == FreeBytes(p)
  {
  }

  /** A record takes its bytes, and a directory entry unless it can reuse one. */
  function Taken(room: Space, len: nat, reuse: bool): Space {
    if reuse then Space(room.free - len, room.slots) else Space(room.free - len - SLOT_SIZE, room.slots + 1)
  }

  lemma RoomAfterInsert(p: seq<byte>, bytes: seq<byte>)
    requires WellLaid(p) && |bytes| < TWO_16 && Fits(p, |bytes|)
    ensures var q := InsertPage(p, bytes).0; RoomOn(q) == Taken(RoomOn(p), |bytes|, Reusable(p))
  {
    InsertReads(p, bytes);
    DeletedFound(p, 0);
    hide WriteBytes, Put16, PutSlot, FirstDeleted, Reusable;
  }

  lemma RoomAfterDelete(p: seq<byte>, slot: nat)
    requires WellLaid(p)
    ensures RoomOn(DeletePage(p, slot)) == RoomOn(p)
  {
    hide DeletePage;
    DeleteRemovesRecord(p, slot);
  }

  /** Record space taken on the current page; a page that cannot be filled further counts for nothing. */
  ghost function Spent(v: PageMap, cur: nat): int {
    if cur < SCHEMA_PAGE_ID && Bounded(PageAt(v, cur)) then (PAGE_SIZE - FreeOffset(PageAt(v, cur))) / 2 else 0
  }

  /** At least two bytes, never given back, were spent on each of `rows` rows. */
  ghost predicate Accounted(v: PageMap, rows: nat, cur: nat) {
    HEAP_PAGE_BASE <= cur <= SCHEMA_PAGE_ID && rows <= 2046 * (cur - HEAP_PAGE_BASE) + Spent(v, cur)
  }

  /** Which bounds the rows by what the heap pages can hold, however many were deleted in between. */
  lemma AccountedBound(v: PageMap, rows: nat, cur: nat)
    requires Accounted(v, rows, cur)
    ensures rows <= 511 * 2046
  {
  }

  /** A heap page is full at 2046 rows, so moving on leaves nothing out of account. */
  lemma MovedOnAccounted(v: PageMap, w: PageMap, rows: nat, cur: nat)
    requires Accounted(v, rows, cur) && cur < SCHEMA_PAGE_ID
    ensures Accounted(w, rows, cur + 1)
  {
  }

  lemma PointsElsewhere(v: PageMap, w: PageMap, cur: nat, cur': nat, ptr: nat, bytes: seq<byte>)
    requires PointsAt(v, cur, ptr, bytes) && PageAt(w, PtrPage(ptr)) == PageAt(v, PtrPage(ptr)) && cur <= cur'
    ensures PointsAt(w, cur', ptr, bytes)
  {
  }

  /** Changes outside the heap pages are not noticed. */
  lemma HeapUntouched(v: PageMap, w: PageMap, m: map<nat, nat>, records: map<nat, seq<byte>>, next: nat, cur: nat)
    requires HeapPages(v, cur) && Agrees(v, m, records, next, cur)
    requires forall p: nat | HEAP_PAGE_BASE <= p < SCHEMA_PAGE_ID :: PageAt(w, p) == PageAt(v, p)
    ensures HeapPages(w, cur) && Agrees(w, m, records, next, cur)
  {
    forall k | k in records
      ensures PointsAt(w, cur, m[k], records[k])
    {
      PointsElsewhere(v, w, cur, cur, m[k], records[k]);
    }
  }

  /** A record placed on the current heap page, and the new rowid entered in the index. */
  lemma RecordPlaced(v: PageMap, w: PageMap, m: map<nat, nat>, records: map<nat, seq<byte>>, next: nat, cur: nat,
                     bytes: seq<byte>)
    requires HeapPages(v, cur) && IsHeapPage(cur, cur) && Agrees(v, m, records, next, cur)
    requires |bytes| < TWO_16 && Fits(PageAt(v, cur), |bytes|)
    requires var (q, slot) := InsertPage(PageAt(v, cur), bytes); PageAt(w, cur) == q
    requires forall p: nat | HEAP_PAGE_BASE <= p < SCHEMA_PAGE_ID && p != cur :: PageAt(w, p) == PageAt(v, p)
    ensures var (q, slot) := InsertPage(PageAt(v, cur), bytes);
            var ptr := PackPtr(cur, slot);
            && slot < 0x1000 && ptr < 0x1F_F000
            && HeapPages(w, cur) && Agrees(w, m[next := ptr], records[next := bytes], next + 1, cur)
  {
    hide InsertPage, Fits, Records, Agrees, HeapPages, PageAt;
    assert WellLaid(PageAt(v, cur)) by { PageLaid(v, cur); }
    var (q, slot) := InsertPage(PageAt(v, cur), bytes);
    InsertAddsRecord(PageAt(v, cur), bytes);
    SlotsFit(q, slot);
    PtrRoundTrip(cur, slot);
    PointersPlaced(v, w, m, records, next, cur, slot, bytes);
  }

  lemma PageLaid(v: PageMap, cur: nat)
    requires HeapPages(v, cur) && IsHeapPage(cur, cur)
    ensures WellLaid(PageAt(v, cur))
  {
  }

  lemma PointersPlaced(v: PageMap, w: PageMap, m: map<nat, nat>, records: map<nat, seq<byte>>, next: nat, cur: nat,
                       slot: nat, bytes: seq<byte>)
    requires HeapPages(v, cur) && IsHeapPage(cur, cur) && Agrees(v, m, records, next, cur) && slot < 0x1000
    requires WellLaid(PageAt(v, cur)) && WellLaid(PageAt(w, cur)) && slot !in Records(PageAt(v, cur))
    requires Records(PageAt(w, cur)) == Records(PageAt(v, cur))[slot := bytes]
    requires forall p: nat | HEAP_PAGE_BASE <= p < SCHEMA_PAGE_ID && p != cur :: PageAt(w, p) == PageAt(v, p)
    ensures HeapPages(w, cur) && Agrees(w, m[next := PackPtr(cur, slot)], records[next := bytes], next + 1, cur)
  {
    hide Records, WellLaid, PageAt;
    PtrRoundTrip(cur, slot);
    forall k | k in records
      ensures PointsAt(w, cur, m[k], records[k]) && m[k] != PackPtr(cur, slot)
    {
      if PtrPage(m[k]) != cur {
        PointsElsewhere(v, w, cur, cur, m[k], records[k]);
      }
    }
  }

  /** A live row deleted: its slot freed and its index entry buried. */
  lemma RecordDeleted(v: PageMap, w: PageMap, m: map<nat, nat>, records: map<nat, seq<byte>>, next: nat, cur: nat,
          k: nat)
    requires HeapPages(v, cur) && Agrees(v, m, records, next, cur) && k in records
    requires PageAt(w, PtrPage(m[k])) == DeletePage(PageAt(v, PtrPage(m[k])), PtrSlot(m[k]))
    requires forall p: nat | HEAP_PAGE_BASE <= p < SCHEMA_PAGE_ID && p != PtrPage(m[k]) :: PageAt(w, p) == PageAt(v, p)
    ensures HeapPages(w, cur) && Agrees(w, m[k := TOMBSTONE], records - {k}, next, cur)
  {
    hide DeletePage, WellLaid, Records;
    var page, slot := PtrPage(m[k]), PtrSlot(m[k]);
    DeleteRemovesRecord(PageAt(v, page), slot);
    forall j | j in records && j != k
      ensures PointsAt(w, cur, m[j], records[j])
    {
      if PtrPage(m[j]) != page {
        PointsElsewhere(v, w, cur, cur, m[j], records[j]);
      } else {
        SamePointer(m[j], m[k]);
      }
    }
  }

  lemma SamePointer(a: nat, b: nat)
    requires PtrPage(a) == PtrPage(b)
    ensures PtrSlot(a) == PtrSlot(b) <==> a == b
  {
  }

  /** Moving on to the next heap page, which has never been used and is laid out now. */
  lemma PageOpened(v: PageMap, w: PageMap, m: map<nat, nat>, records: map<nat, seq<byte>>, next: nat, cur: nat)
    requires HeapPages(v, cur) && Agrees(v, m, records, next, cur) && cur + 1 < SCHEMA_PAGE_ID
    requires PageAt(w, cur + 1) == EmptyPage()
    requires forall p: nat | HEAP_PAGE_BASE <= p < SCHEMA_PAGE_ID && p != cur + 1 :: PageAt(w, p) == PageAt(v, p)
    ensures HeapPages(w, cur + 1) && Agrees(w, m, records, next, cur + 1)
  {
    hide Records;
    EmptyIsWellLaid();
    hide EmptyPage, WellLaid;
    forall k | k in records
      ensures PointsAt(w, cur + 1, m[k], records[k])
    {
      PointsElsewhere(v, w, cur, cur + 1, m[k], records[k]);
    }
  }

  /** Running off the last heap page: the current page number moves on, nothing else does. */
  lemma PagesExhausted(v: PageMap, m: map<nat, nat>, records: map<nat, seq<byte>>, next: nat, cur: nat)
    requires HeapPages(v, cur) && Agrees(v, m, records, next, cur) && cur + 1 == SCHEMA_PAGE_ID
    ensures HeapPages(v, cur + 1) && Agrees(v, m, records, next, cur + 1)
  {
    hide Records, WellLaid;
    forall k | k in records
      ensures PointsAt(v, cur + 1, m[k], records[k])
    {
      PointsElsewhere(v, v, cur, cur + 1, m[k], records[k]);
    }
  }

  lemma UntouchedOwned(v: PageMap, w: PageMap, m: map<nat, nat>, records: map<nat, seq<byte>>, cur: nat)
    requires AllOwned(v, m, records, cur)
    requires forall p: nat | HEAP_PAGE_BASE <= p < SCHEMA_PAGE_ID :: PageAt(w, p) == PageAt(v, p)
    ensures AllOwned(w, m, records, cur)
  {
    hide Records, WellLaid, PageAt;
  }

  /** A record placed adds one live slot, which its new row owns. */
  lemma PlacedOwned(v: PageMap, w: PageMap, m: map<nat, nat>, records: map<nat, seq<byte>>, next: nat, cur: nat,
                    bytes: seq<byte>)
    requires HeapPages(v, cur) && IsHeapPage(cur, cur) && AllOwned(v, m, records, cur) && next !in records
    requires |bytes| < TWO_16 && Fits(PageAt(v, cur), |bytes|)
    requires var (q, slot) := InsertPage(PageAt(v, cur), bytes); PageAt(w, cur) == q && slot < 0x1000
    requires forall p: nat | HEAP_PAGE_BASE <= p < SCHEMA_PAGE_ID && p != cur :: PageAt(w, p) == PageAt(v, p)
    ensures var (q, slot) := InsertPage(PageAt(v, cur), bytes);
            AllOwned(w, m[next := PackPtr(cur, slot)], records[next := bytes], cur)
  {
    hide InsertPage, Fits, Records;
    var (q, slot) := InsertPage(PageAt(v, cur), bytes);
    hide WellLaid, PageAt;
    var m', records' := m[next := PackPtr(cur, slot)], records[next := bytes];
    InsertAddsRecord(PageAt(v, cur), bytes);
    PtrRoundTrip(cur, slot);
    forall p: nat, s: nat | IsHeapPage(p, cur) && WellLaid(PageAt(w, p)) && s in Records(PageAt(w, p))
      ensures Owned(m', records', p, s)
    {
      if p == cur && s == slot {
        assert next in records' && PtrPage(m'[next]) == p;
      } else {
        assert Owned(m, records, p, s);
        OwnedLater(m, m', records, records', p, s, next);
      }
    }
  }

  lemma OwnedLater(m: map<nat, nat>, m': map<nat, nat>, records: map<nat, seq<byte>>, records': map<nat, seq<byte>>,
                   p: nat, s: nat, except: nat)
    requires Owned(m, records, p, s)
    requires forall k | k in records && k in m && PtrPage(m[k]) == p && PtrSlot(m[k]) == s :: k != except
    requires forall k | k in records && k in m && k != except :: k in records' && k in m' && m'[k] == m[k]
    ensures Owned(m', records', p, s)
  {
    var k :| k in records && k in m && PtrPage(m[k]) == p && PtrSlot(m[k]) == s;
    assert k in records' && k in m' && m'[k] == m[k];
  }

  /** A row deleted takes its slot with it. */
  lemma DeletedOwned(v: PageMap, w: PageMap, m: map<nat, nat>, records: map<nat, seq<byte>>, cur: nat, k: nat)
    requires HeapPages(v, cur) && AllOwned(v, m, records, cur)
    requires k in records && k in m && IsHeapPage(PtrPage(m[k]), cur)
    requires PageAt(w, PtrPage(m[k])) == DeletePage(PageAt(v, PtrPage(m[k])), PtrSlot(m[k]))
    requires forall p: nat | HEAP_PAGE_BASE <= p < SCHEMA_PAGE_ID && p != PtrPage(m[k]) :: PageAt(w, p) == PageAt(v, p)
    ensures AllOwned(w, m[k := TOMBSTONE], records - {k}, cur)
  {
    hide DeletePage, Records, WellLaid, PageAt;
    var page, slot := PtrPage(m[k]), PtrSlot(m[k]);
    DeleteRemovesRecord(PageAt(v, page), slot);
    forall p: nat, s: nat | IsHeapPage(p, cur) && WellLaid(PageAt(w, p)) && s in Records(PageAt(w, p))
      ensures Owned(m[k := TOMBSTONE], records - {k}, p, s)
    {
      assert Owned(m, records, p, s);
      OwnedLater(m, m[k := TOMBSTONE], records, records - {k}, p, s, k);
    }
  }

  lemma OpenedOwned(v: PageMap, w: PageMap, m: map<nat, nat>, records: map<nat, seq<byte>>, cur: nat)
    requires AllOwned(v, m, records, cur) && HEAP_PAGE_BASE <= cur < SCHEMA_PAGE_ID
    requires cur + 1 < SCHEMA_PAGE_ID ==> PageAt(w, cur + 1) == EmptyPage()
    requires forall p: nat | HEAP_PAGE_BASE <= p < SCHEMA_PAGE_ID && p != cur + 1 :: PageAt(w, p) == PageAt(v, p)
    ensures AllOwned(w, m, records, cur + 1)
  {
    EmptyIsWellLaid();
    hide Records, WellLaid, PageAt, EmptyPage;
  }

  // ---------------------------------------------------------------- live rows and slots of one page

  /** The live rows whose records are on page `p`. */
  ghost function RowsOn(m: map<nat, nat>, records: map<nat, seq<byte>>, p: nat): set<nat> {
    set k | k in records && k in m && PtrPage(m[k]) == p
  }

  ghost function Below(n: nat): (s: set<nat>)
    ensures |s| == n && forall i: nat :: i in s <==> i < n
  {
    if n == 0 then {} else Below(n - 1) + {n - 1}
  }

  lemma {:induction false} PointedSlots(m: map<nat, nat>, ks: set<nat>)
    requires forall k | k in ks :: k in m
    requires forall j, k | j in ks && k in ks && j != k :: PtrSlot(m[j]) != PtrSlot(m[k])
    ensures |set k | k in ks :: PtrSlot(m[k])| == |ks|
  {
    if ks == {} {
    } else {
      var k :| k in ks;
      PointedSlots(m, ks - {k});
      assert (set j | j in ks :: PtrSlot(m[j])) == (set j | j in ks - {k} :: PtrSlot(m[j])) + {PtrSlot(m[k])};
    }
  }

  /** A page has a slot to reuse exactly when it has more slots than live rows. */
  lemma DeadSlots(v: PageMap, m: map<nat, nat>, records: map<nat, seq<byte>>, next: nat, cur: nat)
    requires HeapPages(v, cur) && IsHeapPage(cur, cur) && Agrees(v, m, records, next, cur)
    requires AllOwned(v, m, records, cur)
    ensures WellLaid(PageAt(v, cur))
    ensures Reusable(PageAt(v, cur)) <==> |RowsOn(m, records, cur)| < NumSlots(PageAt(v, cur))
  {
    hide WellLaid, Records, Agrees, AllOwned, RowsOn, NumSlots, PageAt, SlottedPage.Live;
    LiveSlots(v, m, records, next, cur);
    SomeDead(PageAt(v, cur));
  }

  lemma SomeDead(p: seq<byte>)
    requires WellLaid(p)
    ensures Bounded(p) && (Reusable(p) <==> |Records(p).Keys| < NumSlots(p))
  {
    SlotsLive(p);
    hide WellLaid, Records, NumSlots, SlottedPage.Live;
    var live, all := Records(p).Keys, Below(NumSlots(p));
    if !Reusable(p) {
      assert live == all;
    } else {
      var i :| 0 <= i < NumSlots(p) && !SlottedPage.Live(p, i);
      assert live <= all - {i};
      FewerOf(live, all - {i});
    }
  }

  lemma FewerOf(a: set<nat>, b: set<nat>)
    requires a <= b
    ensures |a| <= |b|
  {
    assert b == a + (b - a);
  }

  lemma SlotsLive(p: seq<byte>)
    requires WellLaid(p)
    ensures Bounded(p) && forall i: nat :: i in Records(p) <==> i < NumSlots(p) && SlottedPage.Live(p, i)
  {
  }

  lemma LiveSlots(v: PageMap, m: map<nat, nat>, records: map<nat, seq<byte>>, next: nat, cur: nat)
    requires HeapPages(v, cur) && IsHeapPage(cur, cur) && Agrees(v, m, records, next, cur)
    requires AllOwned(v, m, records, cur)
    ensures WellLaid(PageAt(v, cur)) && |RowsOn(m, records, cur)| == |Records(PageAt(v, cur)).Keys|
  {
    hide WellLaid, Records, PageAt;
    var p, ks := PageAt(v, cur), RowsOn(m, records, cur);
    assert forall s: nat | s in Records(p) :: Owned(m, records, cur, s);
    hide AllOwned;
    forall k | k in ks
      ensures PtrSlot(m[k]) in Records(p)
    {
      assert PointsAt(v, cur, m[k], records[k]);
    }
    forall j, k | j in ks && k in ks && j != k
      ensures PtrSlot(m[j]) != PtrSlot(m[k])
    {
      SamePointer(m[j], m[k]);
    }
    hide Agrees, PointsAt, HeapPages, PtrSlot, PtrPage;
    PointedSlots(m, ks);
    var slots := set k | k in ks :: PtrSlot(m[k]);
    assert slots == Records(p).Keys;
  }

  /** A page that has just been opened takes any record of at most 4088 bytes; free space decides otherwise. */
  lemma RoomOnEmptyPage(len: nat)
    ensures Bounded(EmptyPage()) && RoomOn(EmptyPage()) == NEW_PAGE && (Fits(EmptyPage(), len) <==> len <= 4088)
  {
    EmptyIsWellLaid();
  }

  lemma AmpleRoomFits(p: seq<byte>, len: nat)
    requires Bounded(p) && SlotPos(NumSlots(p)) + len + 8 <= FreeOffset(p)
    ensures Fits(p, len)
  {
  }
}
