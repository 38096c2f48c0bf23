/**
 * Slotted heap pages: a slot directory growing right from the header, records growing left from the
 * end. `Records` is what a page holds; every operation is proved against it.
 */
module SlottedPage {
  import opened Bytes
  import opened Cells

  const SLOT_DELETED: int := 0
  const NO_SLOT: int := 0xFFFF
  const HEADER_SIZE: int := 4
  const SLOT_SIZE: int := 4

  function NumSlots(p: seq<byte>): nat
    requires |p| == PAGE_SIZE
  {
    U16At(p, 0)
  }

  function FreeOffset(p: seq<byte>): nat
    requires |p| == PAGE_SIZE
  {
    U16At(p, 2)
  }

  function SlotPos(i: nat): nat { HEADER_SIZE + i * SLOT_SIZE }

  /** The directory lies inside the page, before the records. */
  predicate Bounded(p: seq<byte>) {
    |p| == PAGE_SIZE && SlotPos(NumSlots(p)) <= FreeOffset(p) <= PAGE_SIZE
  }

  function SlotOffset(p: seq<byte>, i: nat): nat
    requires Bounded(p) && i < NumSlots(p)
  {
    U16At(p, SlotPos(i))
  }

  function SlotLength(p: seq<byte>, i: nat): nat
    requires Bounded(p) && i < NumSlots(p)
  {
    U16At(p, SlotPos(i) + 2)
  }

  predicate Live(p: seq<byte>, i: nat) {
    Bounded(p) && i < NumSlots(p) && SlotOffset(p, i) != SLOT_DELETED
  }

  /** Live records lie between the free space and the end of the page and do not overlap. */
  ghost predicate WellLaid(p: seq<byte>) {
    && Bounded(p)
    && (forall i | Live(p, i) :: FreeOffset(p) <= SlotOffset(p, i) && SlotOffset(p, i) + SlotLength(p, i) <= PAGE_SIZE)
    && (forall i, j | Live(p, i) && Live(p, j) && i != j ::
          SlotOffset(p, i) + SlotLength(p, i) <= SlotOffset(p, j)
            || SlotOffset(p, j) + SlotLength(p, j) <= SlotOffset(p, i))
  }

  function RecordAt(p: seq<byte>, i: nat): seq<byte>
    requires Live(p, i) && SlotOffset(p, i) + SlotLength(p, i) <= PAGE_SIZE
  {
    p[SlotOffset(p, i)..SlotOffset(p, i) + SlotLength(p, i)]
  }

  /** The live slots of a page and their bytes. */
  ghost function Records(p: seq<byte>): (m: map<nat, seq<byte>>)
    requires WellLaid(p)
  {
    map i | 0 <= i < NumSlots(p) && Live(p, i) :: RecordAt(p, i)
  }

  function EmptyPage(): (p: seq<byte>)
    ensures |p| == PAGE_SIZE
  {
    Put16(Put16(seq(PAGE_SIZE, _ => 0), 0, 0), 2, PAGE_SIZE)
  }

  function WriteBytes(p: seq<byte>, o: nat, data: seq<byte>): (q: seq<byte>)
    requires o + |data| <= |p|
    ensures |q| == |p|
  {
    p[..o] + data + p[o + |data|..]
  }

  function PutSlot(p: seq<byte>, i: nat, offset: nat, length: nat): (q: seq<byte>)
    requires |p| == PAGE_SIZE && SlotPos(i + 1) <= PAGE_SIZE && offset < TWO_16 && length < TWO_16
    ensures |q| == |p|
  {
    Put16(Put16(p, SlotPos(i), offset), SlotPos(i) + 2, length)
  }

  /** The first deleted slot from `i` on, or the number of slots. */
  function FirstDeleted(p: seq<byte>, i: nat): (s: nat)
    requires Bounded(p) && i <= NumSlots(p)
    ensures i <= s <= NumSlots(p)
    ensures s < NumSlots(p) ==> !Live(p, s)
    ensures forall j | i <= j < s :: Live(p, j)
    decreases NumSlots(p) - i
  {
    if i == NumSlots(p) || !Live(p, i) then i else FirstDeleted(p, i + 1)
  }

  /** Whether a record of `len` bytes fits, counting a new directory entry when no slot can be reused. */
  predicate Fits(p: seq<byte>, len: nat)
    requires Bounded(p)
  {
    SlotPos(NumSlots(p)) + (if FirstDeleted(p, 0) < NumSlots(p) then 0 else SLOT_SIZE) + len <= FreeOffset(p)
  }

  /** `insert`: the page after it and the slot used, or the same page and `NO_SLOT`. */
  function InsertPage(p: seq<byte>, data: seq<byte>): (r: (seq<byte>, nat))
    requires Bounded(p) && |data| < TWO_16
    ensures |r.0| == PAGE_SIZE
  {
    if !Fits(p, |data|) then (p, NO_SLOT)
    else
      var slot := FirstDeleted(p, 0);
      var free := FreeOffset(p) - |data|;
      var q := WriteBytes(Put16(p, 2, free), free, data);
      var n := if slot == NumSlots(p) then slot + 1 else NumSlots(p);
      (PutSlot(Put16(q, 0, n), slot, free, |data|), slot)
  }

  /** A slot that can be reused: some directory entry is marked deleted. */
  predicate Reusable(p: seq<byte>)
    requires Bounded(p)
  {
    exists i :: 0 <= i < NumSlots(p) && !Live(p, i)
  }

  lemma {:induction false} DeletedFound(p: seq<byte>, i: nat)
    requires Bounded(p) && i <= NumSlots(p)
    ensures FirstDeleted(p, i) < NumSlots(p) <==> exists j :: i <= j < NumSlots(p) && !Live(p, j)
    decreases NumSlots(p) - i
  {
    hide Live;
    if i == NumSlots(p) {
    } else {
      DeletedFound(p, i + 1);
    }
  }

  /**
   * A record is refused exactly when it and the directory, which grows if every slot is taken, overrun the free space;
   * a page that refuses one stays as it was.
   */
  lemma RefusedUnchanged(p: seq<byte>, data: seq<byte>)
    requires Bounded(p) && |data| < TWO_16
    ensures var (q, slot) := InsertPage(p, data);
            && (slot == NO_SLOT
                <==> FreeOffset(p) < SlotPos(NumSlots(p)) + (if Reusable(p) then 0 else SLOT_SIZE) + |data|)
            && (slot == NO_SLOT <==> !Fits(p, |data|)) && (slot == NO_SLOT ==> q == p)
  {
    DeletedFound(p, 0);
  }

  function DeletePage(p: seq<byte>, slot: nat): (q: seq<byte>)
    requires Bounded(p)
    ensures |q| == PAGE_SIZE
  {
    if slot >= NumSlots(p) then p else PutSlot(p, slot, SLOT_DELETED, 0)
  }

  lemma PutSlotReads(p: seq<byte>, i: nat, offset: nat, length: nat)
    requires |p| == PAGE_SIZE && SlotPos(i + 1) <= PAGE_SIZE && offset < TWO_16 && length < TWO_16
    ensures var q := PutSlot(p, i, offset, length);
            && U16At(q, SlotPos(i)) == offset && U16At(q, SlotPos(i) + 2) == length
            && forall o | 0 <= o < PAGE_SIZE && !(SlotPos(i) <= o < SlotPos(i + 1)) :: q[o] == p[o]
  {
    StoredU16(p, SlotPos(i), offset);
    StoredU16(Put16(p, SlotPos(i), offset), SlotPos(i) + 2, length);
  }

  lemma WriteReads(p: seq<byte>, o: nat, data: seq<byte>)
    requires o + |data| <= |p|
    ensures var q := WriteBytes(p, o, data);
            && (forall i | o <= i < o + |data| :: q[i] == data[i - o])
            && forall i | 0 <= i < |p| && !(o <= i < o + |data|) :: q[i] == p[i]
  {
  }

  /** The page `insert` leaves, byte range by byte range. */
  lemma InsertReads(p: seq<byte>, data: seq<byte>)
    requires Bounded(p) && |data| < TWO_16 && Fits(p, |data|)
    ensures var (q, slot) := InsertPage(p, data);
            var free, n := FreeOffset(p) - |data|, NumSlots(p);
            && slot <= n && !Live(p, slot) && NumSlots(q) == (if slot == n then n + 1 else n) && FreeOffset(q) == free
            && SlotPos(NumSlots(q)) <= free
            && U16At(q, SlotPos(slot)) == free && U16At(q, SlotPos(slot) + 2) == |data|
            && q[free..FreeOffset(p)] == data
            && forall o | HEADER_SIZE <= o < PAGE_SIZE && !(SlotPos(slot) <= o < SlotPos(slot + 1))
              && !(free <= o < FreeOffset(p)) ::
                 q[o] == p[o]
  {
    hide WriteBytes, Put16, PutSlot, FirstDeleted;
    var slot, free := FirstDeleted(p, 0), FreeOffset(p) - |data|;
    var p1 := Put16(p, 2, free);
    var p2 := WriteBytes(p1, free, data);
    var n := if slot == NumSlots(p) then slot + 1 else NumSlots(p);
    var p3 := Put16(p2, 0, n);
    StoredU16(p, 2, free);
    WriteReads(p1, free, data);
    StoredU16(p2, 0, n);
    PutSlotReads(p3, slot, free, |data|);
    var q := PutSlot(p3, slot, free, |data|);
    assert q[0] == p3[0] && q[1] == p3[1] && q[2] == p1[2] && q[3] == p1[3];
    assert forall i | free <= i < FreeOffset(p) :: q[i] == p2[i];
    assert q[free..FreeOffset(p)] == data;
  }

  /** The directory entries and records of `p` among `keep` are found unchanged in `q`. */
  ghost predicate Carries(p: seq<byte>, q: seq<byte>, except: nat)
    requires WellLaid(p) && Bounded(q)
  {
    forall i | 0 <= i < NumSlots(p) && i != except ::
      && i < NumSlots(q) && SlotOffset(q, i) == SlotOffset(p, i) && SlotLength(q, i) == SlotLength(p, i)
      && (Live(p, i) ==> q[SlotOffset(p, i)..SlotOffset(p, i) + SlotLength(p, i)] == RecordAt(p, i))
  }

  lemma InsertCarries(p: seq<byte>, data: seq<byte>)
    requires WellLaid(p) && |data| < TWO_16 && Fits(p, |data|)
    ensures var (q, slot) := InsertPage(p, data);
            Bounded(q) && slot < NumSlots(q) && Carries(p, q, slot)
  {
    hide InsertPage;
    InsertReads(p, data);
    var (q, slot) := InsertPage(p, data);
    forall i | 0 <= i < NumSlots(p) && i != slot
      ensures SlotOffset(q, i) == SlotOffset(p, i) && SlotLength(q, i) == SlotLength(p, i)
      ensures Live(p, i) ==> q[SlotOffset(p, i)..SlotOffset(p, i) + SlotLength(p, i)] == RecordAt(p, i)
    {
      assert forall o | SlotPos(i) <= o < SlotPos(i + 1) :: q[o] == p[o];
    }
  }

  /** Slot `slot` of `q` is dead, or its record keeps clear of every other record of `p`. */
  ghost predicate Clear(p: seq<byte>, q: seq<byte>, slot: nat)
    requires WellLaid(p) && Bounded(q)
  {
    Live(q, slot) ==>
      var o, l := SlotOffset(q, slot), SlotLength(q, slot);
      && FreeOffset(q) <= o && o + l <= PAGE_SIZE
      && forall i | Live(p, i) && i != slot :: o + l <= SlotOffset(p, i) || SlotOffset(p, i) + SlotLength(p, i) <= o
  }

  /** A page that differs from `p` in one slot only. */
  lemma OneSlotChanged(p: seq<byte>, q: seq<byte>, slot: nat)
    requires WellLaid(p) && Bounded(q) && slot < NumSlots(q) && FreeOffset(q) <= FreeOffset(p)
    requires NumSlots(q) == NumSlots(p) || (NumSlots(q) == NumSlots(p) + 1 && slot == NumSlots(p))
    requires Carries(p, q, slot) && Clear(p, q, slot)
    ensures WellLaid(q)
    ensures Records(q) == if Live(q, slot) then Records(p)[slot := RecordAt(q, slot)] else Records(p) - {slot}
  {
    hide SlotOffset, SlotLength, NumSlots, FreeOffset;
    forall i: nat | i != slot
      ensures Live(q, i) <==> Live(p, i)
      ensures Live(p, i) ==> SlotOffset(q, i) == SlotOffset(p, i) && SlotLength(q, i) == SlotLength(p, i)
    {
    }
    assert WellLaid(q);
    forall i: nat | i != slot && Live(p, i)
      ensures RecordAt(q, i) == RecordAt(p, i)
    {
    }
    hide Carries, Clear;
    SameRecords(p, q, slot);
  }

  lemma SameRecords(p: seq<byte>, q: seq<byte>, slot: nat)
    requires WellLaid(p) && WellLaid(q)
    requires forall i: nat | i != slot :: Live(q, i) <==> Live(p, i)
    requires forall i: nat | i != slot && Live(p, i) :: RecordAt(q, i) == RecordAt(p, i)
    ensures Records(q) == if Live(q, slot) then Records(p)[slot := RecordAt(q, slot)] else Records(p) - {slot}
  {
    hide RecordAt, SlotOffset, SlotLength;
  }

  /** Inserting adds exactly one record, in the first slot that held none, and leaves every other record alone. */
  lemma InsertAddsRecord(p: seq<byte>, data: seq<byte>)
    requires WellLaid(p) && |data| < TWO_16 && Fits(p, |data|)
    ensures var (q, slot) := InsertPage(p, data);
            && WellLaid(q) && slot !in Records(p) && Records(q) == Records(p)[slot := data]
            && (forall i | 0 <= i < slot :: i in Records(p))
            && slot <= NumSlots(p) && FreeOffset(q) == FreeOffset(p) - |data|
  {
    LowerSlotsTaken(p, data);
    hide InsertPage, Fits, FirstDeleted, Carries, Records;
    InsertReads(p, data);
    InsertCarries(p, data);
    var (q, slot) := InsertPage(p, data);
    NotRecorded(p, slot);
    assert RecordAt(q, slot) == data;
    OneSlotChanged(p, q, slot);
  }

  lemma LowerSlotsTaken(p: seq<byte>, data: seq<byte>)
    requires WellLaid(p) && |data| < TWO_16 && Fits(p, |data|)
    ensures forall i | 0 <= i < InsertPage(p, data).1 :: i in Records(p)
  {
    hide WriteBytes, Put16, PutSlot, FirstDeleted;
  }

  lemma NotRecorded(p: seq<byte>, slot: nat)
    requires WellLaid(p) && !Live(p, slot)
    ensures slot !in Records(p)
  {
  }

  /** Deleting removes exactly one record. */
  lemma DeleteRemovesRecord(p: seq<byte>, slot: nat)
    requires WellLaid(p)
    ensures var q := DeletePage(p, slot);
            && WellLaid(q) && Records(q) == Records(p) - {slot}
            && NumSlots(q) == NumSlots(p) && FreeOffset(q) == FreeOffset(p)
            && (slot < NumSlots(p) ==> SlotOffset(q, slot) == 0 && SlotLength(q, slot) == 0)
  {
    if slot < NumSlots(p) {
      var q := PutSlot(p, slot, SLOT_DELETED, 0);
      hide PutSlot;
      SlotRewritten(p, p, q, slot, SLOT_DELETED, 0);
      OneSlotChanged(p, q, slot);
    }
  }

  /** Only the directory entry of `slot` and bytes of its own record have been rewritten. */
  lemma SlotRewritten(p: seq<byte>, p1: seq<byte>, q: seq<byte>, slot: nat, offset: nat, length: nat)
    requires WellLaid(p) && slot < NumSlots(p) && offset < TWO_16 && length < TWO_16
    requires |p1| == PAGE_SIZE && q == PutSlot(p1, slot, offset, length)
    requires forall o | 0 <= o < PAGE_SIZE && p1[o] != p[o] ::
               Live(p, slot) && SlotOffset(p, slot) <= o < SlotOffset(p, slot) + SlotLength(p, slot)
    ensures Bounded(q) && NumSlots(q) == NumSlots(p) && FreeOffset(q) == FreeOffset(p)
    ensures SlotOffset(q, slot) == offset && SlotLength(q, slot) == length && Carries(p, q, slot)
    ensures forall o | FreeOffset(p) <= o < PAGE_SIZE :: q[o] == p1[o]
  {
    PutSlotReads(p1, slot, offset, length);
    hide PutSlot;
    forall i | 0 <= i < NumSlots(p) && i != slot
      ensures SlotOffset(q, i) == SlotOffset(p, i) && SlotLength(q, i) == SlotLength(p, i)
      ensures Live(p, i) ==> q[SlotOffset(p, i)..SlotOffset(p, i) + SlotLength(p, i)] == RecordAt(p, i)
    {
      assert forall o | SlotPos(i) <= o < SlotPos(i + 1) :: q[o] == p[o];
    }
  }

  lemma EmptyIsWellLaid()
    ensures WellLaid(EmptyPage()) && Records(EmptyPage()) == map[]
    ensures NumSlots(EmptyPage()) == 0 && FreeOffset(EmptyPage()) == PAGE_SIZE
  {
    var z: seq<byte> := seq(PAGE_SIZE, _ => 0);
    StoredU16(z, 0, 0);
    StoredU16(Put16(z, 0, 0), 2, PAGE_SIZE);
  }

  /** `update`: in place when the new record is no longer than the old one, else delete and insert. */
  function UpdatePage(p: seq<byte>, slot: nat, data: seq<byte>): (r: (seq<byte>, nat))
    requires WellLaid(p) && |data| < TWO_16
    ensures |r.0| == PAGE_SIZE
  {
    if slot < NumSlots(p) then
      if Live(p, slot) && SlotLength(p, slot) >= |data| then
        (PutSlot(WriteBytes(p, SlotOffset(p, slot), data), slot, SlotOffset(p, slot), |data|), slot)
      else
        DeleteRemovesRecord(p, slot);
        InsertPage(DeletePage(p, slot), data)
    else InsertPage(p, data)
  }

  /**
   * Updating replaces the record of `slot`, possibly under another slot that held none. When there is no
   * room for the relocated record the old one is gone all the same.
   */
  lemma UpdateReplacesRecord(p: seq<byte>, slot: nat, data: seq<byte>)
    requires WellLaid(p) && |data| < TWO_16
    ensures var (q, s) := UpdatePage(p, slot, data);
            && WellLaid(q)
            && (s == NO_SLOT ==> Records(q) == Records(p) - {slot})
            && (s != NO_SLOT ==> s !in Records(p) - {slot} && Records(q) == (Records(p) - {slot})[s := data])
            && (Live(p, slot) && SlotLength(p, slot) >= |data| ==> s == slot)
  {
    if slot < NumSlots(p) && Live(p, slot) && SlotLength(p, slot) >= |data| {
      OverwriteReplacesRecord(p, slot, data);
    } else {
      hide InsertPage, DeletePage;
      DeleteRemovesRecord(p, slot);
      InsertOutcome(if slot < NumSlots(p) then DeletePage(p, slot) else p, data);
    }
  }

  /**
   * An update fails exactly when the new record is longer than the old one, or there is no old one, and does not fit
   * in the free space beside a directory that can reuse the slot given up.
   */
  lemma UpdateFails(p: seq<byte>, slot: nat, data: seq<byte>)
    requires WellLaid(p) && |data| < TWO_16
    ensures UpdatePage(p, slot, data).1 == NO_SLOT
       <==> && !(Live(p, slot) && SlotLength(p, slot) >= |data|)
            && var grown := if slot < NumSlots(p) || Reusable(p) then 0 else SLOT_SIZE;
               FreeOffset(p) < SlotPos(NumSlots(p)) + grown + |data|
  {
    DeleteRemovesRecord(p, slot);
    if slot < NumSlots(p) {
      hide WellLaid;
      SlotGivenUp(p, slot);
      hide DeletePage, InsertPage, Reusable;
      if !(Live(p, slot) && SlotLength(p, slot) >= |data|) {
        RefusedUnchanged(DeletePage(p, slot), data);
      }
    } else {
      hide InsertPage, Reusable;
      RefusedUnchanged(p, data);
    }
  }

  lemma SlotGivenUp(p: seq<byte>, slot: nat)
    requires Bounded(p) && slot < NumSlots(p)
    ensures var q := DeletePage(p, slot);
            Bounded(q) && NumSlots(q) == NumSlots(p) && FreeOffset(q) == FreeOffset(p) && Reusable(q)
  {
    PutSlotReads(p, slot, SLOT_DELETED, 0);
    hide PutSlot;
    assert !Live(DeletePage(p, slot), slot);
  }

  /**
   * Updating a live record loses it exactly when the new one is longer and there is no room for it beside the
   * directory: nothing is under any slot in its place.
   */
  lemma UpdateLosesRecord(p: seq<byte>, slot: nat, data: seq<byte>)
    requires WellLaid(p) && |data| < TWO_16 && Live(p, slot)
    ensures var (q, s) := UpdatePage(p, slot, data);
            && WellLaid(q)
            && (Records(q) == Records(p) - {slot}
                <==> SlotLength(p, slot) < |data| && FreeOffset(p) < SlotPos(NumSlots(p)) + |data|)
  {
    hide UpdatePage, RecordAt;
    UpdateReplacesRecord(p, slot, data);
    UpdateFails(p, slot, data);
  }

  lemma OneInserted()
    ensures var p := RunPage([InsertOp([1])]);
            && Records(p) == map[0 := [1]] && NumSlots(p) == 1 && FreeOffset(p) == 4095
            && Live(p, 0) && SlotLength(p, 0) == 1
  {
    var e := EmptyPage();
    var first := InsertOp([1]);
    assert [first][..0] == [];
    EmptyIsWellLaid();
    assert RunPage([first][..0]) == e;
    assert RunPage([first]) == InsertPage(e, [1]).0;
    hide EmptyPage, InsertPage, RunPage, Records;
    InsertReads(e, [1]);
    InsertAddsRecord(e, [1]);
  }

  /** A page that can lose its record so is one insertion away: growing it to more than 4087 bytes does it. */
  lemma LossReached(data: seq<byte>)
    requires |data| < TWO_16
    ensures Records(RunPage([InsertOp([1])])) == map[0 := [1]]
    ensures Records(RunPage([InsertOp([1]), UpdateOp(0, data)])) == map[] <==> |data| > 4087
  {
    hide UpdatePage, InsertPage, DeletePage, Live, Records, WellLaid, SlotLength, FreeOffset, NumSlots;
    var first := InsertOp([1]);
    OneInserted();
    UpdateRuns(first, 0, data);
    UpdateLosesRecord(RunPage([first]), 0, data);
    assert map[0 := [1]] - {0} == map[];
  }

  lemma UpdateRuns(first: PageOp, slot: nat, data: seq<byte>)
    requires ShortData(first) && |data| < TWO_16
    ensures RunPage([first, UpdateOp(slot, data)]) == UpdatePage(RunPage([first]), slot, data).0
  {
    hide UpdatePage, InsertPage, DeletePage, WellLaid;
    var ops := [first, UpdateOp(slot, data)];
    assert ops[..1] == [first];
  }

  lemma OverwriteReplacesRecord(p: seq<byte>, slot: nat, data: seq<byte>)
    requires WellLaid(p) && Live(p, slot) && |data| <= SlotLength(p, slot)
    ensures var q := PutSlot(WriteBytes(p, SlotOffset(p, slot), data), slot, SlotOffset(p, slot), |data|);
            WellLaid(q) && Records(q) == Records(p)[slot := data]
  {
    var p1 := WriteBytes(p, SlotOffset(p, slot), data);
    WriteReads(p, SlotOffset(p, slot), data);
    hide WriteBytes, PutSlot;
    var q := PutSlot(p1, slot, SlotOffset(p, slot), |data|);
    SlotRewritten(p, p1, q, slot, SlotOffset(p, slot), |data|);
    OneSlotChanged(p, q, slot);
    assert RecordAt(q, slot) == data;
  }

  lemma InsertOutcome(p: seq<byte>, data: seq<byte>)
    requires WellLaid(p) && |data| < TWO_16
    ensures var (q, s) := InsertPage(p, data);
            && WellLaid(q) && (s == NO_SLOT <==> !Fits(p, |data|))
            && (s == NO_SLOT ==> q == p)
            && (s != NO_SLOT ==> s !in Records(p) && Records(q) == Records(p)[s := data])
  {
    if Fits(p, |data|) {
      InsertAddsRecord(p, data);
    }
  }

  // ---------------------------------------------------------------- sequences of operations

  datatype PageOp = InsertOp(data: seq<byte>) | DeleteOp(slot: nat) | UpdateOp(slot: nat, data: seq<byte>)

  predicate ShortData(op: PageOp) {
    op.DeleteOp? || |op.data| < TWO_16
  }

  function ApplyOp(p: seq<byte>, op: PageOp): (r: (seq<byte>, nat))
    requires WellLaid(p) && ShortData(op)
    ensures WellLaid(r.0)
  {
    match op
    case InsertOp(data) => InsertOutcome(p, data); InsertPage(p, data)
    case DeleteOp(slot) => DeleteRemovesRecord(p, slot); (DeletePage(p, slot), slot)
    case UpdateOp(slot, data) => UpdateReplacesRecord(p, slot, data); UpdatePage(p, slot, data)
  }

  /** What one operation does to the records, given the slot it returned. */
  ghost predicate OpEffect(m: map<nat, seq<byte>>, op: PageOp, slot: nat, m': map<nat, seq<byte>>) {
    match op
    case InsertOp(data) => if slot == NO_SLOT then m' == m else slot !in m && m' == m[slot := data]
    case DeleteOp(s) => m' == m - {s}
    case UpdateOp(s, data) =>
      var rest := m - {s};
      if slot == NO_SLOT then m' == rest else slot !in rest && m' == rest[slot := data]
  }

  function RunPage(ops: seq<PageOp>): (p: seq<byte>)
    requires forall i | 0 <= i < |ops| :: ShortData(ops[i])
    ensures WellLaid(p)
    decreases |ops|
  {
    if ops == [] then EmptyIsWellLaid(); EmptyPage()
    else ApplyOp(RunPage(ops[..|ops| - 1]), ops[|ops| - 1]).0
  }

  /** Along every sequence of operations the page stays well laid out, and each step has exactly its effect. */
  lemma RunIsSafe(ops: seq<PageOp>)
    requires forall i | 0 <= i < |ops| :: ShortData(ops[i])
    ensures WellLaid(RunPage(ops))
    ensures ops != [] ==>
              var p := RunPage(ops[..|ops| - 1]);
              OpEffect(Records(p), ops[|ops| - 1], ApplyOp(p, ops[|ops| - 1]).1, Records(RunPage(ops)))
  {
    if ops != [] {
      var p := RunPage(ops[..|ops| - 1]);
      hide InsertPage, DeletePage, UpdatePage;
      match ops[|ops| - 1]
      case InsertOp(data) => InsertOutcome(p, data);
      case DeleteOp(slot) => DeleteRemovesRecord(p, slot);
      case UpdateOp(slot, data) => UpdateReplacesRecord(p, slot, data);
    }
  }

  // ---------------------------------------------------------------- the operations on a page buffer

  method Init(buf: array<byte>)
    requires buf.Length == PAGE_SIZE
    modifies buf
    ensures buf[..] == EmptyPage()
  {
    forall i | 0 <= i < PAGE_SIZE { buf[i] := 0; }
    assert buf[..] == seq(PAGE_SIZE, _ => 0);
    StoreU16(buf, 0, 0);
    StoreU16(buf, 2, PAGE_SIZE);
  }

  function FreeSpace(buf: array<byte>): (n: nat)
    requires Bounded(buf[..])
    reads buf
    ensures n == FreeOffset(buf[..]) - SlotPos(NumSlots(buf[..]))
  {
    var dirEnd := SlotPos(LoadU16(buf, 0));
    if LoadU16(buf, 2) <= dirEnd then 0 else LoadU16(buf, 2) - dirEnd
  }

  /** The search for a deleted slot to reuse. */
  method FindDeleted(buf: array<byte>) returns (slot: nat)
    requires Bounded(buf[..])
    ensures slot == FirstDeleted(buf[..], 0)
  {
    slot := 0;
    while slot < LoadU16(buf, 0) && LoadU16(buf, SlotPos(slot)) != SLOT_DELETED
      invariant slot <= NumSlots(buf[..]) && FirstDeleted(buf[..], 0) == FirstDeleted(buf[..], slot)
    {
      slot := slot + 1;
    }
  }

  method Insert(buf: array<byte>, data: seq<byte>) returns (slot: nat)
    requires Bounded(buf[..]) && |data| < TWO_16
    modifies buf
    ensures (buf[..], slot) == InsertPage(old(buf[..]), data)
  {
    hide FirstDeleted, Put16, WriteBytes;
    var n := LoadU16(buf, 0);
    var free := LoadU16(buf, 2);
    slot := FindDeleted(buf);
    if free < SlotPos(n) + (if slot < n then 0 else SLOT_SIZE) + |data| {
      return NO_SLOT;
    }
    free := free - |data|;
    StoreU16(buf, 2, free);
    CopyBytes(buf, free, data);
    StoreU16(buf, 0, if slot < n then n else n + 1);
    StoreU16(buf, SlotPos(slot), free);
    StoreU16(buf, SlotPos(slot) + 2, |data|);
  }

  method CopyBytes(buf: array<byte>, o: nat, data: seq<byte>)
    requires buf.Length == PAGE_SIZE && o + |data| <= PAGE_SIZE
    modifies buf
    ensures buf[..] == WriteBytes(old(buf[..]), o, data)
  {
    forall i | 0 <= i < |data| { buf[o + i] := data[i]; }
  }

  lemma RecordBytes(p: seq<byte>, slot: nat)
    requires WellLaid(p)
    ensures slot in Records(p) <==> slot < NumSlots(p) && SlotOffset(p, slot) != SLOT_DELETED
    ensures slot in Records(p) ==>
              var o, l := SlotOffset(p, slot), SlotLength(p, slot);
              SlotPos(slot + 1) <= PAGE_SIZE && o + l <= PAGE_SIZE && Records(p)[slot] == p[o..o + l]
  {
  }

  /** The record in a slot, or none when the slot is deleted or was never used. */
  function Get(buf: array<byte>, slot: nat): (r: Option<seq<byte>>)
    requires WellLaid(buf[..])
    reads buf
    ensures r == if slot in Records(buf[..]) then Some(Records(buf[..])[slot]) else None
  {
    RecordBytes(buf[..], slot);
    hide Records;
    if slot >= LoadU16(buf, 0) || LoadU16(buf, SlotPos(slot)) == SLOT_DELETED then None
    else
      var o, l := LoadU16(buf, SlotPos(slot)), LoadU16(buf, SlotPos(slot) + 2);
      assert buf[..][o..o + l] == buf[o..o + l];
      Some(buf[o..o + l])
  }

  method DeleteSlot(buf: array<byte>, slot: nat)
    requires Bounded(buf[..])
    modifies buf
    ensures buf[..] == DeletePage(old(buf[..]), slot)
  {
    if slot < LoadU16(buf, 0) {
      StoreU16(buf, SlotPos(slot), SLOT_DELETED);
      StoreU16(buf, SlotPos(slot) + 2, 0);
    }
  }

  method Overwrite(buf: array<byte>, slot: nat, data: seq<byte>)
    requires WellLaid(buf[..]) && Live(buf[..], slot) && |data| <= SlotLength(buf[..], slot)
    modifies buf
    ensures buf[..]
         == old(PutSlot(WriteBytes(buf[..], SlotOffset(buf[..], slot), data), slot, SlotOffset(buf[..], slot), |data|))
  {
    ghost var p := buf[..];
    var o := LoadU16(buf, SlotPos(slot));
    WriteReads(p, o, data);
    CopyBytes(buf, o, data);
    ghost var q := buf[..];
    assert U16At(q, SlotPos(slot)) == o;
    assert Put16(q, SlotPos(slot), o) == q;
    StoreU16(buf, SlotPos(slot) + 2, |data|);
  }

  method Update(buf: array<byte>, slot: nat, data: seq<byte>) returns (r: nat)
    requires WellLaid(buf[..]) && |data| < TWO_16
    modifies buf
    ensures (buf[..], r) == UpdatePage(old(buf[..]), slot, data)
  {
    ghost var p := buf[..];
    if slot < LoadU16(buf, 0) {
      var o := LoadU16(buf, SlotPos(slot));
      if o != SLOT_DELETED && LoadU16(buf, SlotPos(slot) + 2) >= |data| {
        Overwrite(buf, slot, data);
        return slot;
      }
      DeleteRemovesRecord(p, slot);
      DeleteSlot(buf, slot);
    }
    r := Insert(buf, data);
  }
}
