/**
 * The loops of the B-tree that work inside one or two page buffers: search, shift, split, merge.
 * Each is proved against the cell or key sequence the page stands for.
 */
module BTreePages {
  import opened Bytes
  import opened NodePage
  import opened Cells
  import opened Tree

  ghost predicate FullWidth(f: Fields) {
    |f.keys| == |f.vals| == NODE_MAX_CELLS
  }

  /** The first `n` cells of a page's key and value columns are those of `cells`. */
  ghost predicate HoldsCells(ks: seq<nat>, vs: seq<nat>, cells: seq<Cell>, n: nat) {
    && n <= |cells| && n <= |ks| && n <= |vs|
    && forall i | 0 <= i < n :: ks[i] == cells[i].key && vs[i] == cells[i].val
  }

  /** The page is a leaf holding `cells`, linked to leaf `next`. */
  ghost predicate LeafPage(f: Fields, root: bool, cells: seq<Cell>, next: nat) {
    && FullWidth(f) && f.kind == LEAF && f.isRoot == root && f.num == |cells| && f.link == next
    && HoldsCells(f.keys, f.vals, cells, |cells|)
  }

  /** A page's columns start with `keys` and with all of `ids` but the last, which is in the link field. */
  ghost predicate HoldsBranches(ks: seq<nat>, vs: seq<nat>, keys: seq<nat>, ids: seq<nat>) {
    && |keys| <= |ks| && |keys| <= |vs| && |ids| == |keys| + 1
    && (forall i | 0 <= i < |keys| :: ks[i] == keys[i] && vs[i] == ids[i])
  }

  /** The page is an internal node with separators `keys` between the children `ids`. */
  ghost predicate InnerPage(f: Fields, root: bool, keys: seq<nat>, ids: seq<nat>) {
    && FullWidth(f) && f.kind == INTERNAL && f.isRoot == root && f.num == |keys|
    && |ids| == |keys| + 1 && |keys| <= NODE_MAX_CELLS
    && HoldsBranches(f.keys, f.vals, keys, ids) && f.link == ids[|keys|]
  }

  /** Binary search for the first cell whose key is not below `key`. */
  method LeafNodeFind(buf: array<byte>, key: nat, ghost cells: seq<Cell>) returns (idx: nat)
    requires buf.Length == PAGE_SIZE && Sorted(cells)
    requires FieldsOf(buf[..]).num == |cells|
             && HoldsCells(FieldsOf(buf[..]).keys, FieldsOf(buf[..]).vals, cells, |cells|)
    ensures idx == Pos(cells, key)
  {
    hide FieldsOf;
    var min, max := 0, GetNumCells(buf);
    while min != max
      invariant min <= max <= |cells|
      invariant forall j | 0 <= j < min :: cells[j].key < key
      invariant max < |cells| ==> key <= cells[max].key
      decreases max - min
    {
      var mid := (min + max) / 2;
      var k := GetKey(buf, mid);
      assert k == cells[mid].key;
      if key == k {
        PosUnique(cells, key, mid);
        return mid;
      }
      if key < k {
        max := mid;
      } else {
        assert forall j | 0 <= j <= mid :: cells[j].key <= cells[mid].key;
        min := mid + 1;
      }
    }
    PosUnique(cells, key, min);
    return min;
  }

  /** Overwrite in place, or shift the larger cells right by one and store the new cell in the gap. */
  method LeafPut(buf: array<byte>, key: nat, value: nat, ghost root: bool, ghost cells: seq<Cell>, ghost next: nat)
    requires buf.Length == PAGE_SIZE && key < TWO_32 && value < TWO_32
    requires Sorted(cells) && |cells| < NODE_MAX_CELLS
    requires LeafPage(FieldsOf(buf[..]), root, cells, next)
    modifies buf
    ensures LeafPage(FieldsOf(buf[..]), root, Put(cells, key, value), next)
  {
    hide Pos, Put, FieldsOf;
    PutCells(cells, key, value);
    var idx := LeafNodeFind(buf, key, cells);
    if idx < GetNumCells(buf) && GetKey(buf, idx) == key {
      SetValue(buf, idx, value);
    } else {
      ShiftCells(buf, idx, cells);
      SetKey(buf, idx, key);
      SetValue(buf, idx, value);
      SetNumCells(buf, GetNumCells(buf) + 1);
    }
  }

  method ShiftCells(buf: array<byte>, idx: nat, ghost cells: seq<Cell>)
    requires buf.Length == PAGE_SIZE && idx <= |cells| < NODE_MAX_CELLS
    requires FieldsOf(buf[..]).num == |cells|
             && HoldsCells(FieldsOf(buf[..]).keys, FieldsOf(buf[..]).vals, cells, |cells|)
    modifies buf
    ensures var f, g := old(FieldsOf(buf[..])), FieldsOf(buf[..]);
            && g == f.(keys := g.keys, vals := g.vals)
            && HoldsCells(g.keys, g.vals, cells, idx)
            && forall j | idx < j <= |cells| :: g.keys[j] == cells[j - 1].key && g.vals[j] == cells[j - 1].val
  {
    hide FieldsOf;
    ghost var f := FieldsOf(buf[..]);
    var i := GetNumCells(buf);
    while i > idx
      invariant idx <= i <= |cells|
      invariant FieldsOf(buf[..]) == f.(keys := FieldsOf(buf[..]).keys, vals := FieldsOf(buf[..]).vals)
      invariant HoldsCells(FieldsOf(buf[..]).keys, FieldsOf(buf[..]).vals, cells, i)
      invariant forall j | i < j <= |cells| ::
                  FieldsOf(buf[..]).keys[j] == cells[j - 1].key && FieldsOf(buf[..]).vals[j] == cells[j - 1].val
    {
      SetKey(buf, i, GetKey(buf, i - 1));
      SetValue(buf, i, GetValue(buf, i - 1));
      i := i - 1;
    }
  }

  lemma InsertedCells(cells: seq<Cell>, i: nat, x: Cell)
    requires i <= |cells|
    ensures var d := InsertAt(cells, i, x);
            && |d| == |cells| + 1 && d[i] == x
            && (forall j | 0 <= j < i :: d[j] == cells[j])
            && (forall j | i < j < |d| :: d[j] == cells[j - 1])
  {
  }

  /**
   * Distributes the cells of a full leaf and one more over the leaf and a fresh right sibling. The key is
   * inserted whether or not it is already there; if it is, the two leaves end up with it twice.
   */
  method SplitLeafPages(old_: array<byte>, new_: array<byte>, key: nat, value: nat, newId: nat,
                        ghost root: bool, ghost cells: seq<Cell>, ghost next: nat)
    requires old_ != new_ && old_.Length == PAGE_SIZE && new_.Length == PAGE_SIZE
    requires key < TWO_32 && value < TWO_32 && newId < TWO_32
    requires Sorted(cells) && |cells| == NODE_MAX_CELLS && LeafPage(FieldsOf(old_[..]), root, cells, next)
    modifies old_, new_
    ensures var d := InsertAt(cells, Pos(cells, key), Cell(key, value));
            && LeafPage(FieldsOf(old_[..]), root, d[..SPLIT], newId)
            && LeafPage(FieldsOf(new_[..]), false, d[SPLIT..], next)
            && (Sorted(d[..SPLIT] + d[SPLIT..]) <==> !Present(cells, key))
  {
    hide FieldsOf, Present, InsertAt;
    DuplicateOnSplit(cells, key, value);
    ghost var d := InsertAt(cells, Pos(cells, key), Cell(key, value));
    assert d[..SPLIT] + d[SPLIT..] == d;
    hide Sorted;
    InitializeAsLeaf(new_, false);
    SetLink(new_, GetLink(old_));
    SetLink(old_, newId);
    var ins := LeafNodeFind(old_, key, cells);
    DistributeCells(old_, new_, key, value, ins, cells);
    SetNumCells(old_, SPLIT);
    SetNumCells(new_, NODE_MAX_CELLS + 1 - SPLIT);
  }

  method DistributeCells(old_: array<byte>, new_: array<byte>, key: nat, value: nat, ins: nat, ghost cells: seq<Cell>)
    requires old_ != new_ && old_.Length == PAGE_SIZE && new_.Length == PAGE_SIZE
    requires key < TWO_32 && value < TWO_32
    requires |cells| == NODE_MAX_CELLS && ins <= NODE_MAX_CELLS
             && HoldsCells(FieldsOf(old_[..]).keys, FieldsOf(old_[..]).vals, cells, NODE_MAX_CELLS)
    modifies old_, new_
    ensures var d := InsertAt(cells, ins, Cell(key, value));
            var f, g := FieldsOf(old_[..]), FieldsOf(new_[..]);
            && f == old(FieldsOf(old_[..])).(keys := f.keys, vals := f.vals)
            && g == old(FieldsOf(new_[..])).(keys := g.keys, vals := g.vals)
            && HoldsCells(f.keys, f.vals, d[..SPLIT], SPLIT)
            && HoldsCells(g.keys, g.vals, d[SPLIT..], NODE_MAX_CELLS + 1 - SPLIT)
  {
    hide FieldsOf, InsertAt, Distributed, HoldsCells;
    ghost var d := InsertAt(cells, ins, Cell(key, value));
    InsertedCells(cells, ins, Cell(key, value));
    DistributionStarts(FieldsOf(old_[..]), FieldsOf(new_[..]), cells, d);
    ghost var f0, g0 := FieldsOf(old_[..]), FieldsOf(new_[..]);
    var i := NODE_MAX_CELLS + 1;
    while i > 0
      invariant 0 <= i <= NODE_MAX_CELLS + 1
      invariant FieldsOf(old_[..]) == f0.(keys := FieldsOf(old_[..]).keys, vals := FieldsOf(old_[..]).vals)
      invariant FieldsOf(new_[..]) == g0.(keys := FieldsOf(new_[..]).keys, vals := FieldsOf(new_[..]).vals)
      invariant Distributed(FieldsOf(old_[..]), FieldsOf(new_[..]), cells, d, i)
    {
      i := i - 1;
      var k, v := key, value;
      if i > ins {
        k, v := GetKey(old_, i - 1), GetValue(old_, i - 1);
      } else if i < ins {
        k, v := GetKey(old_, i), GetValue(old_, i);
      }
      OldCellsLeft(FieldsOf(old_[..]), FieldsOf(new_[..]), cells, d, i);
      CellDistributed(FieldsOf(old_[..]), FieldsOf(new_[..]), cells, d, i, k, v);
      if i >= SPLIT {
        SetCell(new_, i - SPLIT, k, v);
      } else {
        SetCell(old_, i, k, v);
      }
    }
    DistributionEnds(FieldsOf(old_[..]), FieldsOf(new_[..]), cells, d);
  }

  /** Cells `i` on are in place in the two halves, and the old page still has its first `i` cells. */
  ghost predicate Distributed(f: Fields, g: Fields, cells: seq<Cell>, d: seq<Cell>, i: nat)
    requires FullWidth(f) && FullWidth(g) && |cells| == NODE_MAX_CELLS && |d| == NODE_MAX_CELLS + 1
  {
    && (forall j | 0 <= j < i && j < NODE_MAX_CELLS :: f.keys[j] == cells[j].key && f.vals[j] == cells[j].val)
    && (forall j | i <= j < SPLIT :: f.keys[j] == d[j].key && f.vals[j] == d[j].val)
    && (forall j | 0 <= j < NODE_MAX_CELLS + 1 - SPLIT && i <= j + SPLIT ::
          g.keys[j] == d[j + SPLIT].key && g.vals[j] == d[j + SPLIT].val)
  }

  lemma DistributionStarts(f: Fields, g: Fields, cells: seq<Cell>, d: seq<Cell>)
    requires FullWidth(f) && FullWidth(g) && |cells| == NODE_MAX_CELLS && |d| == NODE_MAX_CELLS + 1
    requires HoldsCells(f.keys, f.vals, cells, NODE_MAX_CELLS)
    ensures Distributed(f, g, cells, d, NODE_MAX_CELLS + 1)
  {
  }

  lemma DistributionEnds(f: Fields, g: Fields, cells: seq<Cell>, d: seq<Cell>)
    requires FullWidth(f) && FullWidth(g) && |cells| == NODE_MAX_CELLS && |d| == NODE_MAX_CELLS + 1
    requires Distributed(f, g, cells, d, 0)
    ensures HoldsCells(f.keys, f.vals, d[..SPLIT], SPLIT)
            && HoldsCells(g.keys, g.vals, d[SPLIT..], NODE_MAX_CELLS + 1 - SPLIT)
  {
  }

  lemma OldCellsLeft(f: Fields, g: Fields, cells: seq<Cell>, d: seq<Cell>, i: nat)
    requires FullWidth(f) && FullWidth(g) && |cells| == NODE_MAX_CELLS && |d| == NODE_MAX_CELLS + 1
    requires Distributed(f, g, cells, d, i + 1)
    ensures 0 < i <= NODE_MAX_CELLS ==> cells[i - 1] == Cell(f.keys[i - 1], f.vals[i - 1])
    ensures i < NODE_MAX_CELLS ==> cells[i] == Cell(f.keys[i], f.vals[i])
  {
  }

  lemma CellDistributed(f: Fields, g: Fields, cells: seq<Cell>, d: seq<Cell>, i: nat, k: nat, v: nat)
    requires FullWidth(f) && FullWidth(g) && |cells| == NODE_MAX_CELLS && |d| == NODE_MAX_CELLS + 1
    requires Distributed(f, g, cells, d, i + 1) && i <= NODE_MAX_CELLS && d[i] == Cell(k, v)
    ensures i >= SPLIT ==>
              var g' := g.(keys := g.keys[i - SPLIT := k], vals := g.vals[i - SPLIT := v]);
              Distributed(f, g', cells, d, i)
    ensures i < SPLIT ==>
              var f' := f.(keys := f.keys[i := k], vals := f.vals[i := v]);
              Distributed(f', g, cells, d, i)
  {
  }

  method SetCell(buf: array<byte>, i: nat, k: nat, v: nat)
    requires buf.Length == PAGE_SIZE && i < NODE_MAX_CELLS && k < TWO_32 && v < TWO_32
    modifies buf
    ensures var f := old(FieldsOf(buf[..])); FieldsOf(buf[..]) == f.(keys := f.keys[i := k], vals := f.vals[i := v])
  {
    hide FieldsOf;
    SetKey(buf, i, k);
    SetValue(buf, i, v);
  }

  method CopyPage(dst: array<byte>, src: array<byte>)
    requires dst != src && dst.Length == PAGE_SIZE && src.Length == PAGE_SIZE
    modifies dst
    ensures dst[..] == src[..]
  {
    forall i | 0 <= i < PAGE_SIZE { dst[i] := src[i]; }
  }

  /** Writes `n` separators and `n + 1` children, taken from position `from` on, into an internal page. */
  method WriteInner(buf: array<byte>, keys: array<nat>, ids: array<nat>, from: nat, n: nat)
    requires buf.Length == PAGE_SIZE && n <= NODE_MAX_CELLS && from + n <= keys.Length && from + n + 1 <= ids.Length
    requires forall i | 0 <= i < keys.Length :: keys[i] < TWO_32
    requires forall i | 0 <= i < ids.Length :: ids[i] < TWO_32
    requires buf as object != keys && buf as object != ids
    modifies buf
    ensures InnerPage(FieldsOf(buf[..]), false, keys[from..from + n], ids[from..from + n + 1])
  {
    hide FieldsOf;
    InitializeAsInternal(buf, false);
    SetNumCells(buf, n);
    for i := 0 to n
      invariant FieldsOf(buf[..]).kind == INTERNAL && !FieldsOf(buf[..]).isRoot && FieldsOf(buf[..]).num == n
      invariant forall j | 0 <= j < i ::
                  FieldsOf(buf[..]).keys[j] == keys[from + j] && FieldsOf(buf[..]).vals[j] == ids[from + j]
    {
      SetKey(buf, i, keys[from + i]);
      SetValue(buf, i, ids[from + i]);
    }
    SetLink(buf, ids[from + n]);
  }

  /** An internal node with room takes a separator and the child to its right. */
  method AbsorbPage(buf: array<byte>, slot: nat, sep: nat, right: nat, ghost root: bool, ghost keys: seq<nat>,
          ghost ids: seq<nat>)
    requires buf.Length == PAGE_SIZE && sep < TWO_32 && right < TWO_32
    requires InnerPage(FieldsOf(buf[..]), root, keys, ids) && slot <= |keys| < NODE_MAX_CELLS
    modifies buf
    ensures InnerPage(FieldsOf(buf[..]), root, Splice(keys, slot, 0, [sep]), Splice(ids, slot + 1, 0, [right]))
  {
    hide FieldsOf, Splice, HoldsBranches;
    var num := GetNumCells(buf);
    var oldRightmost := GetLink(buf);
    ShiftBranches(buf, slot, keys, ids);
    BranchAdded(FieldsOf(buf[..]), keys, ids, slot, sep, right);
    SetKey(buf, slot, sep);
    if slot < num {
      SetValue(buf, slot + 1, right);
    } else {
      SetValue(buf, slot, oldRightmost);
      SetLink(buf, right);
    }
    SetNumCells(buf, num + 1);
  }

  lemma SplicedBranches(keys: seq<nat>, ids: seq<nat>, slot: nat, sep: nat, right: nat)
    requires |ids| == |keys| + 1 && slot <= |keys|
    ensures var ks, js := Splice(keys, slot, 0, [sep]), Splice(ids, slot + 1, 0, [right]);
            && |ks| == |keys| + 1 && |js| == |ids| + 1 && ks[slot] == sep && js[slot + 1] == right
            && (forall j | 0 <= j < slot :: ks[j] == keys[j])
            && (forall j | slot < j < |ks| :: ks[j] == keys[j - 1])
            && (forall j | 0 <= j <= slot :: js[j] == ids[j])
            && (forall j | slot + 1 < j < |js| :: js[j] == ids[j - 1])
  {
  }

  /** The branches from `slot` on have moved one place right. */
  ghost predicate Opened(g: Fields, keys: seq<nat>, ids: seq<nat>, slot: nat)
    requires FullWidth(g) && |ids| == |keys| + 1 && slot <= |keys| < NODE_MAX_CELLS
  {
    && (forall j | 0 <= j < |keys| && j <= slot :: g.vals[j] == ids[j])
    && (forall j | 0 <= j < slot :: g.keys[j] == keys[j])
    && (forall j | slot < j <= |keys| :: g.keys[j] == keys[j - 1] && g.vals[j] == ids[j - 1])
  }

  lemma BranchAdded(g: Fields, keys: seq<nat>, ids: seq<nat>, slot: nat, sep: nat, right: nat)
    requires FullWidth(g) && |ids| == |keys| + 1 && slot <= |keys| < NODE_MAX_CELLS && Opened(g, keys, ids, slot)
    ensures var ks, js := Splice(keys, slot, 0, [sep]), Splice(ids, slot + 1, 0, [right]);
            var vals := if slot < |keys| then g.vals[slot + 1 := right] else g.vals[slot := ids[|keys|]];
            && |ks| == |keys| + 1 && |js| == |ids| + 1
            && js[|ks|] == (if slot < |keys| then ids[|keys|] else right)
            && HoldsBranches(g.keys[slot := sep], vals, ks, js)
  {
    hide Splice;
    SplicedBranches(keys, ids, slot, sep, right);
  }

  /** The branches from `i` on have moved one place right; slot `i` is as it was. */
  ghost predicate Moved(g: Fields, keys: seq<nat>, ids: seq<nat>, i: nat)
    requires FullWidth(g) && |ids| == |keys| + 1 && |keys| < NODE_MAX_CELLS
  {
    && (forall j | 0 <= j < |keys| && j <= i :: g.vals[j] == ids[j] && g.keys[j] == keys[j])
    && (forall j | i < j <= |keys| :: g.keys[j] == keys[j - 1] && g.vals[j] == ids[j - 1])
  }

  lemma OneMoved(g: Fields, keys: seq<nat>, ids: seq<nat>, i: nat)
    requires FullWidth(g) && |ids| == |keys| + 1 && 0 < i <= |keys| < NODE_MAX_CELLS && Moved(g, keys, ids, i)
    ensures var h := g.(keys := g.keys[i := g.keys[i - 1]], vals := g.vals[i := g.vals[i - 1]]);
            FullWidth(h) && Moved(h, keys, ids, i - 1)
  {
  }

  method ShiftBranches(buf: array<byte>, slot: nat, ghost keys: seq<nat>, ghost ids: seq<nat>)
    requires buf.Length == PAGE_SIZE && HoldsBranches(FieldsOf(buf[..]).keys, FieldsOf(buf[..]).vals, keys, ids)
    requires FieldsOf(buf[..]).num == |keys| && slot <= |keys| < NODE_MAX_CELLS
    modifies buf
    ensures var f, g := old(FieldsOf(buf[..])), FieldsOf(buf[..]);
            && g == f.(keys := g.keys, vals := g.vals)
            && Opened(g, keys, ids, slot)
  {
    hide FieldsOf, Moved;
    ghost var f := FieldsOf(buf[..]);
    var i := GetNumCells(buf);
    NoneMoved(f, keys, ids);
    while i > slot
      invariant slot <= i <= |keys|
      invariant FieldsOf(buf[..]) == f.(keys := FieldsOf(buf[..]).keys, vals := FieldsOf(buf[..]).vals)
      invariant Moved(FieldsOf(buf[..]), keys, ids, i)
    {
      OneMoved(FieldsOf(buf[..]), keys, ids, i);
      SetKey(buf, i, GetKey(buf, i - 1));
      SetValue(buf, i, GetValue(buf, i - 1));
      i := i - 1;
    }
    AllMoved(FieldsOf(buf[..]), keys, ids, slot);
  }

  lemma NoneMoved(g: Fields, keys: seq<nat>, ids: seq<nat>)
    requires FullWidth(g) && |keys| < NODE_MAX_CELLS && HoldsBranches(g.keys, g.vals, keys, ids)
    ensures Moved(g, keys, ids, |keys|)
  {
  }

  lemma AllMoved(g: Fields, keys: seq<nat>, ids: seq<nat>, slot: nat)
    requires FullWidth(g) && |ids| == |keys| + 1 && slot <= |keys| < NODE_MAX_CELLS && Moved(g, keys, ids, slot)
    ensures Opened(g, keys, ids, slot)
  {
  }

  ghost predicate Words(a: seq<nat>) {
    forall i | 0 <= i < |a| :: a[i] < TWO_32
  }

  /** Copies the separators and children of a full internal node out of its page. */
  method LoadBranches(buf: array<byte>, ghost root: bool, ghost keys: seq<nat>, ghost ids: seq<nat>)
    returns (oldKeys: array<nat>, oldIds: array<nat>)
    requires buf.Length == PAGE_SIZE && |keys| == NODE_MAX_CELLS && InnerPage(FieldsOf(buf[..]), root, keys, ids)
    ensures fresh(oldKeys) && fresh(oldIds) && oldKeys[..] == keys && oldIds[..] == ids
    ensures Words(keys) && Words(ids)
  {
    hide FieldsOf;
    oldKeys, oldIds := new nat[NODE_MAX_CELLS], new nat[NODE_MAX_CELLS + 1];
    for i := 0 to NODE_MAX_CELLS
      invariant forall j | 0 <= j < i :: oldKeys[j] == keys[j] < TWO_32 && oldIds[j] == ids[j] < TWO_32
    {
      oldKeys[i] := GetKey(buf, i);
      oldIds[i] := GetValue(buf, i);
    }
    oldIds[NODE_MAX_CELLS] := GetLink(buf);
  }

  /** The position a separator belongs at, recomputed from its value. */
  method FindSlot(keys: array<nat>, sep: nat) returns (slot: nat)
    ensures slot == Route(keys[..], sep)
  {
    slot := keys.Length;
    for i := 0 to keys.Length
      invariant slot == keys.Length && forall j | 0 <= j < i :: keys[j] <= sep
    {
      if sep < keys[i] {
        slot := i;
        break;
      }
    }
    RouteUnique(keys[..], sep, slot);
  }

  lemma RouteUnique(keys: seq<nat>, k: nat, i: nat)
    requires i <= |keys| && (forall j | 0 <= j < i :: keys[j] <= k) && (i < |keys| ==> k < keys[i])
    ensures Route(keys, k) == i
  {
  }

  /** The child taken for `key` in an internal page: the loop of every descent. */
  method ChildFor(buf: array<byte>, key: nat, ghost root: bool, ghost keys: seq<nat>, ghost ids: seq<nat>)
    returns (child: nat, slot: nat)
    requires buf.Length == PAGE_SIZE && InnerPage(FieldsOf(buf[..]), root, keys, ids)
    ensures slot == Route(keys, key) && child == ids[slot]
  {
    hide FieldsOf;
    child, slot := GetLink(buf), GetNumCells(buf);
    var i := 0;
    while i < GetNumCells(buf)
      invariant i <= |keys| && child == ids[|keys|] && slot == |keys|
      invariant forall j | 0 <= j < i :: keys[j] <= key
    {
      if key < GetKey(buf, i) {
        child, slot := GetValue(buf, i), i;
        break;
      }
      i := i + 1;
    }
    RouteUnique(keys, key, slot);
  }

  /** Inserts a separator and the child to its right into copies of the arrays. */
  method MergeBranches(oldKeys: array<nat>, oldIds: array<nat>, slot: nat, sep: nat, right: nat)
    returns (keys: array<nat>, ids: array<nat>)
    requires oldIds.Length == oldKeys.Length + 1 && slot <= oldKeys.Length
    ensures fresh(keys) && fresh(ids)
    ensures keys[..] == Splice(oldKeys[..], slot, 0, [sep])
    ensures ids[..] == Splice(oldIds[..], slot + 1, 0, [right])
  {
    var n := oldKeys.Length;
    keys, ids := new nat[n + 1], new nat[n + 2];
    for i := 0 to slot
      invariant forall j | 0 <= j < i :: keys[j] == oldKeys[j] && ids[j] == oldIds[j]
    {
      keys[i], ids[i] := oldKeys[i], oldIds[i];
    }
    keys[slot] := sep;
    ids[slot] := oldIds[slot];
    ids[slot + 1] := right;
    for i := slot to n
      invariant forall j | 0 <= j < slot :: keys[j] == oldKeys[j] && ids[j] == oldIds[j]
      invariant keys[slot] == sep && ids[slot] == oldIds[slot] && ids[slot + 1] == right
      invariant forall j | slot < j <= i :: keys[j] == oldKeys[j - 1]
      invariant forall j | slot + 1 < j <= i + 1 :: ids[j] == oldIds[j - 1]
    {
      keys[i + 1] := oldKeys[i];
      ids[i + 2] := oldIds[i + 1];
    }
    SplicedBranches(oldKeys[..], oldIds[..], slot, sep, right);
  }
}
