/** The page loops of `BTreePages`, run on buffers of the pool: which pages of the view they change. */
module PageWrites {
  import opened Bytes
  import opened NodePage
  import opened Cells
  import opened Tree
  import opened BufferPool
  import opened BTreePages
  import opened Storage

  /** `buf` is the buffer the pool holds page `p` in. */
  ghost predicate Pinned(pool: BufferPool, p: nat, buf: array<byte>, loose: set<nat>)
    reads pool, pool.Repr, pool.watch
  {
    pool.Sound(loose) && p in pool.cache && pool.cache[p].buffer == buf && buf.Length == PAGE_SIZE
    && buf in pool.Repr && pool in pool.Repr
  }

  lemma PageRead(pool: BufferPool, p: nat, buf: array<byte>, loose: set<nat>)
    requires Pinned(pool, p, buf, loose)
    ensures buf.Length == PAGE_SIZE && NodeAt(pool.View(), p) == FieldsOf(buf[..])
  {
  }

  /** One buffer has been written: only its page changed, and it reads as the buffer does. */
  twostate lemma PageWritten(pool: BufferPool, new p: nat, new buf: array<byte>, new loose: set<nat>)
    requires old(pool.Sound(loose)) && p in old(pool.cache) && old(pool.cache[p].buffer) == buf
    requires unchanged(pool.watch) && forall o | o in old(pool.Repr) && o != buf :: unchanged(o)
    ensures Pinned(pool, p, buf, loose + {p})
    ensures SameBut(old(pool.View()), pool.View(), {p}) && NodeAt(pool.View(), p) == FieldsOf(buf[..])
    ensures forall r :: old(pool.Kept(r)) ==> pool.Kept(r)
  {
    BuffersWritten(pool, {p}, loose);
  }

  method PutInLeaf(pool: BufferPool, p: nat, buf: array<byte>, key: nat, value: nat,
                   ghost root: bool, ghost cells: seq<Cell>, ghost next: nat)
    requires Pinned(pool, p, buf, {}) && key < TWO_32 && value < TWO_32
    requires Sorted(cells) && |cells| < NODE_MAX_CELLS && LeafPage(NodeAt(pool.View(), p), root, cells, next)
    modifies buf
    ensures Pinned(pool, p, buf, {p}) && SameBut(old(pool.View()), pool.View(), {p})
    ensures LeafPage(NodeAt(pool.View(), p), root, Put(cells, key, value), next)
    ensures forall r :: old(pool.Kept(r)) ==> pool.Kept(r)
  {
    hide LeafPage, Put, FieldsOf;
    PageRead(pool, p, buf, {});
    LeafPut(buf, key, value, root, cells, next);
    PageWritten(pool, p, buf, {});
  }

  method AbsorbOnPage(pool: BufferPool, p: nat, buf: array<byte>, slot: nat, sep: nat, right: nat,
                      ghost root: bool, ghost keys: seq<nat>, ghost ids: seq<nat>)
    requires Pinned(pool, p, buf, {}) && sep < TWO_32 && right < TWO_32
    requires slot <= |keys| < NODE_MAX_CELLS && InnerPage(NodeAt(pool.View(), p), root, keys, ids)
    modifies buf
    ensures Pinned(pool, p, buf, {p}) && SameBut(old(pool.View()), pool.View(), {p})
    ensures |ids| == |keys| + 1
    ensures InnerPage(NodeAt(pool.View(), p), root, Splice(keys, slot, 0, [sep]), Splice(ids, slot + 1, 0, [right]))
    ensures forall r :: old(pool.Kept(r)) ==> pool.Kept(r)
  {
    hide Splice, FieldsOf, HoldsBranches;
    PageRead(pool, p, buf, {});
    AbsorbPage(buf, slot, sep, right, root, keys, ids);
    PageWritten(pool, p, buf, {});
  }

  method WriteInnerOnPage(pool: BufferPool, p: nat, buf: array<byte>, keys: array<nat>, ids: array<nat>,
                          from: nat, n: nat, ghost loose: set<nat>)
    requires Pinned(pool, p, buf, loose)
    requires n <= NODE_MAX_CELLS && from + n <= keys.Length && from + n + 1 <= ids.Length
    requires Words(keys[..]) && Words(ids[..]) && keys !in pool.Repr && ids !in pool.Repr
    modifies buf
    ensures Pinned(pool, p, buf, loose + {p}) && SameBut(old(pool.View()), pool.View(), {p})
    ensures keys[..] == old(keys[..]) && ids[..] == old(ids[..])
    ensures InnerPage(NodeAt(pool.View(), p), false, keys[from..from + n], ids[from..from + n + 1])
    ensures forall r :: old(pool.Kept(r)) ==> pool.Kept(r)
  {
    hide FieldsOf;
    PageRead(pool, p, buf, loose);
    assert buf in pool.Repr;
    assert forall i | 0 <= i < keys.Length :: keys[i] == keys[..][i];
    assert forall i | 0 <= i < ids.Length :: ids[i] == ids[..][i];
    WriteInner(buf, keys, ids, from, n);
    PageWritten(pool, p, buf, loose);
  }

  /** Starts turning a page into a root with one separator; the separator and children come later. */
  method BeginRoot(pool: BufferPool, p: nat, buf: array<byte>, ghost loose: set<nat>)
    requires Pinned(pool, p, buf, loose)
    modifies buf
    ensures Pinned(pool, p, buf, loose + {p}) && SameBut(old(pool.View()), pool.View(), {p})
    ensures var f := NodeAt(pool.View(), p); f.kind == INTERNAL && f.isRoot && f.num == 1
    ensures forall r :: old(pool.Kept(r)) ==> pool.Kept(r)
  {
    PageRead(pool, p, buf, loose);
    InitializeAsInternal(buf, true);
    SetNumCells(buf, 1);
    PageWritten(pool, p, buf, loose);
  }

  method FinishRoot(pool: BufferPool, p: nat, buf: array<byte>, leftId: nat, key: nat, rightId: nat,
          ghost loose: set<nat>)
    requires Pinned(pool, p, buf, loose) && leftId < TWO_32 && key < TWO_32 && rightId < TWO_32
    requires var f := NodeAt(pool.View(), p); f.kind == INTERNAL && f.isRoot && f.num == 1
    modifies buf
    ensures Pinned(pool, p, buf, loose + {p}) && SameBut(old(pool.View()), pool.View(), {p})
    ensures InnerPage(NodeAt(pool.View(), p), true, [key], [leftId, rightId])
    ensures forall r :: old(pool.Kept(r)) ==> pool.Kept(r)
  {
    hide FieldsOf;
    PageRead(pool, p, buf, loose);
    SetValue(buf, 0, leftId);
    SetKey(buf, 0, key);
    SetLink(buf, rightId);
    PageWritten(pool, p, buf, loose);
  }

  /** Copies one page's node onto another page, without the root flag. */
  method CopyNode(pool: BufferPool, q: nat, dst: array<byte>, p: nat, src: array<byte>, ghost loose: set<nat>)
    requires Pinned(pool, q, dst, loose) && Pinned(pool, p, src, loose) && p != q
    modifies dst
    ensures Pinned(pool, q, dst, loose + {q}) && SameBut(old(pool.View()), pool.View(), {q})
    ensures NodeAt(pool.View(), q) == NodeAt(old(pool.View()), p).(isRoot := false)
    ensures forall r :: old(pool.Kept(r)) ==> pool.Kept(r)
  {
    hide FieldsOf;
    PageRead(pool, p, src, loose);
    PageRead(pool, q, dst, loose);
    CopyPage(dst, src);
    SetIsRoot(dst, false);
    PageWritten(pool, q, dst, loose);
  }

  method ClearRootFlag(pool: BufferPool, p: nat, buf: array<byte>, ghost loose: set<nat>)
    requires Pinned(pool, p, buf, loose)
    modifies buf
    ensures Pinned(pool, p, buf, loose + {p}) && SameBut(old(pool.View()), pool.View(), {p})
    ensures NodeAt(pool.View(), p) == NodeAt(old(pool.View()), p).(isRoot := false)
    ensures forall r :: old(pool.Kept(r)) ==> pool.Kept(r)
  {
    hide FieldsOf;
    PageRead(pool, p, buf, loose);
    SetIsRoot(buf, false);
    PageWritten(pool, p, buf, loose);
  }

  /** Spreads a full leaf and one more cell over its page and the fresh page `q`. */
  method SplitOnPages(pool: BufferPool, p: nat, old_: array<byte>, q: nat, new_: array<byte>, key: nat, value: nat,
                      ghost root: bool, ghost cells: seq<Cell>, ghost next: nat)
    requires Pinned(pool, p, old_, {}) && Pinned(pool, q, new_, {}) && p != q
    requires key < TWO_32 && value < TWO_32 && q < TWO_32
    requires Sorted(cells) && |cells| == NODE_MAX_CELLS && LeafPage(NodeAt(pool.View(), p), root, cells, next)
    modifies old_, new_
    ensures Pinned(pool, p, old_, {p, q}) && Pinned(pool, q, new_, {p, q})
    ensures SameBut(old(pool.View()), pool.View(), {p, q})
    ensures var d := InsertAt(cells, Pos(cells, key), Cell(key, value));
            && LeafPage(NodeAt(pool.View(), p), root, d[..SPLIT], q)
            && LeafPage(NodeAt(pool.View(), q), false, d[SPLIT..], next)
    ensures forall r :: old(pool.Kept(r)) ==> pool.Kept(r)
  {
    hide FieldsOf, LeafPage, InsertAt;
    PageRead(pool, p, old_, {});
    PageRead(pool, q, new_, {});
    SplitLeafPages(old_, new_, key, value, q, root, cells, next);
    BuffersWritten(pool, {p, q}, {});
    assert {} + {p, q} == {p, q};
    PageRead(pool, p, old_, {p, q});
    PageRead(pool, q, new_, {p, q});
  }

  method InitRootLeaf(pool: BufferPool, p: nat, buf: array<byte>)
    requires Pinned(pool, p, buf, {})
    modifies buf
    ensures Pinned(pool, p, buf, {p}) && SameBut(old(pool.View()), pool.View(), {p})
    ensures LeafPage(NodeAt(pool.View(), p), true, [], INVALID_PAGE_ID)
    ensures forall r :: old(pool.Kept(r)) ==> pool.Kept(r)
  {
    hide FieldsOf;
    PageRead(pool, p, buf, {});
    InitializeAsLeaf(buf, true);
    PageWritten(pool, p, buf, {});
  }

  /** Allocates a page and fetches it, while the caller goes on using the buffer `b` of page `p`. */
  method NewPage(pool: BufferPool, ghost loose: set<nat>, ghost p: nat, ghost b: array<byte>, ghost n: nat)
    returns (id: nat, buf: array<byte>)
    requires Pinned(pool, p, b, loose) && loose <= {p} && Within(pool.lru, p, n) && n < pool.maxPages
    modifies pool.Repr
    ensures id == old(pool.nextPageId) && pool.nextPageId == id + 1 && id != p
    ensures Pinned(pool, id, buf, loose) && Within(pool.lru, id, 1) && fresh(pool.Repr - old(pool.Repr))
    ensures Pinned(pool, p, b, loose) && Within(pool.lru, p, n + 1)
    ensures forall q, m: nat :: Within(old(pool.lru), q, m) && m < pool.maxPages ==> Within(pool.lru, q, m + 1)
    ensures pool.View() == old(pool.View())
    ensures forall q :: old(pool.Kept(q)) ==> pool.Kept(q)
  {
    id := pool.GetUnusedPageNum();
    buf := pool.GetPage(id, loose);
  }

  /** Fetches a cached page again, while the caller goes on using the buffer `b` of page `p`. */
  method Refetch(pool: BufferPool, q: nat, ghost loose: set<nat>, ghost p: nat, ghost b: array<byte>)
    returns (buf: array<byte>)
    requires Pinned(pool, p, b, loose) && q in pool.cache
    modifies pool.Repr
    ensures Pinned(pool, q, buf, loose) && Pinned(pool, p, b, loose) && fresh(pool.Repr - old(pool.Repr))
    ensures pool.View() == old(pool.View()) && pool.nextPageId == old(pool.nextPageId)
    ensures forall r :: old(pool.Kept(r)) ==> pool.Kept(r)
  {
    buf := pool.GetPage(q, loose);
  }

  lemma RecentlyUsedCached(pool: BufferPool, q: nat, n: nat, loose: set<nat>)
    requires pool.Sound(loose) && Within(pool.lru, q, n)
    ensures q in pool.cache && q < pool.nextPageId
  {
  }

  /** Allocates a page and writes an internal node on it, while the loose page `p` stays in use. */
  method NewInnerPage(pool: BufferPool, keys: array<nat>, ids: array<nat>, from: nat, n: nat,
                      ghost p: nat, ghost b: array<byte>)
    returns (id: nat)
    requires Pinned(pool, p, b, {p}) && Within(pool.lru, p, 1) && 1 < pool.maxPages
    requires n <= NODE_MAX_CELLS && from + n <= keys.Length && from + n + 1 <= ids.Length
    requires Words(keys[..]) && Words(ids[..]) && keys !in pool.Repr && ids !in pool.Repr
    modifies pool.Repr
    ensures id == old(pool.nextPageId) && pool.nextPageId == id + 1 && id != p
    ensures Pinned(pool, p, b, {p}) && Within(pool.lru, p, 2) && fresh(pool.Repr - old(pool.Repr))
    ensures SameBut(old(pool.View()), pool.View(), {id})
    ensures InnerPage(NodeAt(pool.View(), id), false, keys[from..from + n], ids[from..from + n + 1])
    ensures pool.Kept(id) && forall q :: old(pool.Kept(q)) ==> pool.Kept(q)
  {
    hide InnerPage, FieldsOf, Layout, SameBut, NodeAt, BufferPool.Kept, BufferPool.Contents, BufferPool.View;
    var buf;
    id, buf := NewPage(pool, {p}, p, b, 1);
    WriteInnerOnPage(pool, id, buf, keys, ids, from, n, {p});
    pool.MarkDirty(id, {p} + {id});
    assert {p} + {id} - {id} == {p};
  }

  /** Copies the node on page `p`, without its root flag, to a freshly allocated page. */
  method CopyToNewPage(pool: BufferPool, p: nat, b: array<byte>, ghost loose: set<nat>, ghost n: nat) returns (id: nat)
    requires Pinned(pool, p, b, loose) && loose <= {p} && Within(pool.lru, p, n) && n < pool.maxPages
    modifies pool.Repr
    ensures id == old(pool.nextPageId) && pool.nextPageId == id + 1 && id != p
    ensures Pinned(pool, p, b, loose) && Within(pool.lru, p, n + 1) && fresh(pool.Repr - old(pool.Repr))
    ensures forall q, m: nat :: Within(old(pool.lru), q, m) && m < pool.maxPages ==> Within(pool.lru, q, m + 1)
    ensures SameBut(old(pool.View()), pool.View(), {id})
    ensures NodeAt(pool.View(), id) == NodeAt(old(pool.View()), p).(isRoot := false)
    ensures pool.Kept(id) && forall q :: old(pool.Kept(q)) ==> pool.Kept(q)
  {
    hide FieldsOf, Layout, SameBut, NodeAt, BufferPool.Shape, BufferPool.View, BufferPool.Contents, BufferPool.Kept;
    var buf;
    id, buf := NewPage(pool, loose, p, b, n);
    CopyNode(pool, id, buf, p, b, loose);
    pool.MarkDirty(id, loose + {id});
    assert loose + {id} - {id} == loose;
  }

  /** Overwrites the value of the cell at `idx`, whose key is `key`. */
  method BuryCell(pool: BufferPool, p: nat, buf: array<byte>, idx: nat, key: nat, value: nat,
                  ghost root: bool, ghost cells: seq<Cell>, ghost next: nat)
    requires Pinned(pool, p, buf, {}) && value < TWO_32
    requires idx == Pos(cells, key) && idx < |cells| && cells[idx].key == key
    requires LeafPage(NodeAt(pool.View(), p), root, cells, next)
    modifies buf
    ensures Pinned(pool, p, buf, {p}) && SameBut(old(pool.View()), pool.View(), {p})
    ensures LeafPage(NodeAt(pool.View(), p), root, Put(cells, key, value), next)
    ensures forall r :: old(pool.Kept(r)) ==> pool.Kept(r)
  {
    hide FieldsOf;
    PageRead(pool, p, buf, {});
    SetValue(buf, idx, value);
    PageWritten(pool, p, buf, {});
  }
}
