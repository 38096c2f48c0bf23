/**
 * The B-tree over the buffer pool: descent, insertion with leaf, internal and root splits, removal by
 * tombstone. `tree` is the tree the pages hold; the methods keep it so for every pool of at least
 * three pages, never touch a buffer the pool may have evicted, and mark only cached pages dirty.
 */
module BTree {
  import opened Bytes
  import opened NodePage
  import opened Cells
  import opened Tree
  import opened TreeEdits
  import opened Index
  import opened BufferPool
  import opened BTreePages
  import opened Storage
  import opened PageWrites

  /** What a descent records of an inner node it passes: its page and the slot taken. */
  datatype Ancestor = Ancestor(page: nat, slot: nat)

  ghost predicate Recorded(ancestors: seq<Ancestor>, path: seq<Frame>) {
    && |ancestors| == |path|
    && forall i | 0 <= i < |path| :: ancestors[i] == Ancestor(path[i].node.id, path[i].slot)
  }

  lemma RecordedNone()
    ensures Recorded([], [])
  {
  }

  lemma RecordedLast(ancestors: seq<Ancestor>, path: seq<Frame>)
    requires Recorded(ancestors, path) && path != []
    ensures var n := |path| - 1;
            |ancestors| == |path| && ancestors[n] == Ancestor(path[n].node.id, path[n].slot)
              && Recorded(ancestors[..n], path[..n])
  {
  }

  lemma RecordedLonger(ancestors: seq<Ancestor>, path: seq<Frame>, t: Tree, slot: nat)
    requires Recorded(ancestors, path)
    ensures Recorded(ancestors + [Ancestor(t.id, slot)], path + [Frame(t, slot)])
  {
  }

  /** Page 0 of a file with no pages becomes an empty root leaf. */
  method OpenRoot(pool: BufferPool) returns (isNew: bool)
    requires pool.Sound({}) && (pool.pager.numPages == 0 ==> 0 !in pool.watch.pages)
    modifies pool.Repr
    ensures isNew == (old(pool.pager.numPages) == 0)
    ensures pool.Sound({}) && fresh(pool.Repr - old(pool.Repr))
    ensures isNew ==>
              && LeafPage(NodeAt(pool.View(), 0), true, [], INVALID_PAGE_ID)
              && SameBut(old(pool.View()), pool.View(), {0}) && pool.Kept(0)
    ensures !isNew ==> pool.View() == old(pool.View())
    ensures pool.nextPageId == if old(pool.nextPageId) == 0 then 1 else old(pool.nextPageId)
    ensures forall p :: old(pool.Kept(p)) ==> pool.Kept(p)
  {
    hide BufferPool.Shape, BufferPool.View, BufferPool.Contents, BufferPool.Kept, FieldsOf, Layout;
    isNew := pool.pager.numPages == 0;
    var buf := pool.GetPage(0, {});
    if isNew {
      InitRootLeaf(pool, 0, buf);
      pool.MarkDirty(0, {0});
      assert {0} - {0} == {};
    }
  }

  lemma EmptyIndex(v: PageMap)
    requires LeafPage(NodeAt(v, 0), true, [], INVALID_PAGE_ID)
    ensures var t := Leaf(0, [], INVALID_PAGE_ID); IsIndex(t, 0) && Stored(v, t, true) && PagesBelow(t, 1)
  {
    EmptyImplements();
  }

  lemma AllocatorPastFile(pool: BufferPool)
    requires pool.Sound({})
    ensures pool.pager.numPages <= pool.nextPageId && forall p | p in pool.watch.pages :: p < pool.nextPageId
  {
  }

  lemma SplicedWords(s: seq<nat>, i: nat, x: nat)
    requires Words(s) && i <= |s| && x < TWO_32
    ensures Words(Splice(s, i, 0, [x])) && |Splice(s, i, 0, [x])| == |s| + 1
  {
  }

  /** The tree a file holds, or an empty one laid down in a file with no pages. */
  method OpenTree(pool: BufferPool, ghost t: Tree, ghost h: nat) returns (ghost tree: Tree, ghost height: nat)
    requires pool.Sound({}) && (pool.pager.numPages == 0 ==> pool.nextPageId == 0)
    requires pool.pager.numPages != 0 ==>
               && pool.Backed() && IsIndex(t, h) && Stored(pool.View(), t, true)
               && PagesBelow(t, pool.nextPageId) && PagesOf(t) !! pool.watch.pages
    modifies pool.Repr
    ensures pool.Sound({}) && pool.Backed() && fresh(pool.Repr - old(pool.Repr))
    ensures IsIndex(tree, height) && Stored(pool.View(), tree, true) && PagesBelow(tree, pool.nextPageId)
    ensures PagesOf(tree) !! pool.watch.pages
    ensures old(pool.pager.numPages) == 0 ==>
              && tree == Leaf(0, [], INVALID_PAGE_ID) && height == 0
              && SameBut(old(pool.View()), pool.View(), {0})
    ensures old(pool.pager.numPages) != 0 ==> tree == t && height == h && pool.View() == old(pool.View())
    ensures pool.nextPageId == if old(pool.nextPageId) == 0 then 1 else old(pool.nextPageId)
    ensures forall p :: old(pool.Kept(p)) ==> pool.Kept(p)
  {
    hide BufferPool.Shape, BufferPool.View, BufferPool.Contents, BufferPool.Kept, FieldsOf, Layout, IsIndex, Stored,
      PagesBelow, LeafPage, NodeAt, SameBut;
    AllocatorPastFile(pool);
    var isNew := OpenRoot(pool);
    if isNew {
      tree, height := Leaf(0, [], INVALID_PAGE_ID), 0;
      EmptyIndex(pool.View());
    } else {
      tree, height := t, h;
      IndexBelow(t, old(pool.nextPageId), pool.nextPageId);
    }
  }

  /** Pages handed out from `next` on are not among those watched before. */
  lemma NewPagesUnwatched(u: Tree, t: Tree, next: nat, next': nat, watched: set<nat>)
    requires PagesOf(u) == PagesOf(t) + Span(next, next') && PagesOf(t) !! watched
    requires forall p | p in watched :: p < next
    ensures PagesOf(u) !! watched
  {
  }

  lemma IndexBelow(t: Tree, next: nat, next': nat)
    requires next <= next'
    ensures PagesBelow(t, next) ==> PagesBelow(t, next')
  {
  }

  class BTree {
    const pool: BufferPool
    ghost var tree: Tree
    ghost var height: nat

    /** The pool is big enough and nothing written is waiting to be marked dirty. */
    ghost predicate Ready()
      reads this, pool, pool.Repr, pool.watch
    {
      this !in pool.Repr && pool.Sound({}) && 3 <= pool.maxPages
    }

    ghost predicate Valid()
      reads this, pool, pool.Repr, pool.watch
    {
      && Ready() && pool.Backed() && IsIndex(tree, height)
      && Stored(pool.View(), tree, true) && PagesBelow(tree, pool.nextPageId) && PagesOf(tree) !! pool.watch.pages
    }

    /** Opens the tree in the file; a file with no pages gets an empty root leaf. */
    constructor (pool: BufferPool, ghost t: Tree, ghost h: nat)
      requires pool.Sound({}) && 3 <= pool.maxPages && (pool.pager.numPages == 0 ==> pool.nextPageId == 0)
      requires pool.pager.numPages != 0 ==>
                 && pool.Backed() && IsIndex(t, h) && Stored(pool.View(), t, true)
                 && PagesBelow(t, pool.nextPageId) && PagesOf(t) !! pool.watch.pages
      modifies pool.Repr
      ensures this.pool == pool && Valid() && fresh(pool.Repr - old(pool.Repr))
      ensures old(pool.pager.numPages) == 0 ==>
                && tree == Leaf(0, [], INVALID_PAGE_ID) && height == 0
                && SameBut(old(pool.View()), pool.View(), {0})
      ensures old(pool.pager.numPages) != 0 ==> tree == t && height == h && pool.View() == old(pool.View())
      ensures pool.nextPageId == if old(pool.nextPageId) == 0 then 1 else old(pool.nextPageId)
      ensures forall p :: old(pool.Kept(p)) ==> pool.Kept(p)
    {
      hide BufferPool.Shape, BufferPool.View, BufferPool.Contents, BufferPool.Kept, Layout, IsIndex, Stored, PagesBelow,
        SameBut;
      this.pool := pool;
      new;
      tree, height := OpenTree(pool, t, h);
    }

    /** Fetches a page that exists already; nothing but the recency order can change. */
    method Visit(p: nat) returns (buf: array<byte>)
      requires Ready() && p < pool.nextPageId
      modifies pool.Repr
      ensures Ready() && fresh(pool.Repr - old(pool.Repr))
      ensures pool.View() == old(pool.View()) && pool.nextPageId == old(pool.nextPageId)
      ensures pool.fetches == old(pool.fetches) + 1
      ensures forall q :: old(pool.Kept(q)) ==> pool.Kept(q)
      ensures Pinned(pool, p, buf, {}) && Within(pool.lru, p, 1)
    {
      buf := pool.GetPage(p, {});
    }

    /** Walks from the root to the leaf `key` belongs in, recording the inner nodes passed. */
    method Descend(key: nat)
      returns (leafId: nat, buf: array<byte>, ancestors: seq<Ancestor>, ghost path: seq<Frame>, ghost leaf: Tree)
      requires Valid() && key < TWO_32
      modifies pool.Repr
      ensures Valid() && fresh(pool.Repr - old(pool.Repr))
      ensures pool.View() == old(pool.View()) && pool.nextPageId == old(pool.nextPageId)
      ensures forall p :: old(pool.Kept(p)) ==> pool.Kept(p)
      ensures Pinned(pool, leafId, buf, {}) && Within(pool.lru, leafId, 1)
      ensures Routed(tree, path, leaf, key) && Recorded(ancestors, path) && |path| == height
      ensures leaf.Leaf? && leaf == LeafFor(tree, key) && leaf.id == leafId < pool.nextPageId && leafId in PagesOf(tree)
      ensures pool.fetches == old(pool.fetches) + |path| + 1
      ensures LeafPage(NodeAt(pool.View(), leafId), path == [], leaf.cells, leaf.next)
    {
      hide LeafFor, Ids, BufferPool.Shape, BufferPool.View, BufferPool.Contents, BufferPool.Kept, Recorded, Layout,
        Lists, Stored, Routed, FormedFor, IsIndex, InnerPage, LeafPage, FieldsOf, WellFormed, Chained, Distinct;
      ghost var v := pool.View();
      DescentStarts(tree, key, height);
      var curId := 0;
      RecordedNone();
      path, leaf, ancestors := [], tree, [];
      buf := Visit(0);
      while GetNodeType(buf) == INTERNAL
        invariant Ready() && fresh(pool.Repr - old(pool.Repr))
        invariant pool.View() == v && pool.nextPageId == old(pool.nextPageId)
        invariant forall p :: old(pool.Kept(p)) ==> pool.Kept(p)
        invariant Pinned(pool, curId, buf, {}) && Within(pool.lru, curId, 1)
        invariant Routed(tree, path, leaf, key) && Recorded(ancestors, path) && leaf.id == curId
        invariant |path| <= height && pool.fetches == old(pool.fetches) + |path| + 1
        decreases height - |path|
      {
        PageRead(pool, curId, buf, {});
        InnerReached(v, tree, path, leaf, key, height);
        var child, slot := ChildFor(buf, key, path == [], leaf.keys, Ids(leaf.kids));
        ExtendPath(v, tree, path, leaf, key, height);
        RecordedLonger(ancestors, path, leaf, slot);
        ancestors := ancestors + [Ancestor(curId, slot)];
        path := path + [Frame(leaf, slot)];
        leaf := leaf.kids[slot];
        curId := child;
        buf := Visit(curId);
      }
      PageRead(pool, curId, buf, {});
      leafId := curId;
      LeafReached(v, tree, path, leaf, key, height);
    }

    /** The pages hold the tree that the edit of `key` makes of `tree`, and nothing else has changed since `v0`. */
    ghost predicate Finished(v0: PageMap, key: nat, value: nat, next0: nat)
      reads this, pool, pool.Repr, pool.watch
    {
      && Ready() && pool.Backed()
      && var (u, n) := EditTree(tree, key, value, next0);
         && pool.nextPageId == n && Stored(pool.View(), u, true)
         && SameBut(v0, pool.View(), PagesOf(tree) + Span(next0, n))
    }

    /** The child at the end of `path` has been split in two, which its parent does not know yet. */
    ghost predicate Climbs(v0: PageMap, path: seq<Frame>, cur: Tree, key: nat, value: nat, next0: nat,
                           sep: nat, rightId: nat)
      reads this, pool, pool.Repr, pool.watch
    {
      && Ready() && pool.Backed() && PagesOf(tree) !! pool.watch.pages
      && Climbing(v0, pool.View(), tree, height, path, cur, key, value, next0)
      && var g := Edit(cur, key, value, next0);
         && pool.nextPageId == g.next && sep == g.split.sep < TWO_32 && rightId == g.split.right.id < TWO_32
    }

    method InsertIntoParent(ancestors: seq<Ancestor>, sep: nat, rightId: nat,
                            ghost v0: PageMap, ghost path: seq<Frame>, ghost cur: Tree,
                            ghost key: nat, ghost value: nat, ghost next0: nat)
      requires Climbs(v0, path, cur, key, value, next0, sep, rightId)
      requires path != [] && Recorded(ancestors, path) && pool.nextPageId + |path| + 1 <= TWO_32
      modifies pool.Repr
      ensures Finished(v0, key, value, next0) && fresh(pool.Repr - old(pool.Repr))
      decreases |ancestors|, 0
    {
      hide FormedFor, Distinct, Stored, AllStored, Route, Ids, BufferPool.Shape, BufferPool.View,
        BufferPool.Contents, BufferPool.Kept, Climbing, InnerPage, FieldsOf, Layout, Edit, EditTree, SameBut,
        Recorded;
      RecordedLast(ancestors, path);
      var parent := ancestors[|ancestors| - 1];
      var rest := ancestors[..|ancestors| - 1];
      ghost var node := path[|path| - 1].node;
      ClimbFacts(v0, pool.View(), tree, height, path, cur, key, value, next0);
      var buf := Visit(parent.page);
      PageRead(pool, parent.page, buf, {});
      InnerCount(NodeAt(pool.View(), parent.page), |path| == 1, node.keys, Ids(node.kids));
      if GetNumCells(buf) < NODE_MAX_CELLS {
        AbsorbIntoParent(parent, buf, sep, rightId, v0, path, cur, key, value, next0);
      } else {
        InternalNodeSplitAndInsert(parent.page, sep, rightId, rest, v0, path, cur, key, value, next0);
      }
    }

    /** The parent has room: shift, store the separator and the right child, done. */
    method AbsorbIntoParent(parent: Ancestor, buf: array<byte>, sep: nat, rightId: nat,
                            ghost v0: PageMap, ghost path: seq<Frame>, ghost cur: Tree,
                            ghost key: nat, ghost value: nat, ghost next0: nat)
      requires Climbs(v0, path, cur, key, value, next0, sep, rightId)
      requires path != [] && Pinned(pool, parent.page, buf, {}) && parent.page !in pool.watch.pages
      requires var f := path[|path| - 1];
               && f.node.Inner? && parent == Ancestor(f.node.id, f.slot) && f.slot <= |f.node.keys| < NODE_MAX_CELLS
               && InnerPage(NodeAt(pool.View(), parent.page), |path| == 1, f.node.keys, Ids(f.node.kids))
      modifies pool.Repr
      ensures Finished(v0, key, value, next0) && fresh(pool.Repr - old(pool.Repr))
      ensures pool.nextPageId == old(pool.nextPageId)
      ensures forall p :: old(pool.Kept(p)) ==> pool.Kept(p)
    {
      hide BufferPool.Shape, BufferPool.View, BufferPool.Contents, BufferPool.Kept, Climbing, InnerPage, FieldsOf,
        Layout, Edit, EditTree, SameBut, Splice;
      ghost var f := path[|path| - 1];
      ghost var v := pool.View();
      AbsorbOnPage(pool, parent.page, buf, parent.slot, sep, rightId, |path| == 1, f.node.keys, Ids(f.node.kids));
      pool.MarkDirty(parent.page, {parent.page});
      assert {parent.page} - {parent.page} == {};
      AbsorbedUp(v0, v, pool.View(), tree, height, path, cur, key, value, next0);
    }

    method InternalNodeSplitAndInsert(nodeId: nat, sep: nat, rightId: nat, ancestors: seq<Ancestor>,
                                      ghost v0: PageMap, ghost path: seq<Frame>, ghost cur: Tree,
                                      ghost key: nat, ghost value: nat, ghost next0: nat)
      requires Climbs(v0, path, cur, key, value, next0, sep, rightId)
      requires path != [] && Recorded(ancestors, path[..|path| - 1]) && pool.nextPageId + |path| + 1 <= TWO_32
      requires var node := path[|path| - 1].node; node.id == nodeId && node.Inner? && |node.keys| == NODE_MAX_CELLS
      modifies pool.Repr
      ensures Finished(v0, key, value, next0) && fresh(pool.Repr - old(pool.Repr))
      decreases |ancestors|, 1
    {
      hide FormedFor, Distinct, Stored, MergedKeys, BufferPool.Shape, BufferPool.View, BufferPool.Contents,
        BufferPool.Kept, Climbing, InnerPage, FieldsOf, Layout, Edit, EditTree, SameBut, Recorded, HalvesWritten;
      ghost var v := pool.View();
      ghost var f := path[|path| - 1];
      var buf, wasRoot, pushed, newRight := CutNode(nodeId, sep, rightId, v0, path, cur, key, value, next0);
      ghost var w := pool.View();
      if wasRoot {
        RaiseRoot(nodeId, buf, pushed, newRight, v0, v, path, cur, key, value, next0);
      } else {
        FinishLeftHalf(nodeId, buf, newRight, f, Edit(cur, key, value, next0).split);
        SameButTwice(v, w, pool.View(), {nodeId, newRight}, {nodeId});
        assert {nodeId, newRight} + {nodeId} == {nodeId, newRight};
        SplitUp(v0, v, pool.View(), tree, height, path, cur, key, value, next0);
        InsertIntoParent(ancestors, pushed, newRight, v0, path[..|path| - 1], f.node, key, value, next0);
      }
    }

    /** Merges the separator into a full node, keeps the left half in place and moves the right half to a fresh page. */
    method CutNode(nodeId: nat, sep: nat, rightId: nat,
                   ghost v0: PageMap, ghost path: seq<Frame>, ghost cur: Tree,
                   ghost key: nat, ghost value: nat, ghost next0: nat)
      returns (buf: array<byte>, wasRoot: bool, pushed: nat, newRight: nat)
      requires Climbs(v0, path, cur, key, value, next0, sep, rightId) && path != [] && pool.nextPageId < TWO_32
      requires var node := path[|path| - 1].node; node.id == nodeId && node.Inner? && |node.keys| == NODE_MAX_CELLS
      modifies pool.Repr
      ensures this !in pool.Repr && fresh(pool.Repr - old(pool.Repr))
      ensures Pinned(pool, nodeId, buf, {nodeId}) && Within(pool.lru, nodeId, 2)
      ensures wasRoot == (|path| == 1) && newRight == old(pool.nextPageId) && pool.nextPageId == newRight + 1
      ensures nodeId !in pool.watch.pages && nodeId != newRight && newRight == Edit(cur, key, value, next0).next
      ensures var f := path[|path| - 1]; f.slot <= |f.node.keys| && |f.node.kids| == |f.node.keys| + 1
      ensures var f, s := path[|path| - 1], Edit(cur, key, value, next0).split;
              && HalvesWritten(pool.View(), f, s, nodeId, newRight)
              && pushed == MergedKeys(f, sep)[SPLIT] < TWO_32
      ensures SameBut(old(pool.View()), pool.View(), {nodeId, newRight})
      ensures pool.Kept(newRight) && forall p :: old(pool.Kept(p)) ==> pool.Kept(p)
    {
      hide FormedFor, Distinct, Stored, AllStored, Route, Ids, BufferPool.Shape, BufferPool.View,
        BufferPool.Contents, BufferPool.Kept, HalvesWritten, MergedKeys, MergedIds, Climbing, InnerPage, FieldsOf,
        Layout, Edit, SameBut;
      ghost var f := path[|path| - 1];
      ghost var s := Edit(cur, key, value, next0).split;
      ClimbFacts(v0, pool.View(), tree, height, path, cur, key, value, next0);
      buf := Visit(nodeId);
      var keys, ids;
      wasRoot, keys, ids := MergedBranches(nodeId, buf, sep, rightId, f, |path| == 1);
      newRight := WriteHalves(nodeId, buf, keys, ids, f, s);
      pushed := keys[SPLIT];
    }

    /** Writes the left half in place and the right half on a fresh page, while `nodeId` is not marked dirty yet. */
    method WriteHalves(nodeId: nat, buf: array<byte>, keys: array<nat>, ids: array<nat>, ghost f: Frame, ghost s: Split)
      returns (newRight: nat)
      requires Ready() && Pinned(pool, nodeId, buf, {}) && Within(pool.lru, nodeId, 1) && pool.nextPageId < TWO_32
      requires f.node.Inner? && |f.node.keys| == NODE_MAX_CELLS && |f.node.kids| == |f.node.keys| + 1
      requires f.slot <= |f.node.keys| && s.Two?
      requires keys.Length == NODE_MAX_CELLS + 1 && ids.Length == NODE_MAX_CELLS + 2
      requires keys[..] == MergedKeys(f, s.sep) && ids[..] == MergedIds(f, s.right.id)
      requires Words(keys[..]) && Words(ids[..]) && keys !in pool.Repr && ids !in pool.Repr
      modifies pool.Repr
      ensures this !in pool.Repr && fresh(pool.Repr - old(pool.Repr))
      ensures Pinned(pool, nodeId, buf, {nodeId}) && Within(pool.lru, nodeId, 2)
      ensures newRight == old(pool.nextPageId) && pool.nextPageId == newRight + 1
      ensures HalvesWritten(pool.View(), f, s, nodeId, newRight)
      ensures SameBut(old(pool.View()), pool.View(), {nodeId, newRight})
      ensures pool.Kept(newRight) && forall p :: old(pool.Kept(p)) ==> pool.Kept(p)
    {
      hide BufferPool.Shape, BufferPool.View, BufferPool.Contents, BufferPool.Kept, InnerPage, FieldsOf, Layout,
        SameBut, HalvesWritten, MergedKeys, MergedIds;
      ghost var v := pool.View();
      WriteInnerOnPage(pool, nodeId, buf, keys, ids, 0, SPLIT, {});
      ghost var w := pool.View();
      newRight := NewInnerPage(pool, keys, ids, SPLIT + 1, NODE_MAX_CELLS - SPLIT, nodeId, buf);
      HalvesDone(v, w, pool.View(), f, s, nodeId, newRight);
    }

    /** The left half stays where it is: its page only has to be marked dirty. */
    method FinishLeftHalf(nodeId: nat, buf: array<byte>, ghost newRight: nat, ghost f: Frame, ghost s: Split)
      requires this !in pool.Repr && 3 <= pool.maxPages && Pinned(pool, nodeId, buf, {nodeId})
      requires nodeId !in pool.watch.pages
      requires HalvesWritten(pool.View(), f, s, nodeId, newRight) && nodeId != newRight
      modifies pool.Repr
      ensures Ready() && fresh(pool.Repr - old(pool.Repr)) && pool.nextPageId == old(pool.nextPageId)
      ensures HalvesWritten(pool.View(), f, s, nodeId, newRight)
      ensures SameBut(old(pool.View()), pool.View(), {nodeId})
      ensures forall p :: old(pool.Kept(p)) ==> pool.Kept(p)
    {
      hide BufferPool.Shape, BufferPool.View, BufferPool.Contents, BufferPool.Kept, NodeAt, Layout, SameBut,
        HalvesWritten;
      ghost var w := pool.View();
      ClearRootFlag(pool, nodeId, buf, {nodeId});
      HalvesKept(w, pool.View(), f, s, nodeId, newRight);
      assert {nodeId} + {nodeId} == {nodeId} && {nodeId} - {nodeId} == {};
      pool.MarkDirty(nodeId, {nodeId});
    }

    /** Page 0 stays the root: its left half moves to a fresh page, and it becomes a node with one separator. */
    method RaiseRoot(nodeId: nat, buf: array<byte>, pushed: nat, newRight: nat,
                     ghost v0: PageMap, ghost v: PageMap, ghost path: seq<Frame>, ghost cur: Tree,
                     ghost key: nat, ghost value: nat, ghost next0: nat)
      requires this !in pool.Repr && 3 <= pool.maxPages && nodeId !in pool.watch.pages
      requires Pinned(pool, nodeId, buf, {nodeId}) && Within(pool.lru, nodeId, 2) && nodeId != newRight
      requires Climbing(v0, v, tree, height, path, cur, key, value, next0) && |path| == 1
      requires var g := Edit(cur, key, value, next0);
               && newRight == g.next && pool.nextPageId == newRight + 1 < TWO_32
               && path[0].node.id == nodeId && path[0].node.Inner?
                 && path[0].slot <= |path[0].node.keys| == NODE_MAX_CELLS
               && |path[0].node.kids| == |path[0].node.keys| + 1
               && pushed == MergedKeys(path[0], g.split.sep)[SPLIT] < TWO_32
               && HalvesWritten(pool.View(), path[0], g.split, nodeId, newRight)
               && SameBut(v, pool.View(), {nodeId, newRight})
      modifies pool.Repr
      ensures Finished(v0, key, value, next0) && fresh(pool.Repr - old(pool.Repr))
    {
      hide BufferPool.Shape, BufferPool.View, BufferPool.Contents, BufferPool.Kept, Climbing, InnerPage, NodeAt,
        Layout, Edit, EditTree, SameBut, HalvesWritten, MergedKeys;
      ghost var u := pool.View();
      ghost var s := Edit(cur, key, value, next0).split;
      var leftId := CopyToNewPage(pool, nodeId, buf, {nodeId}, 2);
      ghost var w := pool.View();
      MakeRoot(nodeId, buf, leftId, pushed, newRight);
      ghost var z := pool.View();
      HalvesMoved(u, w, z, path[0], s, nodeId, leftId, newRight);
      SameButTwice(v, u, w, {nodeId, newRight}, {leftId});
      SameButTwice(v, w, z, {nodeId, newRight} + {leftId}, {nodeId});
      assert {nodeId, newRight} + {leftId} + {nodeId} == {nodeId, newRight, leftId};
      SplitRoot(v0, v, z, tree, height, path, cur, key, value, next0);
    }

    method MakeRoot(p: nat, buf: array<byte>, leftId: nat, key: nat, rightId: nat)
      requires this !in pool.Repr && 3 <= pool.maxPages && Pinned(pool, p, buf, {p})
      requires p !in pool.watch.pages
      requires leftId < TWO_32 && key < TWO_32 && rightId < TWO_32
      modifies pool.Repr
      ensures Ready() && fresh(pool.Repr - old(pool.Repr)) && pool.nextPageId == old(pool.nextPageId)
      ensures InnerPage(NodeAt(pool.View(), p), true, [key], [leftId, rightId])
      ensures SameBut(old(pool.View()), pool.View(), {p})
      ensures forall p :: old(pool.Kept(p)) ==> pool.Kept(p)
    {
      hide BufferPool.Shape, BufferPool.View, BufferPool.Contents, BufferPool.Kept, InnerPage, NodeAt, Layout,
        SameBut;
      ghost var v := pool.View();
      assert {p} + {p} == {p} && {p} - {p} == {};
      BeginRoot(pool, p, buf, {p});
      ghost var w := pool.View();
      FinishRoot(pool, p, buf, leftId, key, rightId, {p});
      pool.MarkDirty(p, {p});
      SameButTwice(v, w, pool.View(), {p}, {p});
    }

    method MergedBranches(nodeId: nat, buf: array<byte>, sep: nat, rightId: nat, ghost f: Frame, ghost root: bool)
      returns (wasRoot: bool, keys: array<nat>, ids: array<nat>)
      requires Pinned(pool, nodeId, buf, {}) && sep < TWO_32 && rightId < TWO_32
      requires f.node.Inner? && |f.node.keys| == NODE_MAX_CELLS && |f.node.kids| == |f.node.keys| + 1
      requires f.slot == Route(f.node.keys, sep)
      requires InnerPage(NodeAt(pool.View(), nodeId), root, f.node.keys, Ids(f.node.kids))
      ensures wasRoot == root && fresh(keys) && fresh(ids)
      ensures keys[..] == MergedKeys(f, sep) && ids[..] == MergedIds(f, rightId)
      ensures keys.Length == NODE_MAX_CELLS + 1 && ids.Length == NODE_MAX_CELLS + 2
      ensures Words(keys[..]) && Words(ids[..])
    {
      hide BufferPool.Shape, BufferPool.View, BufferPool.Contents, BufferPool.Kept, FieldsOf, NodeAt, HoldsBranches,
        Layout, Splice;
      PageRead(pool, nodeId, buf, {});
      wasRoot := IsRoot(buf);
      var oldKeys, oldIds := LoadBranches(buf, root, f.node.keys, Ids(f.node.kids));
      var slot := FindSlot(oldKeys, sep);
      keys, ids := MergeBranches(oldKeys, oldIds, slot, sep, rightId);
      SplicedWords(f.node.keys, f.slot, sep);
      SplicedWords(Ids(f.node.kids), f.slot + 1, rightId);
    }

    /** A full leaf splits in two; the new right half is hung up in the parent, or under a new root. */
    method LeafNodeSplitAndInsert(oldId: nat, buf: array<byte>, key: nat, value: nat, ancestors: seq<Ancestor>,
                                  ghost path: seq<Frame>, ghost leaf: Tree)
      requires Valid() && key < TWO_32 && value < TWO_32 && pool.nextPageId + height + 2 <= TWO_32
      requires oldId in PagesOf(tree) && Pinned(pool, oldId, buf, {}) && Within(pool.lru, oldId, 1)
      requires Routed(tree, path, leaf, key) && Recorded(ancestors, path) && |path| == height
      requires leaf.Leaf? && leaf.id == oldId && oldId < pool.nextPageId && Sorted(leaf.cells)
      requires |leaf.cells| == NODE_MAX_CELLS && !Present(leaf.cells, key)
      requires LeafPage(NodeAt(pool.View(), oldId), path == [], leaf.cells, leaf.next)
      modifies pool.Repr
      ensures Finished(old(pool.View()), key, value, old(pool.nextPageId)) && fresh(pool.Repr - old(pool.Repr))
    {
      hide Routed, Sorted, WellFormed, Stored, Recorded, Present, PagesBelow, BufferPool.Shape, BufferPool.View,
        BufferPool.Contents, BufferPool.Kept, FieldsOf, LeafPage, NodeAt, Layout, Edit, EditTree, SameBut, InsertAt,
        Climbing, IsIndex;
      ghost var v0, next0 := pool.View(), pool.nextPageId;
      ghost var d := InsertAt(leaf.cells, Pos(leaf.cells, key), Cell(key, value));
      var newId, separator, isRoot := SplitLeafPage(oldId, buf, key, value, path == [], leaf);
      if isRoot {
        RaiseRootLeaf(oldId, buf, key, value, newId, v0, path, leaf);
      } else {
        SplitLeafUp(v0, pool.View(), tree, height, path, leaf, key, value, next0);
        InsertIntoParent(ancestors, separator, newId, v0, path, leaf, key, value, next0);
      }
    }

    method RaiseRootLeaf(oldId: nat, buf: array<byte>, ghost key: nat, ghost value: nat, newId: nat,
                         ghost v0: PageMap, ghost path: seq<Frame>, ghost leaf: Tree)
      requires Ready() && Pinned(pool, oldId, buf, {}) && path == [] && Routed(tree, path, leaf, key)
      requires IsIndex(tree, height) && key < TWO_32 && PagesBelow(tree, newId)
      requires newId + 1 == pool.nextPageId < TWO_32 && oldId != newId && leaf.id == oldId
      requires oldId !in pool.watch.pages
      requires Within(pool.lru, newId, 1) && Within(pool.lru, oldId, 2)
      requires leaf.Leaf? && |leaf.cells| == NODE_MAX_CELLS && Sorted(leaf.cells) && !Present(leaf.cells, key)
      requires var d := InsertAt(leaf.cells, Pos(leaf.cells, key), Cell(key, value));
               && LeafPage(NodeAt(pool.View(), oldId), true, d[..SPLIT], newId)
               && LeafPage(NodeAt(pool.View(), newId), false, d[SPLIT..], leaf.next)
      requires SameBut(v0, pool.View(), {oldId, newId})
      modifies pool.Repr
      ensures Finished(v0, key, value, newId) && fresh(pool.Repr - old(pool.Repr))
    {
      hide BufferPool.Shape, BufferPool.View, BufferPool.Contents, BufferPool.Kept, FieldsOf, LeafPage, InnerPage,
        NodeAt, Layout, EditTree, SameBut, InsertAt, WellFormed, Chained;
      ghost var v := pool.View();
      ghost var d := InsertAt(leaf.cells, Pos(leaf.cells, key), Cell(key, value));
      CreateNewRoot(oldId, buf, newId, d, leaf);
      SameButTwice(v0, v, pool.View(), {oldId, newId}, {oldId, newId + 1});
      assert {oldId, newId} + {oldId, newId + 1} == {0, newId, newId + 1};
      SplitRootLeaf(v0, pool.View(), tree, height, key, value, newId);
    }

    method SplitLeafPage(oldId: nat, buf: array<byte>, key: nat, value: nat, ghost root: bool, ghost leaf: Tree)
      returns (newId: nat, separator: nat, isRoot: bool)
      requires Ready() && key < TWO_32 && value < TWO_32 && pool.nextPageId < TWO_32
      requires Pinned(pool, oldId, buf, {}) && Within(pool.lru, oldId, 1)
      requires oldId !in pool.watch.pages
      requires leaf.Leaf? && Sorted(leaf.cells) && |leaf.cells| == NODE_MAX_CELLS
      requires LeafPage(NodeAt(pool.View(), oldId), root, leaf.cells, leaf.next)
      modifies pool.Repr
      ensures Ready() && Pinned(pool, oldId, buf, {}) && fresh(pool.Repr - old(pool.Repr))
      ensures Within(pool.lru, newId, 1) && Within(pool.lru, oldId, 2)
      ensures newId == old(pool.nextPageId) && pool.nextPageId == newId + 1 && newId != oldId && isRoot == root
      ensures var d := InsertAt(leaf.cells, Pos(leaf.cells, key), Cell(key, value));
              && |d| == NODE_MAX_CELLS + 1 && separator == d[SPLIT].key < TWO_32
              && LeafPage(NodeAt(pool.View(), oldId), root, d[..SPLIT], newId)
              && LeafPage(NodeAt(pool.View(), newId), false, d[SPLIT..], leaf.next)
      ensures SameBut(old(pool.View()), pool.View(), {oldId, newId})
      ensures pool.Kept(newId) && forall p :: old(pool.Kept(p)) ==> pool.Kept(p)
    {
      hide BufferPool.Shape, BufferPool.View, BufferPool.Contents, BufferPool.Kept, FieldsOf, LeafPage, Layout,
        SameBut, InsertAt;
      ghost var d := InsertAt(leaf.cells, Pos(leaf.cells, key), Cell(key, value));
      InsertedCells(leaf.cells, Pos(leaf.cells, key), Cell(key, value));
      var nbuf;
      newId, nbuf := NewPage(pool, {}, oldId, buf, 1);
      SplitOnPages(pool, oldId, buf, newId, nbuf, key, value, root, leaf.cells, leaf.next);
      separator, isRoot := FinishHalves(oldId, buf, newId, nbuf, root, d[..SPLIT], d[SPLIT..], leaf.next);
    }

    /** Both halves are marked dirty; the first key of the right one goes up. */
    method FinishHalves(oldId: nat, buf: array<byte>, newId: nat, nbuf: array<byte>, ghost root: bool,
                        ghost left: seq<Cell>, ghost right: seq<Cell>, ghost next: nat)
      returns (separator: nat, isRoot: bool)
      requires this !in pool.Repr && 3 <= pool.maxPages && right != []
      requires Pinned(pool, oldId, buf, {oldId, newId}) && Pinned(pool, newId, nbuf, {oldId, newId})
      requires oldId !in pool.watch.pages && newId !in pool.watch.pages
      requires LeafPage(NodeAt(pool.View(), oldId), root, left, newId)
               && LeafPage(NodeAt(pool.View(), newId), false, right, next)
      modifies pool.Repr
      ensures Ready() && Pinned(pool, oldId, buf, {}) && pool.View() == old(pool.View()) && pool.Repr == old(pool.Repr)
      ensures pool.lru == old(pool.lru) && pool.nextPageId == old(pool.nextPageId)
      ensures separator == right[0].key < TWO_32 && isRoot == root
      ensures pool.Kept(newId) && forall p :: old(pool.Kept(p)) ==> pool.Kept(p)
    {
      hide BufferPool.Shape, BufferPool.View, BufferPool.Contents, BufferPool.Kept, FieldsOf, LeafPage, NodeAt, Layout;
      assert {oldId, newId} - {oldId} - {newId} == {};
      pool.MarkDirty(oldId, {oldId, newId});
      pool.MarkDirty(newId, {oldId, newId} - {oldId});
      PageRead(pool, newId, nbuf, {});
      PageRead(pool, oldId, buf, {});
      LeafCount(NodeAt(pool.View(), newId), false, right, next);
      LeafCount(NodeAt(pool.View(), oldId), root, left, newId);
      separator := GetKey(nbuf, 0);
      isRoot := IsRoot(buf);
    }

    /** The split leaf was the root: its half moves to a fresh page and page `oldId` becomes the root above both. */
    method CreateNewRoot(oldId: nat, buf: array<byte>, rightId: nat, ghost d: seq<Cell>, ghost leaf: Tree)
      requires Ready() && Pinned(pool, oldId, buf, {}) && pool.nextPageId < TWO_32 && rightId < TWO_32
      requires Within(pool.lru, rightId, 1) && Within(pool.lru, oldId, 2) && oldId != rightId
      requires oldId !in pool.watch.pages
      requires leaf.Leaf? && |d| == NODE_MAX_CELLS + 1
      requires LeafPage(NodeAt(pool.View(), oldId), true, d[..SPLIT], rightId)
      requires LeafPage(NodeAt(pool.View(), rightId), false, d[SPLIT..], leaf.next)
      modifies pool.Repr
      ensures Ready() && fresh(pool.Repr - old(pool.Repr)) && pool.nextPageId == old(pool.nextPageId) + 1
      ensures var leftId := old(pool.nextPageId);
              && LeafPage(NodeAt(pool.View(), leftId), false, d[..SPLIT], rightId)
              && LeafPage(NodeAt(pool.View(), rightId), false, d[SPLIT..], leaf.next)
              && InnerPage(NodeAt(pool.View(), oldId), true, [d[SPLIT].key], [leftId, rightId])
              && SameBut(old(pool.View()), pool.View(), {oldId, leftId})
      ensures pool.Kept(old(pool.nextPageId)) && forall p :: old(pool.Kept(p)) ==> pool.Kept(p)
    {
      hide BufferPool.Shape, BufferPool.View, BufferPool.Contents, BufferPool.Kept, FieldsOf, LeafPage, InnerPage,
        Layout;
      ghost var v := pool.View();
      RecentlyUsedCached(pool, rightId, 1, {});
      LeafFlagCleared(NodeAt(v, oldId), true, d[..SPLIT], rightId);
      LeafCount(NodeAt(v, rightId), false, d[SPLIT..], leaf.next);
      var leftId := CopyToNewPage(pool, oldId, buf, {}, 2);
      RecentlyUsedCached(pool, rightId, 2, {});
      ghost var w := pool.View();
      assert NodeAt(w, rightId) == NodeAt(v, rightId);
      PutRootAbove(oldId, buf, leftId, rightId);
      ghost var z := pool.View();
      SameButTwice(v, w, z, {leftId}, {oldId});
      assert {leftId} + {oldId} == {oldId, leftId};
      assert NodeAt(z, rightId) == NodeAt(w, rightId) && NodeAt(z, leftId) == NodeAt(w, leftId);
    }

    /** Page `oldId` becomes a root whose separator is the first key of page `rightId`, which is fetched meanwhile. */
    method PutRootAbove(oldId: nat, buf: array<byte>, leftId: nat, rightId: nat)
      requires Ready() && Pinned(pool, oldId, buf, {}) && rightId in pool.cache && oldId != rightId
      requires oldId !in pool.watch.pages
      requires leftId < TWO_32 && rightId < TWO_32 && FullWidth(NodeAt(pool.View(), rightId))
      modifies pool.Repr
      ensures Ready() && fresh(pool.Repr - old(pool.Repr)) && pool.nextPageId == old(pool.nextPageId)
      ensures InnerPage(NodeAt(pool.View(), oldId), true, [NodeAt(old(pool.View()), rightId).keys[0]], [leftId, rightId])
      ensures SameBut(old(pool.View()), pool.View(), {oldId})
      ensures forall p :: old(pool.Kept(p)) ==> pool.Kept(p)
    {
      hide BufferPool.Shape, BufferPool.View, BufferPool.Contents, BufferPool.Kept, FieldsOf, InnerPage, Layout;
      ghost var v := pool.View();
      BeginRoot(pool, oldId, buf, {});
      ghost var w := pool.View();
      assert NodeAt(w, rightId) == NodeAt(v, rightId);
      assert {} + {oldId} == {oldId} && {oldId} + {oldId} == {oldId} && {oldId} - {oldId} == {};
      var rbuf := Refetch(pool, rightId, {oldId}, oldId, buf);
      PageRead(pool, rightId, rbuf, {oldId});
      FinishRoot(pool, oldId, buf, leftId, GetKey(rbuf, 0), rightId, {oldId});
      SameButTwice(v, w, pool.View(), {oldId}, {oldId});
      pool.MarkDirty(oldId, {oldId});
    }

    /** The leaf has room: nothing above it changes. */
    method LeafInsert(leafId: nat, buf: array<byte>, key: nat, value: nat, ghost path: seq<Frame>, ghost leaf: Tree)
      requires Valid() && key < TWO_32 && value < TWO_32 && Pinned(pool, leafId, buf, {})
      requires Routed(tree, path, leaf, key) && leafId in PagesOf(tree)
      requires leaf.Leaf? && leaf.id == leafId && Sorted(leaf.cells) && |leaf.cells| < NODE_MAX_CELLS
      requires LeafPage(NodeAt(pool.View(), leafId), path == [], leaf.cells, leaf.next)
      modifies pool.Repr
      ensures Finished(old(pool.View()), key, value, old(pool.nextPageId)) && fresh(pool.Repr - old(pool.Repr))
    {
      hide BufferPool.Shape, BufferPool.View, BufferPool.Contents, BufferPool.Kept, FieldsOf, LeafPage, NodeAt,
        Layout, EditTree, SameBut, Put, IsIndex, Stored;
      ghost var v0, next0 := pool.View(), pool.nextPageId;
      PutInLeaf(pool, leafId, buf, key, value, path == [], leaf.cells, leaf.next);
      pool.MarkDirty(leafId, {leafId});
      assert {leafId} - {leafId} == {};
      LeafChanged(v0, pool.View(), tree, height, path, leaf, key, value, next0);
    }

    /** The pages hold the edited tree: from here on it is `tree`. */
    ghost method Settle(v0: PageMap, key: nat, value: nat, next0: nat)
      requires Finished(v0, key, value, next0) && IsIndex(tree, height) && PagesBelow(tree, next0) && key < TWO_32
      requires PagesOf(tree) !! pool.watch.pages && forall p | p in pool.watch.pages :: p < next0
      modifies this
      ensures Valid() && (tree, pool.nextPageId) == EditTree(old(tree), key, value, next0)
      ensures SameBut(v0, pool.View(), PagesOf(tree))
    {
      hide BufferPool.Shape, BufferPool.View, BufferPool.Contents, BufferPool.Kept, EditTree, WellFormed, Chained,
        Distinct, Stored, Put, NodeAt;
      ghost var t0 := tree;
      EditTreeKeeps(tree, key, value, next0, height);
      var (u, n) := EditTree(tree, key, value, next0);
      if !IsIndex(u, height) {
        height := height + 1;
      }
      tree := u;
      NewPagesUnwatched(u, t0, next0, n, pool.watch.pages);
    }

    /** Inserts a key, or overwrites its value. */
    method Insert(key: nat, value: nat)
      requires Valid() && key < TWO_32 && value < TWO_32
      requires Lookup(CellsOf(tree), key).None? || HasRoom(tree, key)
      requires pool.nextPageId + height + 2 <= TWO_32
      modifies this, pool.Repr
      ensures Valid() && fresh(pool.Repr - old(pool.Repr))
      ensures (tree, pool.nextPageId) == EditTree(old(tree), key, value, old(pool.nextPageId))
      ensures SameBut(old(pool.View()), pool.View(), PagesOf(tree))
    {
      hide Stored, Routed, WellFormed, Chained, Distinct, IsIndex, BufferPool.Shape, BufferPool.View,
        BufferPool.Contents, BufferPool.Kept, FieldsOf, LeafPage, NodeAt, Layout, Edit, EditTree, SameBut, Put;
      ghost var v0, next0 := pool.View(), pool.nextPageId;
      AllocatorPastFile(pool);
      var leafId, buf, ancestors, path, leaf := Descend(key);
      LeafFacts(tree, key, height);
      PageRead(pool, leafId, buf, {});
      LeafCount(NodeAt(pool.View(), leafId), path == [], leaf.cells, leaf.next);
      if GetNumCells(buf) >= NODE_MAX_CELLS {
        LeafNodeSplitAndInsert(leafId, buf, key, value, ancestors, path, leaf);
      } else {
        LeafInsert(leafId, buf, key, value, path, leaf);
      }
      Settle(v0, key, value, next0);
    }

    /**
     * The value stored for a key as a signed number, or -1. The descent visits one page a level, so at
     * most four.
     */
    method Find(key: nat) returns (r: int)
      requires Valid() && key < TWO_32
      modifies pool.Repr
      ensures Valid() && fresh(pool.Repr - old(pool.Repr))
      ensures pool.View() == old(pool.View()) && pool.nextPageId == old(pool.nextPageId)
      ensures match Lookup(CellsOf(tree), key)
              case None => r == -1
              case Some(v) => v < TWO_32 && r == if v == TOMBSTONE then -1 else ToSigned(v)
      ensures pool.fetches - old(pool.fetches) == height + 1 <= 4
    {
      hide BufferPool.Shape, BufferPool.View, BufferPool.Contents, BufferPool.Kept, FieldsOf, LeafPage, NodeAt,
        Layout, SameBut, Stored, Routed, WellFormed;
      var leafId, buf, ancestors, path, leaf := Descend(key);
      LeafFacts(tree, key, height);
      HeightBound(tree, height);
      PageRead(pool, leafId, buf, {});
      LeafCount(NodeAt(pool.View(), leafId), path == [], leaf.cells, leaf.next);
      var idx := LeafNodeFind(buf, key, leaf.cells);
      if idx < GetNumCells(buf) && GetKey(buf, idx) == key {
        var val := GetValue(buf, idx);
        r := if val == TOMBSTONE then -1 else ToSigned(val);
      } else {
        r := -1;
      }
    }

    /** Buries a live key under a tombstone; says whether there was one to bury. */
    method Remove(key: nat) returns (removed: bool)
      requires Valid() && key < TWO_32
      modifies this, pool.Repr
      ensures Valid() && fresh(pool.Repr - old(pool.Repr))
      ensures removed == Live(old(tree), key) && pool.nextPageId == old(pool.nextPageId)
      ensures (tree, pool.nextPageId) == Step(old(tree), old(pool.nextPageId), Op.Remove(key))
      ensures SameBut(old(pool.View()), pool.View(), PagesOf(tree))
    {
      hide Sorted, Present, PagesBelow, Stored, Routed, WellFormed, Chained, Distinct, IsIndex, BufferPool.Shape,
        BufferPool.View, BufferPool.Contents, BufferPool.Kept, FieldsOf, LeafPage, NodeAt, Layout, SameBut, EditTree,
        Put;
      var leafId, buf, ancestors, path, leaf := Descend(key);
      LeafFacts(tree, key, height);
      PageRead(pool, leafId, buf, {});
      LeafCount(NodeAt(pool.View(), leafId), path == [], leaf.cells, leaf.next);
      SameAsItself(pool.View(), PagesOf(tree));
      var idx := LeafNodeFind(buf, key, leaf.cells);
      if idx >= GetNumCells(buf) || GetKey(buf, idx) != key {
        return false;
      }
      if GetValue(buf, idx) == TOMBSTONE {
        return false;
      }
      Bury(leafId, buf, idx, key, path, leaf);
      return true;
    }

    method Bury(leafId: nat, buf: array<byte>, idx: nat, key: nat, ghost path: seq<Frame>, ghost leaf: Tree)
      requires Valid() && key < TWO_32 && Pinned(pool, leafId, buf, {})
      requires Routed(tree, path, leaf, key) && leafId in PagesOf(tree)
      requires leaf.Leaf? && leaf.id == leafId && Sorted(leaf.cells) && |leaf.cells| <= NODE_MAX_CELLS
      requires idx == Pos(leaf.cells, key) && idx < |leaf.cells| && leaf.cells[idx].key == key
      requires LeafPage(NodeAt(pool.View(), leafId), path == [], leaf.cells, leaf.next)
      modifies this, pool.Repr
      ensures Valid() && fresh(pool.Repr - old(pool.Repr)) && pool.nextPageId == old(pool.nextPageId)
      ensures (tree, pool.nextPageId) == EditTree(old(tree), key, TOMBSTONE, old(pool.nextPageId))
      ensures SameBut(old(pool.View()), pool.View(), PagesOf(tree))
    {
      hide Routed, Sorted, Pos, WellFormed, LeafFor, BufferPool.Shape, BufferPool.View, BufferPool.Contents,
        BufferPool.Kept, FieldsOf, LeafPage, NodeAt, Layout, EditTree, SameBut, Put, IsIndex, Stored;
      ghost var v0, next0 := pool.View(), pool.nextPageId;
      AllocatorPastFile(pool);
      BuryCell(pool, leafId, buf, idx, key, TOMBSTONE, path == [], leaf.cells, leaf.next);
      pool.MarkDirty(leafId, {leafId});
      assert {leafId} - {leafId} == {};
      LeafChanged(v0, pool.View(), tree, height, path, leaf, key, TOMBSTONE, next0);
      Settle(v0, key, TOMBSTONE, next0);
    }
  }
}
