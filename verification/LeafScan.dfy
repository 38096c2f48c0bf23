/** The leaf chain on the pages: following the link fields from the leftmost leaf reads the whole index in order. */
module LeafScan {
  import opened Bytes
  import opened NodePage
  import opened Cells
  import opened Tree
  import opened Index
  import opened BTreePages
  import opened Storage

  /** The cells a leaf page says it holds. */
  ghost function CellsOn(f: Fields): (c: seq<Cell>) {
    if FullWidth(f) && f.num <= NODE_MAX_CELLS
    then seq(f.num, i requires 0 <= i < f.num => Cell(f.keys[i], f.vals[i]))
    else []
  }

  /** The cells found, the pages seen and the page id reached by following `n` links from page `id`. */
  ghost function Walk(v: PageMap, id: nat, n: nat): (r: (seq<Cell>, seq<nat>, nat))
    decreases n
  {
    if n == 0 || id == INVALID_PAGE_ID then ([], [], id)
    else
      var f := NodeAt(v, id);
      var (cells, seen, last) := Walk(v, f.link, n - 1);
      (CellsOn(f) + cells, [id] + seen, last)
  }

  function IdsOf(ls: seq<Tree>): (ids: seq<nat>)
    ensures |ids| == |ls| && forall i | 0 <= i < |ls| :: ids[i] == ls[i].id
  {
    if ls == [] then [] else [ls[0].id] + IdsOf(ls[1..])
  }

  ghost predicate OnPages(v: PageMap, ls: seq<Tree>) {
    forall i | 0 <= i < |ls| :: ls[i].Leaf?
      && exists root :: LeafPage(NodeAt(v, ls[i].id), root, ls[i].cells, ls[i].next)
  }

  lemma OnPagesAppend(v: PageMap, a: seq<Tree>, b: seq<Tree>)
    requires OnPages(v, a) && OnPages(v, b)
    ensures OnPages(v, a + b)
  {
    hide LeafPage;
  }

  lemma {:induction false} LeavesOnPages(v: PageMap, t: Tree, root: bool)
    requires Stored(v, t, root)
    ensures OnPages(v, Leaves(t))
    decreases t, 1
  {
    hide LeafPage, InnerPage, NodeAt;
    if t.Leaf? {
      assert LeafPage(NodeAt(v, t.id), root, t.cells, t.next);
    } else {
      AllLeavesOnPages(v, t.kids);
    }
  }

  lemma {:induction false} AllLeavesOnPages(v: PageMap, ts: seq<Tree>)
    requires AllStored(v, ts)
    ensures OnPages(v, AllLeaves(ts))
    decreases ts, 0
  {
    hide LeafPage, InnerPage, NodeAt, Stored;
    if ts == [] {
    } else {
      LeavesOnPages(v, ts[0], false);
      AllLeavesOnPages(v, ts[1..]);
      OnPagesAppend(v, Leaves(ts[0]), AllLeaves(ts[1..]));
    }
  }

  lemma PageCells(v: PageMap, l: Tree, root: bool)
    requires l.Leaf? && LeafPage(NodeAt(v, l.id), root, l.cells, l.next)
    ensures CellsOn(NodeAt(v, l.id)) == l.cells && NodeAt(v, l.id).link == l.next
  {
  }

  lemma {:induction false} WalkLinked(v: PageMap, ls: seq<Tree>)
    requires OnPages(v, ls) && Linked(ls, INVALID_PAGE_ID) && ls != []
    requires forall i | 0 <= i < |ls| :: ls[i].id != INVALID_PAGE_ID
    ensures Walk(v, ls[0].id, |ls|) == (Concat(ls), IdsOf(ls), INVALID_PAGE_ID)
  {
    hide LeafPage, NodeAt, CellsOn;
    var l := ls[0];
    var root :| LeafPage(NodeAt(v, l.id), root, l.cells, l.next);
    PageCells(v, l, root);
    if |ls| == 1 {
      assert ls[1..] == [];
      assert l.cells + [] == l.cells;
    } else {
      RestLinked(v, ls);
      WalkLinked(v, ls[1..]);
    }
  }

  lemma RestLinked(v: PageMap, ls: seq<Tree>)
    requires OnPages(v, ls) && Linked(ls, INVALID_PAGE_ID) && |ls| > 1
    ensures OnPages(v, ls[1..]) && Linked(ls[1..], INVALID_PAGE_ID) && ls[1].id == ls[0].next
  {
    hide LeafPage, NodeAt;
    assert forall i | 0 <= i < |ls| - 1 :: ls[1..][i] == ls[i + 1];
    forall i, j | 0 <= i < |ls| - 1 && j == i + 1 < |ls| - 1
      ensures ls[1..][i].next == ls[1..][j].id
    {
      assert ls[i + 1].next == ls[j + 1].id;
    }
  }

  /**
   * From the leftmost leaf, as many links as there are leaves lead to the end mark, past every leaf once,
   * and read the cells of the whole index in ascending order.
   */
  lemma LeafWalk(v: PageMap, t: Tree, h: nat)
    requires IsIndex(t, h) && Stored(v, t, true) && PagesBelow(t, INVALID_PAGE_ID)
    ensures var (cells, seen, last) := Walk(v, FirstLeaf(t), |Leaves(t)|);
            && cells == CellsOf(t) && Sorted(cells) && last == INVALID_PAGE_ID
            && seen == IdsOf(Leaves(t)) && forall i, j | 0 <= i < j < |seen| :: seen[i] != seen[j]
  {
    var ls := Leaves(t);
    LeafChain(t, INVALID_PAGE_ID, true, 0, TWO_32, h);
    LeavesOnPages(v, t, true);
    hide Stored, Leaves, WellFormed, Chained, Distinct, CellsOf;
    WalkLinked(v, ls);
    TreeSorted(t, h);
  }

  lemma TreeSorted(t: Tree, h: nat)
    requires IsIndex(t, h)
    ensures Sorted(CellsOf(t))
  {
    TreeEdits.CellsInRange(t, true, 0, TWO_32, h);
  }
}
