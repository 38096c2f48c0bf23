/**
 * The tree kept by a B-tree file as a finite map: its invariant, lookup by descent, what whole runs
 * of insertions and removals do to it, and how tall and how big it can get.
 */
module Index {
  import opened Cells
  import opened Bytes
  import opened NodePage
  import opened Tree
  import opened TreeEdits

  const TOMBSTONE: int := 0xFFFF_FFFE

  /** The tree rooted at page 0: ordered, balanced, half full, page-disjoint, leaves chained to the end mark. */
  ghost predicate IsIndex(t: Tree, h: nat) {
    && t.id == 0 && WellFormed(t, true, 0, TWO_32, h) && Distinct(t) && Chained(t, INVALID_PAGE_ID)
  }

  ghost predicate PagesBelow(t: Tree, next: nat) {
    forall p | p in PagesOf(t) :: p < next
  }

  function EditTree(t: Tree, k: nat, v: nat, next: nat): (Tree, nat) {
    Crown(Edit(t, k, v, next))
  }

  lemma Relabelled(t: Tree, id: nat)
    requires Distinct(t) && id !in PagesOf(t)
    ensures var u := t.(id := id);
            && CellsOf(u) == CellsOf(t) && Count(u) == Count(t) && Distinct(u)
            && PagesOf(u) == PagesOf(t) - {t.id} + {id}
  {
  }

  lemma CrownKeeps(g: Grown, h: nat)
    requires SplitFormed(g.split, true, 0, TWO_32, h) && AllDistinct(g.split.Parts())
    requires AllChained(g.split.Parts(), INVALID_PAGE_ID) && g.split.Parts()[0].id == 0 < g.next
    requires forall p | p in AllPages(g.split.Parts()) :: p < g.next
    ensures var (u, n) := Crown(g);
            && IsIndex(u, if g.split.One? then h else h + 1)
            && CellsOf(u) == AllCells(g.split.Parts())
            && g.next <= n && PagesOf(u) == AllPages(g.split.Parts()) + Span(g.next, n)
            && Count(u) == CountAll(g.split.Parts()) + (if g.split.One? then 0 else 1)
            && n == g.next + (if g.split.One? then 0 else 1)
  {
    match g.split
    case One(t) =>
      Single(t);
    case Two(l, sep, r) =>
      var l' := l.(id := g.next);
      PairOf(l, r);
      PairOf(l', r);
      Relabelled(l, g.next);
      var kids := [l', r];
      var u := Inner(0, [sep], kids);
      assert g.split.Parts()[1] == r && AfterKid(g.split.Parts(), 0, INVALID_PAGE_ID) == FirstLeaf(r);
      assert Chained(kids[0], FirstLeaf(r)) && Chained(kids[1], INVALID_PAGE_ID);
      assert WellFormed(kids[0], false, 0, sep, h) && WellFormed(kids[1], false, sep, TWO_32, h);
  }

  /** One edit of the file's tree: a map update that keeps the invariant and uses up exactly the new page ids. */
  lemma EditTreeKeeps(t: Tree, k: nat, v: nat, next: nat, h: nat)
    requires IsIndex(t, h) && k < TWO_32 && PagesBelow(t, next)
    ensures var (u, n) := EditTree(t, k, v, next);
            && (IsIndex(u, h) || IsIndex(u, h + 1))
            && CellsOf(u) == Put(CellsOf(t), k, v)
            && next <= n && PagesOf(u) == PagesOf(t) + Span(next, n)
            && Count(u) == Count(t) + (n - next)
  {
    hide Edit, WellFormed, Chained, AllChained, AllDistinct, AllCells, AllPages, CountAll, Put;
    var g := Edit(t, k, v, next);
    EditFormed(t, k, v, next, true, 0, TWO_32, h);
    EditCells(t, k, v, next, true, 0, TWO_32, h);
    EditPages(t, k, v, next);
    EditChained(t, k, v, next, INVALID_PAGE_ID, true, 0, TWO_32, h);
    assert 0 in PagesOf(t);
    CrownKeeps(g, h);
  }

  /** A root that splits stays on its page, above a copy of its left half on a page of its own and its right half. */
  lemma RootSplits(t: Tree, k: nat, v: nat, next: nat)
    ensures var g, e := Edit(t, k, v, next), EditTree(t, k, v, next);
            if g.split.Two? then
              && e.0 == Inner(g.split.left.id, [g.split.sep], [g.split.left.(id := g.next), g.split.right])
              && e.1 == g.next + 1
            else e == (g.split.t, g.next)
  {
    hide Edit;
  }

  // ---------------------------------------------------------------- lookup

  /** The leaf a descent for `k` ends in. */
  function LeafFor(t: Tree, k: nat): (l: Tree)
    decreases t
  {
    match t
    case Leaf(_, _, _) => t
    case Inner(_, keys, kids) =>
      var i := Route(keys, k);
      if |kids| != |keys| + 1 then t else LeafFor(kids[i], k)
  }

  lemma {:induction false} DescentFinds(t: Tree, k: nat, root: bool, lo: nat, hi: nat, h: nat)
    requires WellFormed(t, root, lo, hi, h) && lo <= k < hi
    ensures LeafFor(t, k).Leaf?
    ensures Sorted(LeafFor(t, k).cells) && |LeafFor(t, k).cells| <= NODE_MAX_CELLS
    ensures Lookup(CellsOf(t), k) == Lookup(LeafFor(t, k).cells, k)
    decreases t
  {
    hide Put, Lookup, AllCells;
    if t.Leaf? {
    } else {
      var i := Route(t.keys, k);
      RouteCovers(t.keys, k, lo, hi);
      DescentFinds(t.kids[i], k, false, LowOf(t.keys, i, lo), HighOf(t.keys, i, hi), h - 1);
      SidesOf(t.keys, t.kids, k, lo, hi, h - 1);
      Around(t.kids, i);
      MiddleDecides(AllCells(t.kids[..i]), CellsOf(t.kids[i]), AllCells(t.kids[i + 1..]), k, 0);
    }
  }

  // ---------------------------------------------------------------- whole runs

  datatype Op = Insert(key: nat, val: nat) | Remove(key: nat)

  /** The leaf the key belongs in is not full. */
  predicate HasRoom(t: Tree, k: nat) {
    LeafFor(t, k).Leaf? && |LeafFor(t, k).cells| < NODE_MAX_CELLS
  }

  /**
   * What the caller of `insert` has to respect: 32-bit keys, values that `find` can return, and
   * no insertion of a key that is already there into a leaf that is full.
   */
  predicate Allowed(t: Tree, op: Op) {
    && op.key < TWO_32
    && (op.Insert? ==> op.val < TWO_31 && (Lookup(CellsOf(t), op.key).None? || HasRoom(t, op.key)))
  }

  /** `find`: the stored value as a signed 32-bit number, or -1 for an absent or tombstoned key. */
  function FindResult(t: Tree, k: nat): (r: int)
    requires forall v :: Lookup(CellsOf(t), k) == Some(v) ==> v < TWO_32
  {
    match Lookup(CellsOf(t), k)
    case None => -1
    case Some(v) => if v == TOMBSTONE then -1 else ToSigned(v)
  }

  predicate Live(t: Tree, k: nat) {
    match Lookup(CellsOf(t), k)
    case None => false
    case Some(v) => v != TOMBSTONE
  }

  function Step(t: Tree, next: nat, op: Op): (Tree, nat) {
    match op
    case Insert(k, v) => EditTree(t, k, v, next)
    case Remove(k) => if Live(t, k) then EditTree(t, k, TOMBSTONE, next) else (t, next)
  }

  /** The tree and the allocator after `ops`, starting from the empty root leaf. */
  function Run(base: nat, ops: seq<Op>): (Tree, nat)
    decreases |ops|
  {
    if ops == [] then (Leaf(0, [], INVALID_PAGE_ID), base)
    else var (t, n) := Run(base, ops[..|ops| - 1]); Step(t, n, ops[|ops| - 1])
  }

  ghost predicate RunAllowed(base: nat, ops: seq<Op>)
    decreases |ops|
  {
    ops != [] ==>
      var before := ops[..|ops| - 1];
      RunAllowed(base, before) && Allowed(Run(base, before).0, ops[|ops| - 1])
  }

  /** A finite map under the same operations. */
  function RunModel(ops: seq<Op>): map<nat, nat>
    decreases |ops|
  {
    if ops == [] then map[]
    else
      var m := RunModel(ops[..|ops| - 1]);
      match ops[|ops| - 1]
      case Insert(k, v) => m[k := v]
      case Remove(k) => m - {k}
  }

  /** The live entries of the tree are those of `m`. */
  ghost predicate Implements(t: Tree, m: map<nat, nat>) {
    && (forall k | k in m :: m[k] < TWO_31)
    && forall k: nat :: match Lookup(CellsOf(t), k)
                        case None => k !in m
                        case Some(v) => (k in m && v == m[k]) || (k !in m && v == TOMBSTONE)
  }

  lemma StepImplements(t: Tree, next: nat, h: nat, op: Op, m: map<nat, nat>)
    requires IsIndex(t, h) && PagesBelow(t, next) && Allowed(t, op) && Implements(t, m)
    ensures var (u, n) := Step(t, next, op);
            && next <= n && (IsIndex(u, h) || IsIndex(u, h + 1))
            && PagesOf(u) == PagesOf(t) + Span(next, n)
            && Implements(u, match op case Insert(k, v) => m[k := v] case Remove(k) => m - {k})
  {
    hide EditTree, WellFormed, Lookup, Put;
    if op.Remove? && !Live(t, op.key) {
      return;
    }
    CellsInRange(t, true, 0, TWO_32, h);
    var v := if op.Insert? then op.val else TOMBSTONE;
    EditTreeKeeps(t, op.key, v, next, h);
    forall q: nat
      ensures Lookup(Put(CellsOf(t), op.key, v), q) == if q == op.key then Some(v) else Lookup(CellsOf(t), q)
    {
      LookupPut(CellsOf(t), op.key, v, q);
    }
  }

  lemma EmptyImplements()
    ensures Implements(Leaf(0, [], INVALID_PAGE_ID), map[]) && IsIndex(Leaf(0, [], INVALID_PAGE_ID), 0)
  {
  }

  /**
   * Every run of allowed operations leaves a search tree, balanced and half full, no page shared and
   * every allocated page in it, that finds exactly what the finite map holds.
   */
  lemma {:induction false} RunImplements(base: nat, ops: seq<Op>) returns (h: nat)
    requires 0 < base && RunAllowed(base, ops)
    ensures var (t, n) := Run(base, ops);
            && IsIndex(t, h) && base <= n && PagesOf(t) == {0} + Span(base, n)
            && Implements(t, RunModel(ops))
            && forall k: nat :: FindResult(t, k) == if k in RunModel(ops) then RunModel(ops)[k] else -1
    decreases |ops|
  {
    hide Step, Lookup;
    if ops == [] {
      h := 0;
      EmptyImplements();
    } else {
      hide WellFormed, CellsOf;
      var before := ops[..|ops| - 1];
      h := RunImplements(base, before);
      var (t, n) := Run(base, before);
      StepImplements(t, n, h, ops[|ops| - 1], RunModel(before));
      if !IsIndex(Run(base, ops).0, h) {
        h := h + 1;
      }
    }
  }

  // ---------------------------------------------------------------- a run that ends at the limit of what is allowed

  /** Inserts the keys from 0 up to `n`. */
  function Fill(n: nat): (ops: seq<Op>)
    ensures |ops| == n
  {
    if n == 0 then [] else Fill(n - 1) + [Insert(n - 1, n - 1)]
  }

  function Filled(n: nat): (c: seq<Cell>)
    ensures |c| == n && forall i | 0 <= i < n :: c[i] == Cell(i, i)
  {
    if n == 0 then [] else Filled(n - 1) + [Cell(n - 1, n - 1)]
  }

  lemma FillStep(n: nat)
    requires 0 < n <= NODE_MAX_CELLS
    ensures var t := Leaf(0, Filled(n - 1), INVALID_PAGE_ID);
            && Allowed(t, Insert(n - 1, n - 1))
            && Step(t, 1, Insert(n - 1, n - 1)) == (Leaf(0, Filled(n), INVALID_PAGE_ID), 1)
  {
    var c := Filled(n - 1);
    PosUnique(c, n - 1, n - 1);
    assert Put(c, n - 1, n - 1) == Filled(n);
  }

  lemma {:induction false} FillRun(n: nat)
    requires n <= NODE_MAX_CELLS
    ensures RunAllowed(1, Fill(n)) && Run(1, Fill(n)) == (Leaf(0, Filled(n), INVALID_PAGE_ID), 1)
  {
    hide Allowed, Step;
    if n == 0 {
    } else {
      FillRun(n - 1);
      FillStep(n);
      assert Fill(n)[..n - 1] == Fill(n - 1) && Fill(n)[n - 1] == Insert(n - 1, n - 1);
    }
  }

  /**
   * Inserting one of the keys again is allowed until the root leaf is full, after 510 insertions: then it would split
   * the leaf and leave the key twice in its cells. New keys are always allowed.
   */
  lemma DuplicateReached(n: nat, k: nat, v: nat)
    requires k < n <= NODE_MAX_CELLS && v < TWO_31
    ensures RunAllowed(1, Fill(n))
    ensures var t := Leaf(0, Filled(n), INVALID_PAGE_ID);
            && Run(1, Fill(n)) == (t, 1) && (Allowed(t, Insert(k, v)) <==> n < NODE_MAX_CELLS)
            && forall q | n <= q < TWO_32 :: Allowed(t, Insert(q, v))
    ensures var d := InsertAt(Filled(n), Pos(Filled(n), k), Cell(k, v));
            !Sorted(d) && d[k].key == k && d[k + 1].key == k
  {
    hide Fill, Run, RunAllowed, Filled;
    FillRun(n);
    var cells := Filled(n);
    assert cells[k].key == k;
    PosUnique(cells, k, k);
    DuplicateOnSplit(cells, k, v);
    forall q: nat | n <= q
      ensures Lookup(cells, q).None?
    {
      LookupFinds(cells, q);
    }
    hide Lookup;
    LookupFinds(cells, k);
  }

  // ---------------------------------------------------------------- height and size

  function Power(b: nat, e: nat): (r: nat) {
    if e == 0 then 1 else b * Power(b, e - 1)
  }

  /** Keys drawn from an interval and strictly increasing cannot outnumber it. */
  lemma {:induction false} SortedFits(c: seq<Cell>, lo: nat, hi: nat)
    requires Sorted(c) && Between(c, lo, hi) && lo <= hi
    ensures |c| <= hi - lo
  {
    if c == [] {
    } else {
      var n := |c| - 1;
      assert forall i | 0 <= i < n :: c[i].key < c[n].key;
      SortedFits(c[..n], lo, c[n].key);
    }
  }

  /** The fewest cells under a node of height `h` that is not the root. */
  function MinCells(h: nat): nat {
    MIN_FILL * Power(MIN_FILL + 1, h)
  }

  lemma {:induction false} FillBound(t: Tree, lo: nat, hi: nat, h: nat)
    requires WellFormed(t, false, lo, hi, h)
    ensures |CellsOf(t)| >= MinCells(h)
    decreases t, 1
  {
    hide Branching, AllCells;
    if t.Leaf? {
    } else {
      KidsFillBound(t.keys, t.kids, lo, hi, h - 1);
      ManyTimes(|t.kids|, MIN_FILL + 1, MinCells(h - 1));
      assert MinCells(h) == (MIN_FILL + 1) * MinCells(h - 1);
    }
  }

  lemma ManyTimes(n: nat, m: nat, x: nat)
    requires n >= m
    ensures n * x >= m * x
  {
  }

  lemma {:induction false} KidsFillBound(keys: seq<nat>, kids: seq<Tree>, lo: nat, hi: nat, h: nat)
    requires Branching(keys, kids, lo, hi, h)
    ensures |AllCells(kids)| >= |kids| * MinCells(h) && |kids| == |keys| + 1
    decreases kids, 0
  {
    hide MinCells;
    FillBound(kids[0], lo, HighOf(keys, 0, hi), h);
    if keys == [] {
      Single(kids[0]);
      assert kids == [kids[0]];
    } else {
      BranchingCut(keys, kids, 0, lo, hi, h);
      KidsFillBound(keys[1..], kids[1..], keys[0], hi, h);
      assert |kids| * MinCells(h) == MinCells(h) + |kids[1..]| * MinCells(h);
    }
  }

  lemma {:induction false} CountBound(t: Tree, lo: nat, hi: nat, h: nat)
    requires WellFormed(t, false, lo, hi, h)
    ensures MIN_FILL * (Count(t) + 1) <= 2 * |CellsOf(t)|
    decreases t, 1
  {
    hide Branching, AllCells, CountAll, Sorted, Between;
    if t.Leaf? {
    } else {
      KidsCountBound(t.keys, t.kids, lo, hi, h - 1);
    }
  }

  lemma {:induction false} KidsCountBound(keys: seq<nat>, kids: seq<Tree>, lo: nat, hi: nat, h: nat)
    requires Branching(keys, kids, lo, hi, h)
    ensures MIN_FILL * (CountAll(kids) + |kids|) <= 2 * |AllCells(kids)| && |kids| == |keys| + 1
    decreases kids, 0
  {
    hide WellFormed, CellsOf, Count;
    CountBound(kids[0], lo, HighOf(keys, 0, hi), h);
    if keys == [] {
      Single(kids[0]);
      assert kids == [kids[0]];
    } else {
      BranchingCut(keys, kids, 0, lo, hi, h);
      KidsCountBound(keys[1..], kids[1..], keys[0], hi, h);
    }
  }

  /**
   * A tree of height h >= 1 holds at least 2 * 255 * 256^(h-1) cells, so with 32-bit keys there are at
   * most three levels above the leaves.
   */
  lemma HeightBound(t: Tree, h: nat)
    requires IsIndex(t, h)
    ensures h >= 1 ==> |CellsOf(t)| >= 2 * (MIN_FILL * Power(MIN_FILL + 1, h - 1))
    ensures |CellsOf(t)| <= TWO_32 && h <= 3
  {
    CellsInRange(t, true, 0, TWO_32, h);
    SortedFits(CellsOf(t), 0, TWO_32);
    if h >= 1 {
      KidsFillBound(t.keys, t.kids, 0, TWO_32, h - 1);
      ManyTimes(|t.kids|, 2, MinCells(h - 1));
    }
    PowerOfThree();
    if h >= 4 {
      PowerGrows(MIN_FILL + 1, 3, h - 1);
    }
  }

  lemma PowerOfThree()
    ensures Power(MIN_FILL + 1, 3) == 0x100_0000
  {
    assert Power(256, 3) == 256 * Power(256, 2) && Power(256, 2) == 256 * Power(256, 1);
  }

  /** Pages are at most two per 255 cells, besides the root. */
  lemma SizeBound(t: Tree, h: nat)
    requires IsIndex(t, h)
    ensures MIN_FILL * (Count(t) - 1) <= 2 * |CellsOf(t)|
  {
    if t.Inner? {
      KidsCountBound(t.keys, t.kids, 0, TWO_32, h - 1);
    }
  }

  lemma {:induction false} PowerGrows(b: nat, m: nat, n: nat)
    requires b >= 1 && m <= n
    ensures 1 <= Power(b, m) <= Power(b, n)
    decreases m + n
  {
    if n == 0 {
    } else if m == 0 {
      PowerGrows(b, 0, n - 1);
    } else {
      PowerGrows(b, m - 1, n - 1);
      assert b * Power(b, m - 1) <= b * Power(b, n - 1);
    }
  }

  // ---------------------------------------------------------------- the leaf chain

  function Leaves(t: Tree): seq<Tree>
    decreases t, 1
  {
    match t
    case Leaf(_, _, _) => [t]
    case Inner(_, _, kids) => AllLeaves(kids)
  }

  function AllLeaves(ts: seq<Tree>): seq<Tree>
    decreases ts, 0
  {
    if ts == [] then [] else Leaves(ts[0]) + AllLeaves(ts[1..])
  }

  /** `ls` linked head to tail, the last one to `after`. */
  ghost predicate Linked(ls: seq<Tree>, after: nat) {
    && (forall i | 0 <= i < |ls| :: ls[i].Leaf?)
    && (forall i, j | 0 <= i < |ls| && j == i + 1 < |ls| :: ls[i].next == ls[j].id)
    && (ls != [] ==> ls[|ls| - 1].next == after)
  }

  function Concat(ls: seq<Tree>): seq<Cell> {
    if ls == [] then [] else CellsOf(ls[0]) + Concat(ls[1..])
  }

  lemma LinkedAppend(a: seq<Tree>, b: seq<Tree>, after: nat)
    requires b != [] && Linked(a, b[0].id) && Linked(b, after)
    ensures Linked(a + b, after)
  {
  }

  lemma {:induction false} ConcatAppend(a: seq<Tree>, b: seq<Tree>)
    ensures Concat(a + b) == Concat(a) + Concat(b)
  {
    if a == [] {
      assert a + b == b;
    } else {
      assert (a + b)[1..] == a[1..] + b;
      ConcatAppend(a[1..], b);
    }
  }

  lemma LeafAlone(t: Tree)
    requires t.Leaf?
    ensures Linked([t], t.next) && DistinctIds([t], {t.id}) && Concat([t]) == t.cells
  {
    assert [t][1..] == [];
  }

  ghost predicate DistinctIds(ls: seq<Tree>, pages: set<nat>) {
    && (forall i | 0 <= i < |ls| :: ls[i].id in pages)
    && forall i, j | 0 <= i < j < |ls| :: ls[i].id != ls[j].id
  }

  lemma IdsAppend(a: seq<Tree>, b: seq<Tree>, pa: set<nat>, pb: set<nat>)
    requires DistinctIds(a, pa) && DistinctIds(b, pb) && pa !! pb
    ensures DistinctIds(a + b, pa + pb)
  {
    assert forall i | 0 <= i < |a + b| :: (a + b)[i] == if i < |a| then a[i] else b[i - |a|];
  }

  lemma IdsAmongMore(ls: seq<Tree>, pages: set<nat>, p: nat)
    requires DistinctIds(ls, pages)
    ensures DistinctIds(ls, {p} + pages)
  {
  }

  /**
   * Following next-leaf links from the leftmost leaf visits every leaf once, in key order, and ends
   * at `after`: together those leaves hold exactly the cells of the tree.
   */
  lemma {:induction false} LeafChain(t: Tree, after: nat, root: bool, lo: nat, hi: nat, h: nat)
    requires WellFormed(t, root, lo, hi, h) && Chained(t, after) && Distinct(t)
    ensures var ls := Leaves(t);
            && ls != [] && ls[0].id == FirstLeaf(t) && Linked(ls, after)
            && DistinctIds(ls, PagesOf(t)) && Concat(ls) == CellsOf(t)
    decreases t, 1
  {
    hide Branching, AllChained, AllDistinct, AllCells, AllPages, Concat, Linked, DistinctIds;
    if t.Leaf? {
      LeafAlone(t);
    } else {
      hide AllLeaves;
      KidsLeafChain(t.keys, t.kids, after, lo, hi, h - 1);
      IdsAmongMore(AllLeaves(t.kids), AllPages(t.kids), t.id);
    }
  }

  lemma {:induction false} KidsLeafChain(keys: seq<nat>, kids: seq<Tree>, after: nat, lo: nat, hi: nat, h: nat)
    requires Branching(keys, kids, lo, hi, h) && AllChained(kids, after) && AllDistinct(kids)
    ensures var ls := AllLeaves(kids);
            && ls != [] && ls[0].id == FirstLeaf(kids[0]) && Linked(ls, after)
            && DistinctIds(ls, AllPages(kids)) && Concat(ls) == AllCells(kids)
    decreases kids, 0
  {
    hide Linked, DistinctIds, Concat, PagesOf, Separators, WellFormed, CellsOf, Leaves, Chained;
    LeafChain(kids[0], AfterKid(kids, 0, after), false, lo, HighOf(keys, 0, hi), h);
    if keys == [] {
      assert kids == [kids[0]];
      assert AllLeaves(kids) == Leaves(kids[0]);
      Single(kids[0]);
    } else {
      BranchingCut(keys, kids, 0, lo, hi, h);
      CutChain(kids, 1, after);
      KidsLeafChain(keys[1..], kids[1..], after, keys[0], hi, h);
      LinkedAppend(Leaves(kids[0]), AllLeaves(kids[1..]), after);
      IdsAppend(Leaves(kids[0]), AllLeaves(kids[1..]), PagesOf(kids[0]), AllPages(kids[1..]));
      ConcatAppend(Leaves(kids[0]), AllLeaves(kids[1..]));
    }
  }
}
