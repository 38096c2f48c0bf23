/**
 * The B-tree as a value. `Edit` is what an insertion (or a tombstone) does to it, split by split and
 * page id by page id; the lemmas say what every edit keeps.
 */
module Tree {
  import opened Cells
  import opened NodePage

  /** Cells kept by the left half of a full leaf, and keys kept by the left half of a full node. */
  const SPLIT: int := (NODE_MAX_CELLS + 1) / 2
  const MIN_FILL: int := NODE_MAX_CELLS / 2

  datatype Tree =
    | Leaf(id: nat, cells: seq<Cell>, next: nat)
    | Inner(id: nat, keys: seq<nat>, kids: seq<Tree>)

  // ---------------------------------------------------------------- contents, pages, leaf order

  function CellsOf(t: Tree): seq<Cell>
    decreases t, 1
  {
    match t
    case Leaf(_, cells, _) => cells
    case Inner(_, _, kids) => AllCells(kids)
  }

  function AllCells(ts: seq<Tree>): seq<Cell>
    decreases ts, 0
  {
    if ts == [] then [] else CellsOf(ts[0]) + AllCells(ts[1..])
  }

  ghost function PagesOf(t: Tree): set<nat>
    decreases t, 1
  {
    match t
    case Leaf(id, _, _) => {id}
    case Inner(id, _, kids) => {id} + AllPages(kids)
  }

  ghost function AllPages(ts: seq<Tree>): set<nat>
    decreases ts, 0
  {
    if ts == [] then {} else PagesOf(ts[0]) + AllPages(ts[1..])
  }

  /** No page is used twice. */
  ghost predicate Distinct(t: Tree)
    decreases t, 1
  {
    t.Inner? ==> t.id !in AllPages(t.kids) && AllDistinct(t.kids)
  }

  ghost predicate AllDistinct(ts: seq<Tree>)
    decreases ts, 0
  {
    ts != [] ==> Distinct(ts[0]) && AllDistinct(ts[1..]) && PagesOf(ts[0]) !! AllPages(ts[1..])
  }

  ghost function Count(t: Tree): (n: nat)
    decreases t, 1
  {
    match t
    case Leaf(_, _, _) => 1
    case Inner(_, _, kids) => 1 + CountAll(kids)
  }

  ghost function CountAll(ts: seq<Tree>): (n: nat)
    decreases ts, 0
  {
    if ts == [] then 0 else Count(ts[0]) + CountAll(ts[1..])
  }

  ghost function FirstLeaf(t: Tree): nat
  {
    match t
    case Leaf(id, _, _) => id
    case Inner(_, _, kids) => if kids == [] then 0 else FirstLeaf(kids[0])
  }

  ghost function AfterKid(kids: seq<Tree>, i: nat, after: nat): nat
    requires i < |kids|
  {
    if i + 1 < |kids| then FirstLeaf(kids[i + 1]) else after
  }

  /** Every leaf links to the next one in key order; the last links to `after`. */
  ghost predicate Chained(t: Tree, after: nat)
    decreases t, 1
  {
    match t
    case Leaf(_, _, next) => next == after
    case Inner(_, _, kids) => AllChained(kids, after)
  }

  ghost predicate AllChained(kids: seq<Tree>, after: nat)
    decreases kids, 0
  {
    forall i | 0 <= i < |kids| :: Chained(kids[i], AfterKid(kids, i, after))
  }

  // ---------------------------------------------------------------- search-tree order and balance

  ghost function LowOf(keys: seq<nat>, i: nat, lo: nat): nat
    requires i <= |keys|
  {
    if i == 0 then lo else keys[i - 1]
  }

  ghost function HighOf(keys: seq<nat>, i: nat, hi: nat): nat
    requires i <= |keys|
  {
    if i == |keys| then hi else keys[i]
  }

  ghost predicate Separators(keys: seq<nat>, lo: nat, hi: nat) {
    && (forall i, j | 0 <= i < j < |keys| :: keys[i] < keys[j])
    && (forall i | 0 <= i < |keys| :: lo < keys[i] < hi)
  }

  /**
   * A search tree over keys in [lo, hi) whose leaves are all `h` levels down and whose nodes,
   * except a root, are at least half full.
   */
  ghost predicate WellFormed(t: Tree, root: bool, lo: nat, hi: nat, h: nat)
    decreases t, 1
  {
    match t
    case Leaf(_, cells, _) =>
      && h == 0 && Sorted(cells) && Between(cells, lo, hi)
      && (if root then 0 else MIN_FILL) <= |cells| <= NODE_MAX_CELLS
    case Inner(_, keys, kids) =>
      && h > 0 && (if root then 1 else MIN_FILL) <= |keys| <= NODE_MAX_CELLS
      && Branching(keys, kids, lo, hi, h - 1)
  }

  /** `kids` are separated by `keys`, each of height `h`. */
  ghost predicate Branching(keys: seq<nat>, kids: seq<Tree>, lo: nat, hi: nat, h: nat)
    decreases kids, 0
  {
    && |kids| == |keys| + 1 && Separators(keys, lo, hi)
    && forall i | 0 <= i < |kids| :: WellFormed(kids[i], false, LowOf(keys, i, lo), HighOf(keys, i, hi), h)
  }

  // ---------------------------------------------------------------- the edit

  /** The child a descent for `k` takes: the first separator above `k`, or the rightmost child. */
  function Route(keys: seq<nat>, k: nat): (i: nat)
    ensures i <= |keys|
    ensures forall j | 0 <= j < i :: keys[j] <= k
    ensures i < |keys| ==> k < keys[i]
  {
    if keys == [] || k < keys[0] then 0 else 1 + Route(keys[1..], k)
  }

  datatype Split = One(t: Tree) | Two(left: Tree, sep: nat, right: Tree) {
    /** The subtrees that now stand where one stood. */
    function Parts(): seq<Tree> {
      match this
      case One(t) => [t]
      case Two(l, _, r) => [l, r]
    }

    function Seps(): seq<nat> {
      if One? then [] else [sep]
    }
  }

  /** A split, with the page allocator's next id after it. */
  datatype Grown = Grown(split: Split, next: nat)

  function SplitLeaf(id: nat, cells: seq<Cell>, link: nat, next: nat): Grown
    requires |cells| > SPLIT
  {
    Grown(Two(Leaf(id, cells[..SPLIT], next), cells[SPLIT].key, Leaf(next, cells[SPLIT..], link)), next + 1)
  }

  function EditLeaf(t: Tree, k: nat, v: nat, next: nat): Grown
    requires t.Leaf?
  {
    var cells := Put(t.cells, k, v);
    if |cells| <= NODE_MAX_CELLS then Grown(One(t.(cells := cells)), next)
    else SplitLeaf(t.id, cells, t.next, next)
  }

  function SplitInner(id: nat, keys: seq<nat>, kids: seq<Tree>, next: nat): Grown
    requires |keys| > SPLIT && |kids| == |keys| + 1
  {
    Grown(Two(Inner(id, keys[..SPLIT], kids[..SPLIT + 1]), keys[SPLIT],
              Inner(next, keys[SPLIT + 1..], kids[SPLIT + 1..])), next + 1)
  }

  function Splice<T>(s: seq<T>, i: nat, n: nat, m: seq<T>): seq<T>
    requires i + n <= |s|
  {
    s[..i] + m + s[i + n..]
  }

  /** An inner node takes in what became of its child at `slot`, splitting itself if it overflows. */
  function Absorb(t: Tree, slot: nat, g: Grown): Grown
    requires t.Inner? && |t.kids| == |t.keys| + 1 && slot <= |t.keys|
  {
    var keys := Splice(t.keys, slot, 0, g.split.Seps());
    var kids := Splice(t.kids, slot, 1, g.split.Parts());
    if |keys| <= NODE_MAX_CELLS then Grown(One(Inner(t.id, keys, kids)), g.next)
    else SplitInner(t.id, keys, kids, g.next)
  }

  function Edit(t: Tree, k: nat, v: nat, next: nat): Grown
    decreases t
  {
    match t
    case Leaf(_, _, _) => EditLeaf(t, k, v, next)
    case Inner(_, keys, kids) =>
      var i := Route(keys, k);
      if |kids| != |keys| + 1 then Grown(One(t), next) // never so in a well-formed tree
      else Absorb(t, i, Edit(kids[i], k, v, next))
  }

  /** The root keeps its page: a split root's left half moves to a fresh page. */
  function Crown(g: Grown): (Tree, nat) {
    match g.split
    case One(t) => (t, g.next)
    case Two(l, sep, r) => (Inner(l.id, [sep], [l.(id := g.next), r]), g.next + 1)
  }
}
