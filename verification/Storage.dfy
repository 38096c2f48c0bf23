/**
 * How a tree lies in a page map, the path a descent records, and what has to be written where for
 * the page map to hold the edited tree.
 */
module Storage {
  import opened Bytes
  import opened NodePage
  import opened Cells
  import opened Tree
  import opened TreeEdits
  import opened Index
  import opened BTreePages

  type PageMap = imap<nat, seq<byte>>

  ghost function NodeAt(v: PageMap, p: nat): (f: Fields)
  {
    if p in v && |v[p]| == PAGE_SIZE then FieldsOf(v[p]) else Fields(0, false, 0, 0, [], [])
  }

  function Ids(ts: seq<Tree>): (ids: seq<nat>)
    ensures |ids| == |ts| && forall i | 0 <= i < |ts| :: ids[i] == ts[i].id
  {
    seq(|ts|, i requires 0 <= i < |ts| => ts[i].id)
  }

  /** Every node of the tree is on its page, and only the root's page carries the root flag. */
  ghost predicate Stored(v: PageMap, t: Tree, root: bool)
    decreases t
  {
    match t
    case Leaf(id, cells, next) => LeafPage(NodeAt(v, id), root, cells, next)
    case Inner(id, keys, kids) =>
      && InnerPage(NodeAt(v, id), root, keys, Ids(kids))
      && forall i | 0 <= i < |kids| :: Stored(v, kids[i], false)
  }

  ghost predicate AllStored(v: PageMap, ts: seq<Tree>) {
    forall i | 0 <= i < |ts| :: Stored(v, ts[i], false)
  }

  ghost predicate SameOn(v: PageMap, w: PageMap, pages: set<nat>) {
    forall p | p in pages :: NodeAt(v, p) == NodeAt(w, p)
  }

  /** Only the pages in `pages` differ. */
  ghost predicate SameBut(v: PageMap, w: PageMap, pages: set<nat>) {
    forall p: nat | p !in pages :: p in v && p in w && v[p] == w[p]
  }

  lemma OutsideSame(v: PageMap, w: PageMap, changed: set<nat>, pages: set<nat>)
    requires SameBut(v, w, changed) && changed !! pages
    ensures SameOn(v, w, pages)
  {
  }

  lemma {:induction false} StoredSame(v: PageMap, w: PageMap, t: Tree, root: bool)
    requires Stored(v, t, root) && SameOn(v, w, PagesOf(t))
    ensures Stored(w, t, root)
    decreases t
  {
    if t.Leaf? {
    } else {
      assert t.id in PagesOf(t);
      forall i | 0 <= i < |t.kids|
        ensures Stored(w, t.kids[i], false)
      {
        Around(t.kids, i);
        StoredSame(v, w, t.kids[i], false);
      }
    }
  }

  lemma AllStoredSame(v: PageMap, w: PageMap, ts: seq<Tree>)
    requires AllStored(v, ts) && SameOn(v, w, AllPages(ts))
    ensures AllStored(w, ts)
  {
    forall i | 0 <= i < |ts|
      ensures Stored(w, ts[i], false)
    {
      Around(ts, i);
      StoredSame(v, w, ts[i], false);
    }
  }

  // ---------------------------------------------------------------- the recorded path

  /** One step of a descent: an inner node and the slot taken. */
  datatype Frame = Frame(node: Tree, slot: nat)

  /** `path` leads from `t` down to `cur` along the children that `k` routes to. */
  ghost predicate Routed(t: Tree, path: seq<Frame>, cur: Tree, k: nat)
    decreases |path|
  {
    if path == [] then t == cur
    else
      var f := path[|path| - 1];
      && f.node.Inner? && |f.node.kids| == |f.node.keys| + 1
      && f.slot == Route(f.node.keys, k) && cur == f.node.kids[f.slot]
      && Routed(t, path[..|path| - 1], f.node, k)
  }

  /** A well-formed subtree of height `h` for an interval around `k`. */
  ghost predicate FormedFor(t: Tree, root: bool, k: nat, h: nat) {
    exists lo: nat, hi: nat :: WellFormed(t, root, lo, hi, h) && lo <= k < hi
  }

  lemma KidFormed(t: Tree, root: bool, k: nat, h: nat)
    requires FormedFor(t, root, k, h) && t.Inner?
    ensures h > 0 && |t.kids| == |t.keys| + 1 && (if root then 1 else MIN_FILL) <= |t.keys| <= NODE_MAX_CELLS
    ensures FormedFor(t.kids[Route(t.keys, k)], false, k, h - 1)
  {
    var lo: nat, hi: nat :| WellFormed(t, root, lo, hi, h) && lo <= k < hi;
    var i := Route(t.keys, k);
    assert Branching(t.keys, t.kids, lo, hi, h - 1);
    RouteCovers(t.keys, k, lo, hi);
    assert WellFormed(t.kids[i], false, LowOf(t.keys, i, lo), HighOf(t.keys, i, hi), h - 1);
  }

  /** What the descent knows about the subtree it has reached. */
  lemma {:induction false} PathFacts(v: PageMap, t: Tree, path: seq<Frame>, cur: Tree, k: nat, h: nat)
    requires Routed(t, path, cur, k) && FormedFor(t, true, k, h) && Distinct(t) && Stored(v, t, true)
    ensures |path| <= h && FormedFor(cur, path == [], k, h - |path|)
    ensures Distinct(cur) && PagesOf(cur) <= PagesOf(t) && Stored(v, cur, path == [])
    decreases |path|
  {
    hide WellFormed, InnerPage, LeafPage, NodeAt;
    if path == [] {
    } else {
      var f := path[|path| - 1];
      PathFacts(v, t, path[..|path| - 1], f.node, k, h);
      KidFormed(f.node, |path| == 1, k, h - |path| + 1);
      Around(f.node.kids, f.slot);
    }
  }

  // ---------------------------------------------------------------- pieces of a node after an edit

  lemma SplicedIds(kids: seq<Tree>, slot: nat, l: Tree, r: Tree)
    requires slot < |kids| && l.id == kids[slot].id
    ensures Ids(Splice(kids, slot, 1, [l, r])) == Splice(Ids(kids), slot + 1, 0, [r.id])
  {
    var ts, js := Splice(kids, slot, 1, [l, r]), Splice(Ids(kids), slot + 1, 0, [r.id]);
    forall i | 0 <= i < |ts|
      ensures ts[i].id == js[i]
    {
      if i > slot + 1 {
        assert ts[i] == kids[i - 1];
      }
    }
  }

  lemma SplicedStored(w: PageMap, kids: seq<Tree>, slot: nat, parts: seq<Tree>)
    requires slot < |kids| && AllStored(w, kids[..slot]) && AllStored(w, kids[slot + 1..]) && AllStored(w, parts)
    ensures AllStored(w, Splice(kids, slot, 1, parts))
  {
    var ts := Splice(kids, slot, 1, parts);
    forall i | 0 <= i < |ts|
      ensures Stored(w, ts[i], false)
    {
      if i < slot {
        assert ts[i] == kids[..slot][i];
      } else if i < slot + |parts| {
        assert ts[i] == parts[i - slot];
      } else {
        assert ts[i] == kids[slot + 1..][i - slot - |parts|];
      }
    }
  }

  /** Rewriting the pages of one child leaves its parent's page and its siblings as they were. */
  lemma SiblingsKept(v: PageMap, w: PageMap, t: Tree, slot: nat, root: bool, changed: set<nat>)
    requires t.Inner? && slot < |t.kids| && Distinct(t) && Stored(v, t, root)
    requires SameBut(v, w, changed) && changed * PagesOf(t) <= PagesOf(t.kids[slot])
    ensures NodeAt(w, t.id) == NodeAt(v, t.id)
    ensures AllStored(w, t.kids[..slot]) && AllStored(w, t.kids[slot + 1..])
  {
    Around(t.kids, slot);
    assert t.id in PagesOf(t);
    AllStoredSame(v, w, t.kids[..slot]);
    AllStoredSame(v, w, t.kids[slot + 1..]);
  }

  /** A node one of whose children was replaced in place. */
  lemma ReplacedStored(v: PageMap, w: PageMap, t: Tree, slot: nat, c: Tree, root: bool, changed: set<nat>)
    requires t.Inner? && |t.kids| == |t.keys| + 1 && slot <= |t.keys| && Distinct(t) && Stored(v, t, root)
    requires SameBut(v, w, changed) && changed * PagesOf(t) <= PagesOf(t.kids[slot])
    requires Stored(w, c, false) && c.id == t.kids[slot].id
    ensures Stored(w, Inner(t.id, Splice(t.keys, slot, 0, []), Splice(t.kids, slot, 1, [c])), root)
  {
    hide InnerPage, NodeAt;
    SiblingsKept(v, w, t, slot, root, changed);
    assert AllStored(w, [c]);
    SplicedStored(w, t.kids, slot, [c]);
    assert Splice(t.keys, slot, 0, []) == t.keys;
    assert Ids(Splice(t.kids, slot, 1, [c])) == Ids(t.kids);
    hide Splice;
    InnerStored(w, t.id, t.keys, Splice(t.kids, slot, 1, [c]), root);
  }

  lemma InnerStored(w: PageMap, id: nat, keys: seq<nat>, kids: seq<Tree>, root: bool)
    requires InnerPage(NodeAt(w, id), root, keys, Ids(kids)) && AllStored(w, kids)
    ensures Stored(w, Inner(id, keys, kids), root)
  {
  }

  lemma EditUnsplit(t: Tree, k: nat, x: nat, next: nat)
    requires t.Inner? && |t.kids| == |t.keys| + 1 && |t.keys| <= NODE_MAX_CELLS
    requires Edit(t.kids[Route(t.keys, k)], k, x, next).split.One?
    ensures var i := Route(t.keys, k);
            var g := Edit(t.kids[i], k, x, next);
            Edit(t, k, x, next)
            == Grown(One(Inner(t.id, Splice(t.keys, i, 0, []), Splice(t.kids, i, 1, [g.split.t]))), g.next)
  {
  }

  /** When an edit below did not split, neither does anything above it. */
  lemma {:induction false} UnsplitUpward(v: PageMap, w: PageMap, t: Tree, path: seq<Frame>, cur: Tree,
                                         k: nat, x: nat, next: nat, h: nat, changed: set<nat>)
    requires Routed(t, path, cur, k) && FormedFor(t, true, k, h) && Distinct(t) && Stored(v, t, true)
    requires Edit(cur, k, x, next).split.One? && Stored(w, Edit(cur, k, x, next).split.t, path == [])
    requires Edit(cur, k, x, next).split.t.id == cur.id
    requires SameBut(v, w, changed) && changed * PagesOf(t) <= PagesOf(cur)
    ensures var g := Edit(t, k, x, next);
            g.split.One? && g.next == Edit(cur, k, x, next).next && Stored(w, g.split.t, true)
    decreases |path|
  {
    hide Edit, Splice, NodeAt, InnerPage, LeafPage, Stored, Distinct;
    if path == [] {
    } else {
      var f := path[|path| - 1];
      var up := path[..|path| - 1];
      PathFacts(v, t, up, f.node, k, h);
      KidFormed(f.node, up == [], k, h - |up|);
      var c := Edit(cur, k, x, next).split.t;
      Around(f.node.kids, f.slot);
      assert changed * PagesOf(f.node) <= PagesOf(cur);
      ReplacedStored(v, w, f.node, f.slot, c, up == [], changed);
      EditUnsplit(f.node, k, x, next);
      UnsplitUpward(v, w, t, up, f.node, k, x, next, h, changed);
    }
  }

  // ---------------------------------------------------------------- climbing back up after a split

  /**
   * `v` holds the two halves the edit made of `cur`; apart from them it is still the page map `v0`
   * in which the whole tree lay, and their parent has not been told.
   */
  ghost predicate Climbing(v0: PageMap, v: PageMap, t: Tree, h: nat, path: seq<Frame>, cur: Tree,
                           k: nat, x: nat, next: nat) {
    && IsIndex(t, h) && k < TWO_32 && Stored(v0, t, true) && PagesBelow(t, next) && Routed(t, path, cur, k)
    && var g := Edit(cur, k, x, next);
       && g.split.Two? && AllStored(v, g.split.Parts())
       && SameBut(v0, v, PagesOf(cur) + Span(next, g.next))
  }

  lemma RootFormed(t: Tree, h: nat, k: nat)
    requires IsIndex(t, h) && k < TWO_32
    ensures FormedFor(t, true, k, h)
  {
    assert WellFormed(t, true, 0, TWO_32, h);
  }

  /** The separator a child's split pushes up belongs exactly where the descent passed. */
  lemma SeparatorRoute(t: Tree, root: bool, k: nat, x: nat, next: nat, h: nat)
    requires FormedFor(t, root, k, h) && t.Inner? && |t.kids| == |t.keys| + 1
    requires Edit(t.kids[Route(t.keys, k)], k, x, next).split.Two?
    ensures Route(t.keys, Edit(t.kids[Route(t.keys, k)], k, x, next).split.sep) == Route(t.keys, k)
  {
    hide Edit;
    var lo: nat, hi: nat :| WellFormed(t, root, lo, hi, h) && lo <= k < hi;
    var i := Route(t.keys, k);
    assert Branching(t.keys, t.kids, lo, hi, h - 1);
    RouteCovers(t.keys, k, lo, hi);
    EditFormed(t.kids[i], k, x, next, false, LowOf(t.keys, i, lo), HighOf(t.keys, i, hi), h - 1);
    RouteUnique(t.keys, Edit(t.kids[i], k, x, next).split.sep, i);
  }

  /** The parent at the end of a path, before the climb: well formed, on its page in `v0`, above `cur`. */
  lemma ClimbParent(v0: PageMap, t: Tree, h: nat, path: seq<Frame>, cur: Tree, k: nat)
    requires IsIndex(t, h) && k < TWO_32 && Stored(v0, t, true) && Routed(t, path, cur, k) && path != []
    ensures var f, up := path[|path| - 1], path[..|path| - 1];
            && |up| < h && FormedFor(f.node, up == [], k, h - |up|)
            && f.node.Inner? && |f.node.kids| == |f.node.keys| + 1
            && 1 <= |f.node.keys| <= NODE_MAX_CELLS && f.slot <= |f.node.keys|
            && f.slot == Route(f.node.keys, k) && cur == f.node.kids[f.slot] && Routed(t, up, f.node, k)
            && Distinct(f.node) && PagesOf(f.node) <= PagesOf(t) && Stored(v0, f.node, up == [])
  {
    hide InnerPage, LeafPage, WellFormed, Chained, NodeAt, Distinct, PagesOf;
    var f, up := path[|path| - 1], path[..|path| - 1];
    RootFormed(t, h, k);
    PathFacts(v0, t, path, cur, k, h);
    PathFacts(v0, t, up, f.node, k, h);
    KidFormed(f.node, up == [], k, h - |up|);
  }

  lemma KidsApart(t: Tree)
    requires t.Inner? && Distinct(t)
    ensures t.id !in AllPages(t.kids) && AllPages(t.kids) <= PagesOf(t)
  {
  }

  lemma ChildApart(t: Tree, slot: nat)
    requires t.Inner? && slot < |t.kids| && Distinct(t)
    ensures var c := t.kids[slot];
            Distinct(c) && PagesOf(c) <= PagesOf(t) && t.id in PagesOf(t) && t.id !in PagesOf(c)
  {
    Around(t.kids, slot);
  }

  /** What holds of the parent of the child that has just been split. */
  lemma ClimbFacts(v0: PageMap, v: PageMap, t: Tree, h: nat, path: seq<Frame>, cur: Tree, k: nat, x: nat, next: nat)
    requires Climbing(v0, v, t, h, path, cur, k, x, next) && path != []
    ensures var f, up := path[|path| - 1], path[..|path| - 1];
            var g := Edit(cur, k, x, next);
            && |up| < h && FormedFor(f.node, up == [], k, h - |up|)
            && f.node.Inner? && |f.node.kids| == |f.node.keys| + 1 && g.split.Two?
            && 1 <= |f.node.keys| <= NODE_MAX_CELLS && f.slot <= |f.node.keys|
            && Distinct(f.node) && PagesOf(f.node) <= PagesOf(t) && Stored(v0, f.node, up == [])
            && f.node.id in PagesOf(f.node) && f.node.id !in PagesOf(cur) && f.node.id < next
            && InnerPage(NodeAt(v, f.node.id), up == [], f.node.keys, Ids(f.node.kids))
            && AllStored(v, f.node.kids[..f.slot]) && AllStored(v, f.node.kids[f.slot + 1..])
            && next <= g.next && AllPages(g.split.Parts()) == PagesOf(cur) + Span(next, g.next)
            && g.split.left.id == cur.id && Route(f.node.keys, g.split.sep) == f.slot
            && PagesOf(cur) <= PagesOf(f.node)
  {
    hide Edit, InnerPage, LeafPage, WellFormed, Chained, NodeAt, FormedFor, Stored, SameBut, Routed, Distinct,
      AllDistinct, PagesOf, AllPages, AllStored;
    var f, up := path[|path| - 1], path[..|path| - 1];
    ClimbParent(v0, t, h, path, cur, k);
    ChildApart(f.node, f.slot);
    EditPages(cur, k, x, next);
    SeparatorRoute(f.node, up == [], k, x, next, h - |up|);
    SiblingsKept(v0, v, f.node, f.slot, up == [], PagesOf(cur) + Span(next, Edit(cur, k, x, next).next));
    StoredRoot(v0, f.node, up == []);
  }

  lemma StoredRoot(v: PageMap, t: Tree, root: bool)
    requires t.Inner? && Stored(v, t, root)
    ensures InnerPage(NodeAt(v, t.id), root, t.keys, Ids(t.kids))
  {
  }

  lemma EditSplitBelow(t: Tree, k: nat, x: nat, next: nat)
    requires t.Inner? && |t.kids| == |t.keys| + 1 && |t.keys| <= NODE_MAX_CELLS
    requires Edit(t.kids[Route(t.keys, k)], k, x, next).split.Two?
    ensures var i := Route(t.keys, k);
            var g := Edit(t.kids[i], k, x, next);
            var ks := Splice(t.keys, i, 0, [g.split.sep]);
            var us := Splice(t.kids, i, 1, [g.split.left, g.split.right]);
            && |ks| == |t.keys| + 1 && |us| == |t.kids| + 1
            && Edit(t, k, x, next) == if |t.keys| < NODE_MAX_CELLS then Grown(One(Inner(t.id, ks, us)), g.next)
                                      else SplitInner(t.id, ks, us, g.next)
  {
  }

  /** The pages of the parent's children after the split, once only pages outside them have changed again. */
  lemma ChildrenStored(v0: PageMap, v: PageMap, w: PageMap, t: Tree, h: nat, path: seq<Frame>, cur: Tree,
                       k: nat, x: nat, next: nat, changed: set<nat>)
    requires Climbing(v0, v, t, h, path, cur, k, x, next) && path != []
    requires SameBut(v, w, changed)
    requires var f := path[|path| - 1];
             changed !! AllPages(f.node.kids) + Span(next, Edit(cur, k, x, next).next)
    ensures var f, g := path[|path| - 1], Edit(cur, k, x, next);
            AllStored(w, Splice(f.node.kids, f.slot, 1, [g.split.left, g.split.right]))
  {
    hide SameOn, SameBut, InnerPage, LeafPage, WellFormed, NodeAt, Edit, Splice, Stored;
    ClimbFacts(v0, v, t, h, path, cur, k, x, next);
    var f, g := path[|path| - 1], Edit(cur, k, x, next);
    Around(f.node.kids, f.slot);
    OutsideSame(v, w, changed, AllPages(f.node.kids[..f.slot]));
    OutsideSame(v, w, changed, AllPages(f.node.kids[f.slot + 1..]));
    OutsideSame(v, w, changed, AllPages(g.split.Parts()));
    AllStoredSame(v, w, f.node.kids[..f.slot]);
    AllStoredSame(v, w, f.node.kids[f.slot + 1..]);
    AllStoredSame(v, w, g.split.Parts());
    SplicedStored(w, f.node.kids, f.slot, g.split.Parts());
  }

  /** The parent had room: the tree is whole again. */
  lemma AbsorbedUp(v0: PageMap, v: PageMap, w: PageMap, t: Tree, h: nat, path: seq<Frame>, cur: Tree,
                   k: nat, x: nat, next: nat)
    requires Climbing(v0, v, t, h, path, cur, k, x, next) && path != []
    requires var f, g := path[|path| - 1], Edit(cur, k, x, next);
             && f.slot <= |f.node.keys| < NODE_MAX_CELLS && SameBut(v, w, {f.node.id})
             && InnerPage(NodeAt(w, f.node.id), |path| == 1, Splice(f.node.keys, f.slot, 0, [g.split.sep]),
                          Splice(Ids(f.node.kids), f.slot + 1, 0, [g.split.right.id]))
    ensures var g, (u, n) := Edit(cur, k, x, next), EditTree(t, k, x, next);
            n == g.next && Stored(w, u, true) && SameBut(v0, w, PagesOf(t) + Span(next, n))
  {
    hide Edit, Splice, InnerPage, LeafPage, WellFormed, Stored, AllStored, NodeAt, Distinct, Chained, Routed, Ids;
    var f, up, g := path[|path| - 1], path[..|path| - 1], Edit(cur, k, x, next);
    ClimbFacts(v0, v, t, h, path, cur, k, x, next);
    ClimbParent(v0, t, h, path, cur, k);
    KidsApart(f.node);
    EditSplitBelow(f.node, k, x, next);
    ChildrenStored(v0, v, w, t, h, path, cur, k, x, next, {f.node.id});
    SplicedIds(f.node.kids, f.slot, g.split.left, g.split.right);
    InnerStored(w, f.node.id, Splice(f.node.keys, f.slot, 0, [g.split.sep]),
                Splice(f.node.kids, f.slot, 1, [g.split.left, g.split.right]), up == []);
    RootFormed(t, h, k);
    UnsplitUpward(v0, w, t, up, f.node, k, x, next, h, PagesOf(f.node) + Span(next, g.next));
  }

  lemma StoredPrefix(w: PageMap, us: seq<Tree>, m: nat)
    requires AllStored(w, us) && m <= |us|
    ensures AllStored(w, us[..m]) && AllStored(w, us[m..])
    ensures Ids(us[..m]) == Ids(us)[..m] && Ids(us[m..]) == Ids(us)[m..]
  {
    assert forall i | 0 <= i < |us| - m :: us[m..][i] == us[m + i];
  }

  /** The two halves of an overfull node, written to pages `leftId` and `rightId`. */
  lemma HalvesStored(w: PageMap, ks: seq<nat>, us: seq<Tree>, leftId: nat, rightId: nat)
    requires |ks| == NODE_MAX_CELLS + 1 && |us| == |ks| + 1 && AllStored(w, us)
    requires InnerPage(NodeAt(w, leftId), false, ks[..SPLIT], Ids(us)[..SPLIT + 1])
    requires InnerPage(NodeAt(w, rightId), false, ks[SPLIT + 1..], Ids(us)[SPLIT + 1..])
    ensures Stored(w, Inner(leftId, ks[..SPLIT], us[..SPLIT + 1]), false)
    ensures Stored(w, Inner(rightId, ks[SPLIT + 1..], us[SPLIT + 1..]), false)
  {
    hide InnerPage, Stored;
    StoredPrefix(w, us, SPLIT + 1);
    InnerStored(w, leftId, ks[..SPLIT], us[..SPLIT + 1], false);
    InnerStored(w, rightId, ks[SPLIT + 1..], us[SPLIT + 1..], false);
  }

  /** The separators and child ids of an overfull node, before it is cut in two. */
  function MergedKeys(f: Frame, sep: nat): seq<nat>
    requires f.node.Inner? && f.slot <= |f.node.keys|
  {
    Splice(f.node.keys, f.slot, 0, [sep])
  }

  function MergedIds(f: Frame, right: nat): seq<nat>
    requires f.node.Inner? && f.slot < |f.node.kids|
  {
    Splice(Ids(f.node.kids), f.slot + 1, 0, [right])
  }

  /** The two halves of the overfull node are on pages `leftId` and `rightId`. */
  ghost predicate HalvesWritten(w: PageMap, f: Frame, s: Split, leftId: nat, rightId: nat) {
    && f.node.Inner? && |f.node.keys| == NODE_MAX_CELLS && |f.node.kids| == |f.node.keys| + 1
    && f.slot <= |f.node.keys| && s.Two?
    && var ks, js := MergedKeys(f, s.sep), MergedIds(f, s.right.id);
       && InnerPage(NodeAt(w, leftId), false, ks[..SPLIT], js[..SPLIT + 1])
       && InnerPage(NodeAt(w, rightId), false, ks[SPLIT + 1..], js[SPLIT + 1..])
  }

  /** Writing the left half in place and then the right half on another page. */
  lemma HalvesDone(v: PageMap, w: PageMap, z: PageMap, f: Frame, s: Split, leftId: nat, rightId: nat)
    requires SameBut(v, w, {leftId}) && SameBut(w, z, {rightId}) && leftId != rightId
    requires f.node.Inner? && |f.node.keys| == NODE_MAX_CELLS && |f.node.kids| == |f.node.keys| + 1
    requires f.slot <= |f.node.keys| && s.Two?
    requires var ks, js := MergedKeys(f, s.sep), MergedIds(f, s.right.id);
             && |ks| == NODE_MAX_CELLS + 1 && |js| == NODE_MAX_CELLS + 2
             && InnerPage(NodeAt(w, leftId), false, ks[0..0 + SPLIT], js[0..0 + SPLIT + 1])
             && InnerPage(NodeAt(z, rightId), false, ks[SPLIT + 1..SPLIT + 1 + (NODE_MAX_CELLS - SPLIT)],
                          js[SPLIT + 1..SPLIT + 1 + (NODE_MAX_CELLS - SPLIT) + 1])
    ensures HalvesWritten(z, f, s, leftId, rightId) && SameBut(v, z, {leftId, rightId})
  {
    hide InnerPage, MergedKeys, MergedIds;
    assert NodeAt(z, leftId) == NodeAt(w, leftId);
    var ks, js := MergedKeys(f, s.sep), MergedIds(f, s.right.id);
    assert ks[0..0 + SPLIT] == ks[..SPLIT] && js[0..0 + SPLIT + 1] == js[..SPLIT + 1];
    assert ks[SPLIT + 1..SPLIT + 1 + (NODE_MAX_CELLS - SPLIT)] == ks[SPLIT + 1..];
    assert js[SPLIT + 1..SPLIT + 1 + (NODE_MAX_CELLS - SPLIT) + 1] == js[SPLIT + 1..];
  }

  lemma SameAsItself(v: PageMap, a: set<nat>)
    requires forall p: nat :: p in v
    ensures SameBut(v, v, a)
  {
  }

  lemma SameButTwice(v: PageMap, w: PageMap, z: PageMap, a: set<nat>, b: set<nat>)
    requires SameBut(v, w, a) && SameBut(w, z, b)
    ensures SameBut(v, z, a + b)
  {
  }

  /** Clearing a root flag that is clear already. */
  lemma HalvesKept(w: PageMap, z: PageMap, f: Frame, s: Split, leftId: nat, rightId: nat)
    requires HalvesWritten(w, f, s, leftId, rightId) && SameBut(w, z, {leftId}) && leftId != rightId
    requires NodeAt(z, leftId) == NodeAt(w, leftId).(isRoot := false)
    ensures HalvesWritten(z, f, s, leftId, rightId)
  {
    hide MergedKeys, MergedIds, HoldsBranches;
    assert NodeAt(w, leftId).(isRoot := false) == NodeAt(w, leftId);
  }

  /** Moving the left half to a fresh page and reusing its old page. */
  lemma HalvesMoved(u: PageMap, w: PageMap, z: PageMap, f: Frame, s: Split, nodeId: nat, leftId: nat, rightId: nat)
    requires HalvesWritten(u, f, s, nodeId, rightId) && nodeId != rightId && leftId != nodeId && leftId != rightId
    requires SameBut(u, w, {leftId}) && NodeAt(w, leftId) == NodeAt(u, nodeId).(isRoot := false)
    requires SameBut(w, z, {nodeId})
    ensures HalvesWritten(z, f, s, leftId, rightId)
  {
    hide MergedKeys, MergedIds, HoldsBranches;
    assert NodeAt(u, nodeId).(isRoot := false) == NodeAt(u, nodeId);
    assert NodeAt(z, leftId) == NodeAt(w, leftId) && NodeAt(z, rightId) == NodeAt(u, rightId);
  }

  /** The cut of an overfull node, read off the two pages. */
  lemma HalvesRead(w: PageMap, f: Frame, s: Split, leftId: nat, rightId: nat)
    requires HalvesWritten(w, f, s, leftId, rightId) && s.left.id == f.node.kids[f.slot].id
    requires AllStored(w, Splice(f.node.kids, f.slot, 1, [s.left, s.right]))
    ensures var ks, us := MergedKeys(f, s.sep), Splice(f.node.kids, f.slot, 1, [s.left, s.right]);
            && |ks| == NODE_MAX_CELLS + 1 && |us| == |ks| + 1
            && Stored(w, Inner(leftId, ks[..SPLIT], us[..SPLIT + 1]), false)
            && Stored(w, Inner(rightId, ks[SPLIT + 1..], us[SPLIT + 1..]), false)
  {
    hide InnerPage, Stored;
    SplicedIds(f.node.kids, f.slot, s.left, s.right);
    HalvesStored(w, MergedKeys(f, s.sep), Splice(f.node.kids, f.slot, 1, [s.left, s.right]), leftId, rightId);
  }

  lemma RootHalvesRead(w: PageMap, f: Frame, s: Split, leftId: nat, rightId: nat)
    requires HalvesWritten(w, f, s, leftId, rightId) && s.left.id == f.node.kids[f.slot].id
    requires AllStored(w, Splice(f.node.kids, f.slot, 1, [s.left, s.right]))
    requires InnerPage(NodeAt(w, f.node.id), true, [MergedKeys(f, s.sep)[SPLIT]], [leftId, rightId])
    ensures var ks, us := MergedKeys(f, s.sep), Splice(f.node.kids, f.slot, 1, [s.left, s.right]);
            && |ks| == NODE_MAX_CELLS + 1 && |us| == |ks| + 1
            && var l, r := Inner(leftId, ks[..SPLIT], us[..SPLIT + 1]), Inner(rightId, ks[SPLIT + 1..], us[SPLIT + 1..]);
               Stored(w, Inner(f.node.id, [ks[SPLIT]], [l, r]), true)
  {
    hide InnerPage, Stored;
    HalvesRead(w, f, s, leftId, rightId);
    var ks, us := MergedKeys(f, s.sep), Splice(f.node.kids, f.slot, 1, [s.left, s.right]);
    RootStored(w, f.node.id, ks[SPLIT], leftId, rightId, Inner(leftId, ks[..SPLIT], us[..SPLIT + 1]),
               Inner(rightId, ks[SPLIT + 1..], us[SPLIT + 1..]));
  }

  /** A full parent that is not the root was split in turn: the climb goes on from its own parent. */
  lemma SplitUp(v0: PageMap, v: PageMap, w: PageMap, t: Tree, h: nat, path: seq<Frame>, cur: Tree,
                k: nat, x: nat, next: nat)
    requires Climbing(v0, v, t, h, path, cur, k, x, next) && |path| > 1
    requires var f, g := path[|path| - 1], Edit(cur, k, x, next);
             HalvesWritten(w, f, g.split, f.node.id, g.next) && SameBut(v, w, {f.node.id, g.next})
    ensures var f, g := path[|path| - 1], Edit(cur, k, x, next);
            var a := Edit(f.node, k, x, next);
            && Climbing(v0, w, t, h, path[..|path| - 1], f.node, k, x, next)
            && a.next == g.next + 1 && a.split.right.id == g.next && a.split.sep == MergedKeys(f, g.split.sep)[SPLIT]
  {
    hide NodeAt, Chained, LeafPage, Edit, Splice, InnerPage, WellFormed, Stored, HalvesWritten;
    var f, g := path[|path| - 1], Edit(cur, k, x, next);
    ClimbFacts(v0, v, t, h, path, cur, k, x, next);
    EditSplitBelow(f.node, k, x, next);
    ChildrenStored(v0, v, w, t, h, path, cur, k, x, next, {f.node.id, g.next});
    HalvesRead(w, f, g.split, f.node.id, g.next);
  }

  /** What splitting a full root node makes of the tree: the left half moves to the page after the right half's. */
  lemma SplitRootEdit(t: Tree, k: nat, x: nat, next: nat)
    requires t.Inner? && |t.kids| == |t.keys| + 1 && |t.keys| == NODE_MAX_CELLS
    requires Edit(t.kids[Route(t.keys, k)], k, x, next).split.Two?
    ensures var f, g := Frame(t, Route(t.keys, k)), Edit(t.kids[Route(t.keys, k)], k, x, next);
            var ks, us := MergedKeys(f, g.split.sep), Splice(t.kids, f.slot, 1, [g.split.left, g.split.right]);
            && |ks| == NODE_MAX_CELLS + 1 && |us| == |ks| + 1
            && EditTree(t, k, x, next)
               == (Inner(t.id, [ks[SPLIT]], [Inner(g.next + 1, ks[..SPLIT], us[..SPLIT + 1]),
                                             Inner(g.next, ks[SPLIT + 1..], us[SPLIT + 1..])]), g.next + 2)
  {
    hide Edit, Splice, Route, Crown, SplitInner;
    EditSplitBelow(t, k, x, next);
    var i := Route(t.keys, k);
    var g := Edit(t.kids[i], k, x, next);
    CrownSplit(t.id, Splice(t.keys, i, 0, [g.split.sep]), Splice(t.kids, i, 1, [g.split.left, g.split.right]), g.next);
  }

  lemma CrownSplit(id: nat, ks: seq<nat>, us: seq<Tree>, n: nat)
    requires |ks| == NODE_MAX_CELLS + 1 && |us| == |ks| + 1
    ensures Crown(SplitInner(id, ks, us, n))
         == (Inner(id, [ks[SPLIT]], [Inner(n + 1, ks[..SPLIT], us[..SPLIT + 1]),
                                     Inner(n, ks[SPLIT + 1..], us[SPLIT + 1..])]), n + 2)
  {
  }

  /** A full root was split: its left half moved to a fresh page and page 0 became the new root. */
  lemma SplitRoot(v0: PageMap, v: PageMap, w: PageMap, t: Tree, h: nat, path: seq<Frame>, cur: Tree,
                  k: nat, x: nat, next: nat)
    requires Climbing(v0, v, t, h, path, cur, k, x, next) && |path| == 1
    requires var f, g := path[|path| - 1], Edit(cur, k, x, next);
             && f.node.Inner? && f.slot <= |f.node.keys| == NODE_MAX_CELLS && |f.node.kids| == |f.node.keys| + 1
             && HalvesWritten(w, f, g.split, g.next + 1, g.next) && SameBut(v, w, {f.node.id, g.next, g.next + 1})
             && InnerPage(NodeAt(w, f.node.id), true, [MergedKeys(f, g.split.sep)[SPLIT]], [g.next + 1, g.next])
    ensures var g, (u, n) := Edit(cur, k, x, next), EditTree(t, k, x, next);
            n == g.next + 2 && Stored(w, u, true) && SameBut(v0, w, PagesOf(t) + Span(next, n))
  {
    hide HalvesWritten, NodeAt, Chained, LeafPage, Edit, EditTree, Splice, InnerPage, WellFormed, Stored, MergedKeys,
      IsIndex, Distinct;
    var f, g := path[|path| - 1], Edit(cur, k, x, next);
    ClimbFacts(v0, v, t, h, path, cur, k, x, next);
    ClimbParent(v0, t, h, path, cur, k);
    assert f.node == t by {
      assert Routed(t, path[..|path| - 1], f.node, k) && path[..|path| - 1] == [];
    }
    SplitRootEdit(t, k, x, next);
    KidsApart(t);
    ChildrenStored(v0, v, w, t, h, path, cur, k, x, next, {f.node.id, g.next, g.next + 1});
    RootHalvesRead(w, f, g.split, g.next + 1, g.next);
  }

  lemma RootStored(w: PageMap, id: nat, sep: nat, leftId: nat, rightId: nat, l: Tree, r: Tree)
    requires InnerPage(NodeAt(w, id), true, [sep], [leftId, rightId])
    requires l.id == leftId && r.id == rightId && Stored(w, l, false) && Stored(w, r, false)
    ensures Stored(w, Inner(id, [sep], [l, r]), true)
  {
    assert Ids([l, r]) == [l.id, r.id];
  }

  /** A full root leaf was split. */
  lemma SplitRootLeaf(v0: PageMap, w: PageMap, t: Tree, h: nat, k: nat, x: nat, next: nat)
    requires IsIndex(t, h) && t.Leaf? && PagesBelow(t, next)
    requires |t.cells| == NODE_MAX_CELLS && !Present(t.cells, k)
    requires var d := InsertAt(t.cells, Pos(t.cells, k), Cell(k, x));
             && SameBut(v0, w, {0, next, next + 1})
             && LeafPage(NodeAt(w, next + 1), false, d[..SPLIT], next)
             && LeafPage(NodeAt(w, next), false, d[SPLIT..], t.next)
             && InnerPage(NodeAt(w, 0), true, [d[SPLIT].key], [next + 1, next])
    ensures var (u, n) := EditTree(t, k, x, next);
            n == next + 2 && Stored(w, u, true) && SameBut(v0, w, PagesOf(t) + Span(next, n))
  {
    var d := Put(t.cells, k, x);
    LookupFinds(t.cells, k);
    RootStored(w, 0, d[SPLIT].key, next + 1, next, Leaf(next + 1, d[..SPLIT], next), Leaf(next, d[SPLIT..], t.next));
  }

  /** A full leaf below the root was split: the climb starts. */
  lemma SplitLeafUp(v0: PageMap, w: PageMap, t: Tree, h: nat, path: seq<Frame>, cur: Tree, k: nat, x: nat, next: nat)
    requires IsIndex(t, h) && k < TWO_32 && Stored(v0, t, true) && PagesBelow(t, next) && Routed(t, path, cur, k)
    requires cur.Leaf? && Sorted(cur.cells) && |cur.cells| == NODE_MAX_CELLS && !Present(cur.cells, k)
    requires var d := InsertAt(cur.cells, Pos(cur.cells, k), Cell(k, x));
             && SameBut(v0, w, {cur.id, next})
             && LeafPage(NodeAt(w, cur.id), false, d[..SPLIT], next)
             && LeafPage(NodeAt(w, next), false, d[SPLIT..], cur.next)
    ensures var d, g := InsertAt(cur.cells, Pos(cur.cells, k), Cell(k, x)), Edit(cur, k, x, next);
            && Climbing(v0, w, t, h, path, cur, k, x, next)
            && g.split.sep == d[SPLIT].key && g.split.right.id == next && g.next == next + 1
  {
    hide LeafPage, InsertAt;
    LeafEditSplit(cur, k, x, next);
    hide Edit;
  }

  lemma LeafEditUnsplit(t: Tree, k: nat, x: nat, next: nat)
    requires t.Leaf? && Sorted(t.cells) && |t.cells| <= NODE_MAX_CELLS
    requires |t.cells| < NODE_MAX_CELLS || Present(t.cells, k)
    ensures Edit(t, k, x, next) == Grown(One(t.(cells := Put(t.cells, k, x))), next)
  {
    PutCells(t.cells, k, x);
    LookupFinds(t.cells, k);
  }

  /** A full leaf without the key splits on insertion. */
  lemma LeafEditSplit(t: Tree, k: nat, x: nat, next: nat)
    requires t.Leaf? && Sorted(t.cells) && |t.cells| == NODE_MAX_CELLS && !Present(t.cells, k)
    ensures Edit(t, k, x, next) == SplitLeaf(t.id, InsertAt(t.cells, Pos(t.cells, k), Cell(k, x)), t.next, next)
  {
    LookupFinds(t.cells, k);
  }

  /** A leaf changed in place: nothing above it changes. */
  lemma LeafChanged(v0: PageMap, w: PageMap, t: Tree, h: nat, path: seq<Frame>, cur: Tree, k: nat, x: nat, next: nat)
    requires IsIndex(t, h) && k < TWO_32 && Stored(v0, t, true) && PagesBelow(t, next) && Routed(t, path, cur, k)
    requires cur.Leaf? && Sorted(cur.cells) && |cur.cells| <= NODE_MAX_CELLS
    requires |cur.cells| < NODE_MAX_CELLS || Present(cur.cells, k)
    requires SameBut(v0, w, {cur.id}) && LeafPage(NodeAt(w, cur.id), path == [], Put(cur.cells, k, x), cur.next)
    ensures var (u, n) := EditTree(t, k, x, next);
            n == next && Stored(w, u, true) && SameBut(v0, w, PagesOf(t) + Span(next, n))
  {
    hide LeafPage, InnerPage, WellFormed;
    RootFormed(t, h, k);
    PathFacts(v0, t, path, cur, k, h);
    LeafEditUnsplit(cur, k, x, next);
    hide Edit, Put;
    UnsplitUpward(v0, w, t, path, cur, k, x, next, h, {cur.id});
  }

  /** Where the descent ends is the leaf `LeafFor` names. */
  lemma {:induction false} PathLeaf(t: Tree, path: seq<Frame>, cur: Tree, k: nat, h: nat)
    requires Routed(t, path, cur, k)
    ensures LeafFor(t, k) == LeafFor(cur, k)
    decreases |path|
  {
    if path == [] {
    } else {
      PathLeaf(t, path[..|path| - 1], path[|path| - 1].node, k, h);
    }
  }

  // ---------------------------------------------------------------- steps of a descent

  lemma DescentStarts(t: Tree, k: nat, h: nat)
    requires IsIndex(t, h) && k < TWO_32
    ensures Routed(t, [], t, k) && FormedFor(t, true, k, h) && Distinct(t) && t.id == 0 && t.id in PagesOf(t)
  {
    RootFormed(t, h, k);
  }

  lemma InnerReached(v: PageMap, t: Tree, path: seq<Frame>, cur: Tree, k: nat, h: nat)
    requires Routed(t, path, cur, k) && FormedFor(t, true, k, h) && Distinct(t) && Stored(v, t, true)
    requires NodeAt(v, cur.id).kind == INTERNAL
    ensures cur.Inner? && |cur.kids| == |cur.keys| + 1
            && InnerPage(NodeAt(v, cur.id), path == [], cur.keys, Ids(cur.kids))
    ensures |path| < h
  {
    hide WellFormed, Distinct, Routed, InnerPage, NodeAt;
    PathFacts(v, t, path, cur, k, h);
    if cur.Inner? {
      KidFormed(cur, path == [], k, h - |path|);
    }
  }

  lemma ExtendPath(v: PageMap, t: Tree, path: seq<Frame>, cur: Tree, k: nat, h: nat)
    requires Routed(t, path, cur, k) && FormedFor(t, true, k, h) && Distinct(t) && Stored(v, t, true)
    requires cur.Inner? && |cur.kids| == |cur.keys| + 1
    ensures var i := Route(cur.keys, k);
            var longer := path + [Frame(cur, i)];
            && Routed(t, longer, cur.kids[i], k) && |longer| <= h
            && PagesOf(cur.kids[i]) <= PagesOf(t) && cur.kids[i].id in PagesOf(t)
  {
    var i := Route(cur.keys, k);
    var longer := path + [Frame(cur, i)];
    assert longer[..|longer| - 1] == path;
    hide Stored, FormedFor;
    PathFacts(v, t, longer, cur.kids[i], k, h);
  }

  lemma LeafReached(v: PageMap, t: Tree, path: seq<Frame>, cur: Tree, k: nat, h: nat)
    requires Routed(t, path, cur, k) && FormedFor(t, true, k, h) && Distinct(t) && Stored(v, t, true)
    requires NodeAt(v, cur.id).kind != INTERNAL
    ensures cur.Leaf? && cur == LeafFor(t, k) && |path| == h && cur.id in PagesOf(t)
    ensures LeafPage(NodeAt(v, cur.id), path == [], cur.cells, cur.next)
  {
    PathFacts(v, t, path, cur, k, h);
    PathLeaf(t, path, cur, k, h);
    if cur.Leaf? {
      LeafAtBottom(cur, path == [], k, h - |path|);
    }
  }

  lemma LeafAtBottom(t: Tree, root: bool, k: nat, h: nat)
    requires FormedFor(t, root, k, h) && t.Leaf?
    ensures h == 0 && Sorted(t.cells) && |t.cells| <= NODE_MAX_CELLS
  {
  }

  lemma InnerCount(f: Fields, root: bool, keys: seq<nat>, ids: seq<nat>)
    requires InnerPage(f, root, keys, ids)
    ensures f.num == |keys| && f.isRoot == root && f.kind == INTERNAL && |ids| == |keys| + 1
  {
  }

  lemma LeafFlagCleared(f: Fields, root: bool, cells: seq<Cell>, next: nat)
    requires LeafPage(f, root, cells, next)
    ensures LeafPage(f.(isRoot := false), false, cells, next)
  {
  }

  lemma LeafCount(f: Fields, root: bool, cells: seq<Cell>, next: nat)
    requires LeafPage(f, root, cells, next)
    ensures f.num == |cells| <= NODE_MAX_CELLS && f.isRoot == root
    ensures FullWidth(f) && forall i | 0 <= i < |cells| :: f.keys[i] == cells[i].key && f.vals[i] == cells[i].val
  {
  }

  /** The leaf a key belongs in decides whether the tree has the key. */
  lemma LeafFacts(t: Tree, k: nat, h: nat)
    requires IsIndex(t, h) && k < TWO_32
    ensures var l := LeafFor(t, k);
            && l.Leaf? && Sorted(l.cells) && |l.cells| <= NODE_MAX_CELLS
            && Lookup(CellsOf(t), k) == Lookup(l.cells, k) && (Lookup(CellsOf(t), k).Some? <==> Present(l.cells, k))
  {
    DescentFinds(t, k, true, 0, TWO_32, h);
    LookupFinds(LeafFor(t, k).cells, k);
  }
}
