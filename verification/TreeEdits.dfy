/** What every edit of the tree keeps: order, fill, balance, contents, leaf chain and page ownership. */
module TreeEdits {
  import opened Cells
  import opened NodePage
  import opened Tree

  // ---------------------------------------------------------------- lists of subtrees

  lemma {:induction false} Appended(a: seq<Tree>, b: seq<Tree>)
    ensures AllCells(a + b) == AllCells(a) + AllCells(b)
    ensures AllPages(a + b) == AllPages(a) + AllPages(b)
    ensures CountAll(a + b) == CountAll(a) + CountAll(b)
    ensures AllDistinct(a + b) <==> AllDistinct(a) && AllDistinct(b) && AllPages(a) !! AllPages(b)
  {
    if a == [] {
      assert a + b == b;
    } else {
      assert (a + b)[1..] == a[1..] + b;
      Appended(a[1..], b);
    }
  }

  lemma Single(t: Tree)
    ensures AllCells([t]) == CellsOf(t) && AllPages([t]) == PagesOf(t) && CountAll([t]) == Count(t)
    ensures AllDistinct([t]) <==> Distinct(t)
  {
    assert [t][1..] == [];
  }

  /** A list in which one subtree has been replaced by one or two. */
  lemma Spliced(ts: seq<Tree>, i: nat, parts: seq<Tree>)
    requires i < |ts|
    ensures var us := Splice(ts, i, 1, parts);
            && AllCells(us) == AllCells(ts[..i]) + AllCells(parts) + AllCells(ts[i + 1..])
            && AllPages(us) == AllPages(ts[..i]) + AllPages(parts) + AllPages(ts[i + 1..])
            && CountAll(us) == CountAll(ts[..i]) + CountAll(parts) + CountAll(ts[i + 1..])
            && (AllDistinct(us) <==>
                AllDistinct(ts[..i]) && AllDistinct(parts) && AllDistinct(ts[i + 1..])
                && AllPages(ts[..i]) !! AllPages(parts) && AllPages(ts[..i]) !! AllPages(ts[i + 1..])
                && AllPages(parts) !! AllPages(ts[i + 1..]))
  {
    assert Splice(ts, i, 1, parts) == (ts[..i] + parts) + ts[i + 1..];
    Appended(ts[..i] + parts, ts[i + 1..]);
    Appended(ts[..i], parts);
  }

  /** A list with one subtree singled out. */
  lemma Around(ts: seq<Tree>, i: nat)
    requires i < |ts|
    ensures AllCells(ts) == AllCells(ts[..i]) + CellsOf(ts[i]) + AllCells(ts[i + 1..])
    ensures AllPages(ts) == AllPages(ts[..i]) + PagesOf(ts[i]) + AllPages(ts[i + 1..])
    ensures CountAll(ts) == CountAll(ts[..i]) + Count(ts[i]) + CountAll(ts[i + 1..])
    ensures AllDistinct(ts) <==>
            AllDistinct(ts[..i]) && Distinct(ts[i]) && AllDistinct(ts[i + 1..])
            && AllPages(ts[..i]) !! PagesOf(ts[i]) && AllPages(ts[..i]) !! AllPages(ts[i + 1..])
            && PagesOf(ts[i]) !! AllPages(ts[i + 1..])
  {
    assert Splice(ts, i, 1, [ts[i]]) == ts;
    Spliced(ts, i, [ts[i]]);
    Single(ts[i]);
  }

  lemma Cut(ts: seq<Tree>, n: nat)
    requires n <= |ts|
    ensures AllCells(ts) == AllCells(ts[..n]) + AllCells(ts[n..])
    ensures AllPages(ts) == AllPages(ts[..n]) + AllPages(ts[n..])
    ensures CountAll(ts) == CountAll(ts[..n]) + CountAll(ts[n..])
    ensures AllDistinct(ts) ==> AllDistinct(ts[..n]) && AllDistinct(ts[n..]) && AllPages(ts[..n]) !! AllPages(ts[n..])
  {
    assert ts == ts[..n] + ts[n..];
    Appended(ts[..n], ts[n..]);
  }

  lemma PairOf(l: Tree, r: Tree)
    ensures AllCells([l, r]) == CellsOf(l) + CellsOf(r)
    ensures AllPages([l, r]) == PagesOf(l) + PagesOf(r) && CountAll([l, r]) == Count(l) + Count(r)
    ensures AllDistinct([l, r]) <==> Distinct(l) && Distinct(r) && PagesOf(l) !! PagesOf(r)
  {
    assert [l, r] == [l] + [r];
    Appended([l], [r]);
    Single(l);
    Single(r);
  }

  // ---------------------------------------------------------------- order and balance

  ghost predicate SplitFormed(s: Split, root: bool, lo: nat, hi: nat, h: nat) {
    match s
    case One(t) => WellFormed(t, root, lo, hi, h)
    case Two(l, sep, r) => lo < sep < hi && WellFormed(l, false, lo, sep, h) && WellFormed(r, false, sep, hi, h)
  }

  lemma LeafSplitFormed(id: nat, cells: seq<Cell>, link: nat, next: nat, lo: nat, hi: nat)
    requires Sorted(cells) && Between(cells, lo, hi) && |cells| == NODE_MAX_CELLS + 1
    ensures SplitFormed(SplitLeaf(id, cells, link, next).split, false, lo, hi, 0)
  {
    assert cells[0].key < cells[SPLIT].key;
  }

  lemma SplicedKeys(keys: seq<nat>, slot: nat, sep: nat)
    requires slot <= |keys|
    ensures var ks := Splice(keys, slot, 0, [sep]);
            && |ks| == |keys| + 1 && ks[slot] == sep
            && (forall i | 0 <= i < slot :: ks[i] == keys[i])
            && (forall i | slot < i < |ks| :: ks[i] == keys[i - 1])
  {
  }

  lemma SeparatorsSpliced(keys: seq<nat>, slot: nat, sep: nat, lo: nat, hi: nat)
    requires Separators(keys, lo, hi) && slot <= |keys|
    requires LowOf(keys, slot, lo) < sep < HighOf(keys, slot, hi) && lo < hi
    ensures Separators(Splice(keys, slot, 0, [sep]), lo, hi)
  {
    hide Splice;
    SplicedKeys(keys, slot, sep);
  }

  lemma KidsSpliced(keys: seq<nat>, kids: seq<Tree>, slot: nat, l: Tree, sep: nat, r: Tree, lo: nat, hi: nat, h: nat)
    requires Branching(keys, kids, lo, hi, h) && slot <= |keys|
    requires WellFormed(l, false, LowOf(keys, slot, lo), sep, h) && WellFormed(r, false, sep, HighOf(keys, slot, hi), h)
    ensures var ks, ts := Splice(keys, slot, 0, [sep]), Splice(kids, slot, 1, [l, r]);
            forall i | 0 <= i < |ts| :: WellFormed(ts[i], false, LowOf(ks, i, lo), HighOf(ks, i, hi), h)
  {
    var ks, ts := Splice(keys, slot, 0, [sep]), Splice(kids, slot, 1, [l, r]);
    assert ks[slot] == sep;
    forall i | 0 <= i < |ts|
      ensures WellFormed(ts[i], false, LowOf(ks, i, lo), HighOf(ks, i, hi), h)
    {
      if i < slot {
        assert ts[i] == kids[i] && ks[i] == keys[i] && (i > 0 ==> ks[i - 1] == keys[i - 1]);
      } else if i > slot + 1 {
        assert ts[i] == kids[i - 1] && ks[i - 1] == keys[i - 2] && (i < |ks| ==> ks[i] == keys[i - 1]);
      } else {
        assert ts[slot] == l && ts[slot + 1] == r;
        assert slot > 0 ==> ks[slot - 1] == keys[slot - 1];
        assert slot + 1 < |ks| ==> ks[slot + 1] == keys[slot];
      }
    }
  }

  lemma BranchingSpliced(keys: seq<nat>, kids: seq<Tree>, slot: nat, s: Split, lo: nat, hi: nat, h: nat)
    requires Branching(keys, kids, lo, hi, h) && slot <= |keys| && lo < hi
    requires SplitFormed(s, false, LowOf(keys, slot, lo), HighOf(keys, slot, hi), h)
    ensures Branching(Splice(keys, slot, 0, s.Seps()), Splice(kids, slot, 1, s.Parts()), lo, hi, h)
  {
    match s
    case One(t) =>
      assert Splice(keys, slot, 0, []) == keys && Splice(kids, slot, 1, [t]) == kids[slot := t];
    case Two(l, sep, r) =>
      SeparatorsSpliced(keys, slot, sep, lo, hi);
      KidsSpliced(keys, kids, slot, l, sep, r, lo, hi, h);
  }

  lemma BranchingCut(keys: seq<nat>, kids: seq<Tree>, m: nat, lo: nat, hi: nat, h: nat)
    requires Branching(keys, kids, lo, hi, h) && m < |keys|
    ensures Branching(keys[..m], kids[..m + 1], lo, keys[m], h)
    ensures Branching(keys[m + 1..], kids[m + 1..], keys[m], hi, h)
  {
    var ks, ts := keys[m + 1..], kids[m + 1..];
    forall i | 0 <= i < |ts|
      ensures WellFormed(ts[i], false, LowOf(ks, i, keys[m]), HighOf(ks, i, hi), h)
    {
      assert ts[i] == kids[m + 1 + i];
      assert LowOf(ks, i, keys[m]) == LowOf(keys, m + 1 + i, lo) && HighOf(ks, i, hi) == HighOf(keys, m + 1 + i, hi);
    }
    forall i | 0 <= i < m + 1
      ensures WellFormed(kids[..m + 1][i], false, LowOf(keys[..m], i, lo), HighOf(keys[..m], i, keys[m]), h)
    {
      assert kids[..m + 1][i] == kids[i];
    }
  }

  lemma AbsorbFormed(t: Tree, slot: nat, g: Grown, root: bool, lo: nat, hi: nat, h: nat)
    requires t.Inner? && |t.kids| == |t.keys| + 1 && WellFormed(t, root, lo, hi, h) && slot <= |t.keys| && lo < hi
    requires SplitFormed(g.split, false, LowOf(t.keys, slot, lo), HighOf(t.keys, slot, hi), h - 1)
    ensures SplitFormed(Absorb(t, slot, g).split, root, lo, hi, h)
  {
    var keys, kids := Splice(t.keys, slot, 0, g.split.Seps()), Splice(t.kids, slot, 1, g.split.Parts());
    BranchingSpliced(t.keys, t.kids, slot, g.split, lo, hi, h - 1);
    if |keys| > NODE_MAX_CELLS {
      BranchingCut(keys, kids, SPLIT, lo, hi, h - 1);
    }
  }

  /** The child a key routes to covers the key. */
  lemma RouteCovers(keys: seq<nat>, k: nat, lo: nat, hi: nat)
    requires Separators(keys, lo, hi) && lo <= k < hi
    ensures var i := Route(keys, k); LowOf(keys, i, lo) <= k < HighOf(keys, i, hi)
  {
  }

  lemma {:induction false} EditFormed(t: Tree, k: nat, v: nat, next: nat, root: bool, lo: nat, hi: nat, h: nat)
    requires WellFormed(t, root, lo, hi, h) && lo <= k < hi
    ensures SplitFormed(Edit(t, k, v, next).split, root, lo, hi, h)
    decreases t
  {
    match t
    case Leaf(id, cells, link) =>
      PutSorted(cells, k, v, lo, hi);
      if |Put(cells, k, v)| > NODE_MAX_CELLS {
        LeafSplitFormed(id, Put(cells, k, v), link, next, lo, hi);
      }
    case Inner(_, keys, kids) =>
      var i := Route(keys, k);
      RouteCovers(keys, k, lo, hi);
      EditFormed(kids[i], k, v, next, false, LowOf(keys, i, lo), HighOf(keys, i, hi), h - 1);
      AbsorbFormed(t, i, Edit(kids[i], k, v, next), root, lo, hi, h);
  }

  // ---------------------------------------------------------------- contents

  lemma {:induction false} CellsInRange(t: Tree, root: bool, lo: nat, hi: nat, h: nat)
    requires WellFormed(t, root, lo, hi, h)
    ensures Sorted(CellsOf(t)) && Between(CellsOf(t), lo, hi)
    decreases t, 1
  {
    hide Branching, AllCells;
    if t.Leaf? {
    } else {
      KidsInRange(t.keys, t.kids, lo, hi, h - 1);
    }
  }

  lemma {:induction false} KidsInRange(keys: seq<nat>, kids: seq<Tree>, lo: nat, hi: nat, h: nat)
    requires Branching(keys, kids, lo, hi, h)
    ensures Sorted(AllCells(kids)) && Between(AllCells(kids), lo, hi)
    decreases kids, 0
  {
    CellsInRange(kids[0], false, lo, HighOf(keys, 0, hi), h);
    if keys == [] {
      Single(kids[0]);
      assert kids == [kids[0]];
    } else {
      BranchingCut(keys, kids, 0, lo, hi, h);
      KidsInRange(keys[1..], kids[1..], keys[0], hi, h);
    }
  }

  /** Left of the child a key routes to all keys are smaller, right of it all are larger. */
  lemma SidesOf(keys: seq<nat>, kids: seq<Tree>, k: nat, lo: nat, hi: nat, h: nat)
    requires Branching(keys, kids, lo, hi, h) && lo <= k < hi
    ensures var i := Route(keys, k);
            AllBelow(AllCells(kids[..i]), k) && AllAbove(AllCells(kids[i + 1..]), k)
  {
    hide WellFormed, CellsOf, Sorted;
    var i := Route(keys, k);
    if i > 0 {
      BranchingCut(keys, kids, i - 1, lo, hi, h);
      KidsInRange(keys[..i - 1], kids[..i], lo, keys[i - 1], h);
    }
    if i < |keys| {
      BranchingCut(keys, kids, i, lo, hi, h);
      KidsInRange(keys[i + 1..], kids[i + 1..], keys[i], hi, h);
    }
  }

  lemma LeafSplitCells(id: nat, cells: seq<Cell>, link: nat, next: nat)
    requires |cells| > SPLIT
    ensures AllCells(SplitLeaf(id, cells, link, next).split.Parts()) == cells
  {
    PairOf(Leaf(id, cells[..SPLIT], next), Leaf(next, cells[SPLIT..], link));
    assert cells == cells[..SPLIT] + cells[SPLIT..];
  }

  /** What an absorbing node holds and occupies, whether or not it splits. */
  lemma AbsorbParts(t: Tree, slot: nat, g: Grown)
    requires t.Inner? && |t.kids| == |t.keys| + 1 && slot <= |t.keys|
    ensures var a, us := Absorb(t, slot, g), Splice(t.kids, slot, 1, g.split.Parts());
            var added := if a.next == g.next then {} else {g.next};
            && g.next <= a.next <= g.next + 1
            && AllCells(a.split.Parts()) == AllCells(us)
            && AllPages(a.split.Parts()) == {t.id} + AllPages(us) + added
            && CountAll(a.split.Parts()) == 1 + CountAll(us) + (a.next - g.next)
            && (AllDistinct(us) && t.id !in AllPages(us) && g.next !in AllPages(us) + {t.id}
                ==> AllDistinct(a.split.Parts()))
            && a.split.Parts()[0].id == t.id
  {
    var keys, us := Splice(t.keys, slot, 0, g.split.Seps()), Splice(t.kids, slot, 1, g.split.Parts());
    if |keys| <= NODE_MAX_CELLS {
      Single(Inner(t.id, keys, us));
    } else {
      Cut(us, SPLIT + 1);
      PairOf(Inner(t.id, keys[..SPLIT], us[..SPLIT + 1]), Inner(g.next, keys[SPLIT + 1..], us[SPLIT + 1..]));
    }
  }

  lemma {:induction false} EditCells(t: Tree, k: nat, v: nat, next: nat, root: bool, lo: nat, hi: nat, h: nat)
    requires WellFormed(t, root, lo, hi, h) && lo <= k < hi
    ensures AllCells(Edit(t, k, v, next).split.Parts()) == Put(CellsOf(t), k, v)
    decreases t
  {
    hide Put, AllCells, Absorb;
    match t
    case Leaf(id, cells, link) =>
      var d := Put(cells, k, v);
      if |d| > NODE_MAX_CELLS {
        LeafSplitCells(id, d, link, next);
      } else {
        Single(t.(cells := d));
      }
    case Inner(_, keys, kids) =>
      var i := Route(keys, k);
      RouteCovers(keys, k, lo, hi);
      EditCells(kids[i], k, v, next, false, LowOf(keys, i, lo), HighOf(keys, i, hi), h - 1);
      SidesOf(keys, kids, k, lo, hi, h - 1);
      AbsorbCells(t, i, Edit(kids[i], k, v, next), k, v);
  }

  lemma AbsorbCells(t: Tree, slot: nat, g: Grown, k: nat, v: nat)
    requires t.Inner? && |t.kids| == |t.keys| + 1 && slot <= |t.keys|
    requires AllCells(g.split.Parts()) == Put(CellsOf(t.kids[slot]), k, v)
    requires AllBelow(AllCells(t.kids[..slot]), k) && AllAbove(AllCells(t.kids[slot + 1..]), k)
    ensures AllCells(Absorb(t, slot, g).split.Parts()) == Put(CellsOf(t), k, v)
  {
    hide Absorb, Splice, Put, AllCells;
    Around(t.kids, slot);
    Spliced(t.kids, slot, g.split.Parts());
    AbsorbParts(t, slot, g);
    MiddleDecides(AllCells(t.kids[..slot]), CellsOf(t.kids[slot]), AllCells(t.kids[slot + 1..]), k, v);
  }

  // ---------------------------------------------------------------- pages

  /** The page ids an allocator hands out while moving from `a` to `b`. */
  ghost function Span(a: nat, b: nat): (s: set<nat>)
    ensures forall p :: p in s <==> a <= p < b
  {
    if a >= b then {} else Span(a, b - 1) + {b - 1}
  }

  lemma {:induction false} EditPages(t: Tree, k: nat, v: nat, next: nat)
    requires Distinct(t) && forall p | p in PagesOf(t) :: p < next
    ensures var g := Edit(t, k, v, next);
            && next <= g.next
            && AllPages(g.split.Parts()) == PagesOf(t) + Span(next, g.next)
            && AllDistinct(g.split.Parts())
            && CountAll(g.split.Parts()) == Count(t) + (g.next - next)
            && g.split.Parts()[0].id == t.id
    decreases t
  {
    match t
    case Leaf(id, cells, link) =>
      var d := Put(cells, k, v);
      if |d| > NODE_MAX_CELLS {
        PairOf(Leaf(id, d[..SPLIT], next), Leaf(next, d[SPLIT..], link));
      } else {
        Single(t.(cells := d));
      }
    case Inner(_, keys, kids) =>
      if |kids| != |keys| + 1 {
        Single(t);
      } else {
        var i := Route(keys, k);
        Around(kids, i);
        assert forall p | p in PagesOf(kids[i]) :: p in PagesOf(t);
        EditPages(kids[i], k, v, next);
        AbsorbPages(t, i, Edit(kids[i], k, v, next), next);
      }
  }

  lemma AbsorbPages(t: Tree, slot: nat, g: Grown, next: nat)
    requires t.Inner? && |t.kids| == |t.keys| + 1 && slot <= |t.keys|
    requires Distinct(t) && (forall p | p in PagesOf(t) :: p < next) && next <= g.next
    requires AllPages(g.split.Parts()) == PagesOf(t.kids[slot]) + Span(next, g.next)
    requires AllDistinct(g.split.Parts())
    requires CountAll(g.split.Parts()) == Count(t.kids[slot]) + (g.next - next)
    ensures var a := Absorb(t, slot, g);
            && next <= a.next
            && AllPages(a.split.Parts()) == PagesOf(t) + Span(next, a.next)
            && AllDistinct(a.split.Parts())
            && CountAll(a.split.Parts()) == Count(t) + (a.next - next)
            && a.split.Parts()[0].id == t.id
  {
    hide Absorb, Splice, AllPages, AllDistinct, CountAll;
    Around(t.kids, slot);
    Spliced(t.kids, slot, g.split.Parts());
    AbsorbParts(t, slot, g);
  }

  // ---------------------------------------------------------------- the leaf chain

  lemma SplicedChain(kids: seq<Tree>, slot: nat, parts: seq<Tree>, after: nat)
    requires AllChained(kids, after) && slot < |kids|
    requires parts != [] && FirstLeaf(parts[0]) == FirstLeaf(kids[slot])
    requires AllChained(parts, AfterKid(kids, slot, after))
    ensures AllChained(Splice(kids, slot, 1, parts), after)
    ensures FirstLeaf(Splice(kids, slot, 1, parts)[0]) == FirstLeaf(kids[0])
  {
    var us := Splice(kids, slot, 1, parts);
    forall i | 0 <= i < |us|
      ensures Chained(us[i], AfterKid(us, i, after))
    {
      if i < slot {
        assert us[i] == kids[i];
      } else if i < slot + |parts| {
        assert us[i] == parts[i - slot];
      } else {
        assert us[i] == kids[i - |parts| + 1];
      }
    }
  }

  lemma CutChain(us: seq<Tree>, n: nat, after: nat)
    requires AllChained(us, after) && 0 < n < |us|
    ensures AllChained(us[..n], FirstLeaf(us[n])) && AllChained(us[n..], after)
  {
    forall i | 0 <= i < |us| - n
      ensures Chained(us[n..][i], AfterKid(us[n..], i, after))
    {
      assert us[n..][i] == us[n + i];
    }
    forall i | 0 <= i < n
      ensures Chained(us[..n][i], AfterKid(us[..n], i, FirstLeaf(us[n])))
    {
      assert us[..n][i] == us[i];
    }
  }

  lemma SingleChained(t: Tree, after: nat)
    requires Chained(t, after)
    ensures AllChained([t], after)
  {
  }

  lemma PairChained(l: Tree, r: Tree, after: nat)
    requires Chained(l, FirstLeaf(r)) && Chained(r, after)
    ensures AllChained([l, r], after)
  {
  }

  lemma AbsorbChained(t: Tree, slot: nat, g: Grown, after: nat)
    requires t.Inner? && |t.kids| == |t.keys| + 1 && slot <= |t.keys| && Chained(t, after)
    requires FirstLeaf(g.split.Parts()[0]) == FirstLeaf(t.kids[slot])
    requires AllChained(g.split.Parts(), AfterKid(t.kids, slot, after))
    ensures AllChained(Absorb(t, slot, g).split.Parts(), after)
    ensures FirstLeaf(Absorb(t, slot, g).split.Parts()[0]) == FirstLeaf(t)
  {
    hide AllChained;
    var keys, us := Splice(t.keys, slot, 0, g.split.Seps()), Splice(t.kids, slot, 1, g.split.Parts());
    SplicedChain(t.kids, slot, g.split.Parts(), after);
    if |keys| > NODE_MAX_CELLS {
      CutChain(us, SPLIT + 1, after);
      PairChained(Inner(t.id, keys[..SPLIT], us[..SPLIT + 1]), Inner(g.next, keys[SPLIT + 1..], us[SPLIT + 1..]), after);
    } else {
      SingleChained(Inner(t.id, keys, us), after);
    }
  }

  lemma LeafEditChained(t: Tree, k: nat, v: nat, next: nat, after: nat)
    requires t.Leaf? && Chained(t, after)
    ensures var parts := EditLeaf(t, k, v, next).split.Parts();
            AllChained(parts, after) && FirstLeaf(parts[0]) == FirstLeaf(t)
  {
  }

  lemma {:induction false} EditChained(t: Tree, k: nat, v: nat, next: nat, after: nat, root: bool, lo: nat, hi: nat,
          h: nat)
    requires WellFormed(t, root, lo, hi, h) && Chained(t, after)
    ensures var parts := Edit(t, k, v, next).split.Parts();
            AllChained(parts, after) && FirstLeaf(parts[0]) == FirstLeaf(t)
    decreases t
  {
    hide Sorted, Between, Put, Splice;
    if t.Leaf? {
      LeafEditChained(t, k, v, next, after);
    } else {
      var i := Route(t.keys, k);
      EditChained(t.kids[i], k, v, next, AfterKid(t.kids, i, after), false, LowOf(t.keys, i, lo), HighOf(t.keys, i, hi),
                  h - 1);
      AbsorbChained(t, i, Edit(t.kids[i], k, v, next), after);
    }
  }

  // ---------------------------------------------------------------- where nodes split

  /**
   * A leaf splits exactly when it has 510 cells and the key is new: 255 cells stay on its page, 256 go to a fresh one,
   * whose first key becomes the separator, and the fresh leaf is linked in after it.
   */
  lemma LeafSplits(t: Tree, k: nat, v: nat, next: nat)
    requires t.Leaf? && Sorted(t.cells) && |t.cells| <= 510
    ensures var g := Edit(t, k, v, next);
            if |t.cells| == 510 && !Present(t.cells, k) then
              && g.split.Two? && g.split.left.Leaf? && g.split.right.Leaf?
              && |g.split.left.cells| == 255 && |g.split.right.cells| == 256
              && g.split.left.cells + g.split.right.cells == Put(t.cells, k, v)
              && g.split.sep == g.split.right.cells[0].key
              && g.split.left.id == t.id && g.split.right.id == next && g.next == next + 1
              && g.split.left.next == next && g.split.right.next == t.next
            else g.split == One(t.(cells := Put(t.cells, k, v))) && g.next == next
  {
    LookupFinds(t.cells, k);
    PutCells(t.cells, k, v);
    hide Sorted, Present;
  }

  /** A full inner node that takes in one more separator keeps 255, passes the next one up and hands on 255. */
  lemma InnerSplits(t: Tree, slot: nat, g: Grown)
    requires t.Inner? && |t.kids| == |t.keys| + 1 && slot <= |t.keys| == 510 && g.split.Two?
    ensures var s := Absorb(t, slot, g);
            && s.split.Two? && s.split.left.Inner? && s.split.right.Inner?
            && |s.split.left.keys| == 255 && |s.split.right.keys| == 255
            && s.split.left.keys + [s.split.sep] + s.split.right.keys == Splice(t.keys, slot, 0, [g.split.sep])
            && s.split.left.kids + s.split.right.kids == Splice(t.kids, slot, 1, [g.split.left, g.split.right])
            && s.split.left.id == t.id && s.split.right.id == g.next && s.next == g.next + 1
  {
  }
}
