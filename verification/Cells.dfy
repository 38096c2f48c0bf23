/** Sorted cell sequences: what one leaf holds, and what a whole tree holds in order. */
module Cells {

  datatype Cell = Cell(key: nat, val: nat)

  datatype Option<+T> = None | Some(value: T)

  ghost predicate Sorted(c: seq<Cell>) {
    forall i, j | 0 <= i < j < |c| :: c[i].key < c[j].key
  }

  ghost predicate Between(c: seq<Cell>, lo: nat, hi: nat) {
    forall i | 0 <= i < |c| :: lo <= c[i].key < hi
  }

  ghost predicate AllBelow(c: seq<Cell>, k: nat) {
    forall i | 0 <= i < |c| :: c[i].key < k
  }

  ghost predicate AllAbove(c: seq<Cell>, k: nat) {
    forall i | 0 <= i < |c| :: k < c[i].key
  }

  /** The first position whose key is not below `k`. */
  function Pos(c: seq<Cell>, k: nat): (i: nat)
    ensures i <= |c|
    ensures forall j | 0 <= j < i :: c[j].key < k
    ensures i < |c| ==> k <= c[i].key
  {
    if c == [] || k <= c[0].key then 0 else 1 + Pos(c[1..], k)
  }

  ghost predicate Present(c: seq<Cell>, k: nat) {
    exists i :: 0 <= i < |c| && c[i].key == k
  }

  function Lookup(c: seq<Cell>, k: nat): (r: Option<nat>)
  {
    var i := Pos(c, k);
    if i < |c| && c[i].key == k then Some(c[i].val) else None
  }

  function InsertAt(c: seq<Cell>, i: nat, x: Cell): (d: seq<Cell>)
    requires i <= |c|
    ensures |d| == |c| + 1
    ensures forall j | 0 <= j <= |c| :: d[j] == if j < i then c[j] else if j == i then x else c[j - 1]
  {
    c[..i] + [x] + c[i..]
  }

  /** Overwrites the cell with key `k`, or inserts one where it belongs. */
  function Put(c: seq<Cell>, k: nat, v: nat): (d: seq<Cell>)
  {
    var i := Pos(c, k);
    if i < |c| && c[i].key == k then c[i := Cell(k, v)] else InsertAt(c, i, Cell(k, v))
  }

  lemma PosUnique(c: seq<Cell>, k: nat, i: nat)
    requires i <= |c|
    requires forall j | 0 <= j < i :: c[j].key < k
    requires i < |c| ==> k <= c[i].key
    ensures Pos(c, k) == i
  {
    var p := Pos(c, k);
    if p < i {
      assert false;
    }
  }

  lemma LookupFinds(c: seq<Cell>, k: nat)
    requires Sorted(c)
    ensures Lookup(c, k).Some? <==> Present(c, k)
    ensures forall i | 0 <= i < |c| && c[i].key == k :: Lookup(c, k) == Some(c[i].val)
  {
    forall i | 0 <= i < |c| && c[i].key == k
      ensures Pos(c, k) == i
    {
      PosUnique(c, k, i);
    }
  }

  /** `Put`, cell by cell. */
  lemma PutCells(c: seq<Cell>, k: nat, v: nat)
    ensures var i, d := Pos(c, k), Put(c, k, v);
            var overwrites := i < |c| && c[i].key == k;
            && (overwrites ==> |d| == |c| && forall j | 0 <= j < |d| && j != i :: d[j] == c[j])
            && (!overwrites ==> |d| == |c| + 1 && (forall j | 0 <= j < i :: d[j] == c[j])
                                && forall j | i < j < |d| :: d[j] == c[j - 1])
            && d[i] == Cell(k, v)
  {
  }

  lemma PutSorted(c: seq<Cell>, k: nat, v: nat, lo: nat, hi: nat)
    requires Sorted(c) && Between(c, lo, hi) && lo <= k < hi
    ensures Sorted(Put(c, k, v)) && Between(Put(c, k, v), lo, hi)
    ensures |Put(c, k, v)| == |c| + (if Present(c, k) then 0 else 1)
  {
    hide Put;
    PutCells(c, k, v);
    LookupFinds(c, k);
  }

  /** A store changes what is found under its own key and under no other. */
  lemma LookupPut(c: seq<Cell>, k: nat, v: nat, q: nat)
    requires Sorted(c)
    ensures Lookup(Put(c, k, v), q) == if q == k then Some(v) else Lookup(c, q)
  {
    hide Put;
    PutCells(c, k, v);
    var i, j := Pos(c, k), Pos(c, q);
    var d := Put(c, k, v);
    hide Pos;
    if q == k {
      PosUnique(d, q, i);
    } else {
      PosUnique(d, q, if |d| == |c| || q < k then j else j + 1);
    }
  }

  /** When the surrounding cells lie on the right sides of `k`, only the middle matters. */
  lemma MiddleDecides(a: seq<Cell>, m: seq<Cell>, b: seq<Cell>, k: nat, v: nat)
    requires AllBelow(a, k) && AllAbove(b, k)
    ensures Put(a + m + b, k, v) == a + Put(m, k, v) + b
    ensures Lookup(a + m + b, k) == Lookup(m, k)
  {
    hide Put;
    PutCells(m, k, v);
    PutCells(a + m + b, k, v);
    var c, i := a + m + b, Pos(m, k);
    PosUnique(c, k, |a| + i);
    assert |Put(c, k, v)| == |a + Put(m, k, v) + b|;
    forall j | 0 <= j < |Put(c, k, v)|
      ensures Put(c, k, v)[j] == (a + Put(m, k, v) + b)[j]
    {
    }
  }

  /** The map a sorted cell sequence stands for. */
  ghost function AsMap(c: seq<Cell>): (m: map<nat, nat>)
    ensures forall k :: k in m <==> Present(c, k)
  {
    if c == [] then map[]
    else
      var m := AsMap(c[..|c| - 1]);
      var x := c[|c| - 1];
      assert forall k :: Present(c, k) <==> Present(c[..|c| - 1], k) || k == x.key;
      m[x.key := x.val]
  }

  lemma AsMapLookup(c: seq<Cell>, k: nat)
    requires Sorted(c)
    ensures Lookup(c, k) == if k in AsMap(c) then Some(AsMap(c)[k]) else None
  {
    LookupFinds(c, k);
    if Present(c, k) {
      var i :| 0 <= i < |c| && c[i].key == k;
      AsMapAt(c, i);
    }
  }

  lemma {:induction false} AsMapAt(c: seq<Cell>, i: nat)
    requires Sorted(c) && i < |c|
    ensures c[i].key in AsMap(c) && AsMap(c)[c[i].key] == c[i].val
  {
    assert Present(c, c[i].key);
    if i >= |c| - 1 {
    } else {
      AsMapAt(c[..|c| - 1], i);
    }
  }

  lemma AsMapPut(c: seq<Cell>, k: nat, v: nat)
    requires Sorted(c)
    ensures AsMap(Put(c, k, v)) == AsMap(c)[k := v]
  {
    hide AsMap, Put, Lookup, Present;
    var d := Put(c, k, v);
    PutSorted(c, k, v, 0, Top(c, k));
    forall q
      ensures q in AsMap(d) <==> q in AsMap(c)[k := v]
      ensures q in AsMap(d) ==> AsMap(d)[q] == AsMap(c)[k := v][q]
    {
      if q >= 0 {
        LookupPut(c, k, v, q);
        AsMapLookup(c, q);
        AsMapLookup(d, q);
      }
    }
  }

  /** A bound above every key of `c` and above `k`. */
  ghost function Top(c: seq<Cell>, k: nat): (t: nat)
    ensures k < t && forall i | 0 <= i < |c| :: c[i].key < t
  {
    if c == [] then k + 1
    else
      var t := Top(c[1..], k);
      assert forall i | 1 <= i < |c| :: c[i] == c[1..][i - 1];
      if t <= c[0].key then c[0].key + 1 else t
  }

  /** Splitting a full leaf keeps its keys distinct exactly when the new key was not in it. */
  lemma DuplicateOnSplit(cells: seq<Cell>, k: nat, v: nat)
    requires Sorted(cells)
    ensures Sorted(InsertAt(cells, Pos(cells, k), Cell(k, v))) <==> !Present(cells, k)
  {
    PresentAtPos(cells, k);
    var i, d := Pos(cells, k), InsertAt(cells, Pos(cells, k), Cell(k, v));
    if Present(cells, k) {
      assert d[i].key == k && d[i + 1].key == k;
    } else {
      assert d == Put(cells, k, v);
      PutSorted(cells, k, v, 0, Top(cells, k));
    }
  }

  lemma PresentAtPos(c: seq<Cell>, k: nat)
    requires Sorted(c)
    ensures Present(c, k) <==> Pos(c, k) < |c| && c[Pos(c, k)].key == k
  {
    LookupFinds(c, k);
  }
}
