/** Scans as folds over the live rows in rowid order. */
module Scans {
  import opened Schema

  /** The rows with rowids from `from` up to `end`, in rowid order. */
  function Listing(rows: map<nat, Row>, from: nat, end: nat): (l: seq<(nat, Row)>)
    decreases end - from
  {
    if from >= end then []
    else if from in rows then [(from, rows[from])] + Listing(rows, from + 1, end)
    else Listing(rows, from + 1, end)
  }

  /** It lists each of those rows once, in ascending order of rowids. */
  lemma {:induction false} ListingExact(rows: map<nat, Row>, from: nat, end: nat)
    ensures var l := Listing(rows, from, end);
            && (forall k: nat, row: Row :: (k, row) in l <==> from <= k < end && k in rows && row == rows[k])
            && (forall i, j | 0 <= i < j < |l| :: l[i].0 < l[j].0)
    decreases end - from
  {
    if from >= end {
    } else {
      ListingExact(rows, from + 1, end);
      var l, rest := Listing(rows, from, end), Listing(rows, from + 1, end);
      if from in rows {
        assert l == [(from, rows[from])] + rest;
        forall j | 0 <= j < |rest|
          ensures from < rest[j].0
        {
          assert (rest[j].0, rest[j].1) in rest;
        }
      }
    }
  }

  /** Runs a callback over `l` until it asks to stop; counts the rows it saw. */
  function Fold<A>(l: seq<(nat, Row)>, cb: (A, nat, Row) -> (A, bool), acc: A): (A, nat) {
    if l == [] then (acc, 0)
    else
      var (next, more) := cb(acc, l[0].0, l[0].1);
      if !more then (next, 1) else var (last, n) := Fold(l[1..], cb, next); (last, n + 1)
  }

  /** The outcome of a fold when `n` rows had been seen before it. */
  function Later<A>(r: (A, nat), n: nat): (A, nat) { (r.0, r.1 + n) }

  lemma FoldStep<A>(rows: map<nat, Row>, rid: nat, end: nat, cb: (A, nat, Row) -> (A, bool), acc: A)
    requires rid < end
    ensures rid !in rows ==> Fold(Listing(rows, rid, end), cb, acc) == Fold(Listing(rows, rid + 1, end), cb, acc)
    ensures rid in rows ==>
              var (next, more) := cb(acc, rid, rows[rid]);
              Fold(Listing(rows, rid, end), cb, acc)
              == if more then Later(Fold(Listing(rows, rid + 1, end), cb, next), 1) else (next, 1)
  {
  }

  /** The rowids of the rows that satisfy `pred`, in order. */
  function Matching(l: seq<(nat, Row)>, pred: (nat, Row) -> bool): seq<nat> {
    if l == [] then []
    else (if pred(l[0].0, l[0].1) then [l[0].0] else []) + Matching(l[1..], pred)
  }

  function Collected(pred: (nat, Row) -> bool, acc: seq<nat>, rid: nat, row: Row): seq<nat> {
    if pred(rid, row) then acc + [rid] else acc
  }

  /** A callback that collects the rowids of matching rows and never stops. */
  function Collector(pred: (nat, Row) -> bool): (seq<nat>, nat, Row) -> (seq<nat>, bool) {
    (acc, rid, row) => (Collected(pred, acc, rid, row), true)
  }

  lemma {:induction false} CollectsMatching(l: seq<(nat, Row)>, pred: (nat, Row) -> bool, acc: seq<nat>)
    ensures Fold(l, Collector(pred), acc) == (acc + Matching(l, pred), |l|)
  {
    if l == [] {
      assert acc + [] == acc;
    } else {
      var next, rest := Collected(pred, acc, l[0].0, l[0].1), Matching(l[1..], pred);
      assert next + rest == acc + Matching(l, pred) by {
        assert acc + ([l[0].0] + rest) == (acc + [l[0].0]) + rest;
        assert [] + rest == rest;
      }
      hide Collected, Matching;
      CollectsMatching(l[1..], pred, next);
    }
  }

  /** The rows that satisfy `pred`, and those that do not. */
  ghost function Victims(rows: map<nat, Row>, pred: (nat, Row) -> bool): set<nat> {
    set k | k in rows && pred(k, rows[k])
  }

  ghost function Survivors(rows: map<nat, Row>, pred: (nat, Row) -> bool): map<nat, Row> {
    map k | k in rows && !pred(k, rows[k]) :: rows[k]
  }

  /** What is left after deleting the rows satisfying `pred` has no more such rows. */
  lemma NoneLeft(rows: map<nat, Row>, pred: (nat, Row) -> bool)
    ensures Victims(Survivors(rows, pred), pred) == {}
            && Survivors(Survivors(rows, pred), pred) == Survivors(rows, pred)
  {
  }

  lemma MatchingStep(rows: map<nat, Row>, from: nat, end: nat, pred: (nat, Row) -> bool)
    requires from < end
    ensures Matching(Listing(rows, from, end), pred)
         == (if from in rows && pred(from, rows[from]) then [from] else [])
            + Matching(Listing(rows, from + 1, end), pred)
  {
    var l := Listing(rows, from + 1, end);
    if from in rows {
      assert ([(from, rows[from])] + l)[1..] == l;
    }
  }

  lemma {:induction false} MatchingHas(rows: map<nat, Row>, from: nat, end: nat, pred: (nat, Row) -> bool, k: nat)
    ensures k in Matching(Listing(rows, from, end), pred) <==> k in rows && pred(k, rows[k]) && from <= k < end
    decreases end - from
  {
    if from >= end {
    } else {
      MatchingStep(rows, from, end, pred);
      MatchingHas(rows, from + 1, end, pred, k);
    }
  }

  lemma {:induction false} MatchingAscends(rows: map<nat, Row>, from: nat, end: nat, pred: (nat, Row) -> bool)
    ensures var m := Matching(Listing(rows, from, end), pred); forall i, j | 0 <= i < j < |m| :: m[i] < m[j]
    decreases end - from
  {
    if from >= end {
    } else {
      MatchingStep(rows, from, end, pred);
      MatchingAscends(rows, from + 1, end, pred);
      var rest := Matching(Listing(rows, from + 1, end), pred);
      hide Matching, Listing;
      forall j | 0 <= j < |rest|
        ensures from < rest[j]
      {
        MatchingHas(rows, from + 1, end, pred, rest[j]);
      }
    }
  }

  /** The collected rowids are the matching rows of the table, each once. */
  lemma MatchingExact(rows: map<nat, Row>, from: nat, end: nat, pred: (nat, Row) -> bool)
    ensures var m := Matching(Listing(rows, from, end), pred);
            && (forall i, j | 0 <= i < j < |m| :: m[i] < m[j])
            && forall k :: k in m <==> k in Victims(rows, pred) && from <= k < end
  {
    MatchingAscends(rows, from, end, pred);
    forall k: nat
      ensures k in Matching(Listing(rows, from, end), pred) <==> k in Victims(rows, pred) && from <= k < end
    {
      MatchingHas(rows, from, end, pred, k);
    }
  }

  lemma {:induction false} AscendingCount(m: seq<nat>, s: set<nat>)
    requires (forall i, j | 0 <= i < j < |m| :: m[i] < m[j]) && forall k :: k in m <==> k in s
    ensures |m| == |s|
  {
    if m == [] {
      assert s == {};
    } else {
      assert forall k :: k in m[1..] <==> k in s - {m[0]};
      AscendingCount(m[1..], s - {m[0]});
    }
  }
}
