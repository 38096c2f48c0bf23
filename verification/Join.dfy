/** Joins over rendered rows: name resolution, the nested loop, and when a filter may be pushed below it. */
module Join {
  import opened Bytes
  import opened Schema
  import opened Decimal
  import opened Scans
  import opened Query

  const DOT: byte := 46

  // ---------------------------------------------------------------- column names

  /** The position of the first dot, or the length of a name without one. */
  function DotPos(s: Str): (i: nat)
    ensures i <= |s| && (forall j | 0 <= j < i :: s[j] != DOT) && (i < |s| ==> s[i] == DOT)
  {
    if s == [] || s[0] == DOT then 0 else 1 + DotPos(s[1..])
  }

  predicate Qualified(ref: Str) { DotPos(ref) < |ref| }

  /** What follows the first dot, or the whole name. */
  function Bare(s: Str): Str {
    if Qualified(s) then s[DotPos(s) + 1..] else s
  }

  /** Whether a reference means a given combined column. */
  predicate Names(ref: Str, col: Str) {
    if Qualified(ref) then col == ref else Bare(col) == ref
  }

  const NOT_FOUND: int := -1
  const AMBIGUOUS: int := -2

  /** How `ref` resolves: qualified to the first column of that name, bare to the only one. */
  ghost predicate ResolvesTo(ref: Str, cols: seq<Str>, r: int) {
    && AMBIGUOUS <= r < |cols|
    && (r >= 0 ==> Names(ref, cols[r]) && forall i | 0 <= i < r :: !Names(ref, cols[i]))
    && (r >= 0 && !Qualified(ref) ==> forall i | 0 <= i < |cols| && i != r :: !Names(ref, cols[i]))
    && (r == NOT_FOUND ==> forall i | 0 <= i < |cols| :: !Names(ref, cols[i]))
    && (r == AMBIGUOUS ==>
          !Qualified(ref) && exists i, j :: 0 <= i < j < |cols| && Names(ref, cols[i]) && Names(ref, cols[j]))
  }

  lemma ResolvesOnce(ref: Str, cols: seq<Str>, r: int, q: int)
    requires ResolvesTo(ref, cols, r) && ResolvesTo(ref, cols, q)
    ensures r == q
  {
    hide Names;
  }

  /** The first column from `i` on that `ref` names, or the number of columns. */
  function FirstNamed(ref: Str, cols: seq<Str>, i: nat): (r: nat)
    requires i <= |cols|
    ensures i <= r <= |cols| && (forall j | i <= j < r :: !Names(ref, cols[j])) && (r < |cols| ==> Names(ref, cols[r]))
    decreases |cols| - i
  {
    if i == |cols| || Names(ref, cols[i]) then i else FirstNamed(ref, cols, i + 1)
  }

  function ResolveCol(ref: Str, cols: seq<Str>): (r: int)
    ensures AMBIGUOUS <= r < |cols| && ResolvesTo(ref, cols, r)
  {
    var first := FirstNamed(ref, cols, 0);
    if first == |cols| then NOT_FOUND
    else if !Qualified(ref) && FirstNamed(ref, cols, first + 1) < |cols| then AMBIGUOUS
    else first
  }

  /** Resolves a reference by searching the combined columns. */
  method FindCombined(ref: Str, cols: seq<Str>) returns (r: int)
    ensures r == ResolveCol(ref, cols)
  {
    hide Names, ResolveCol;
    if Qualified(ref) {
      for i := 0 to |cols|
        invariant forall j | 0 <= j < i :: !Names(ref, cols[j])
      {
        if Names(ref, cols[i]) {
          ResolvesOnce(ref, cols, i, ResolveCol(ref, cols));
          return i;
        }
      }
      ResolvesOnce(ref, cols, NOT_FOUND, ResolveCol(ref, cols));
      return NOT_FOUND;
    }
    r := NOT_FOUND;
    for i := 0 to |cols|
      invariant NOT_FOUND <= r < i && (r >= 0 ==> Names(ref, cols[r]))
      invariant forall j | 0 <= j < i && j != r :: !Names(ref, cols[j])
    {
      if Names(ref, cols[i]) {
        if r != NOT_FOUND {
          ResolvesOnce(ref, cols, AMBIGUOUS, ResolveCol(ref, cols));
          return AMBIGUOUS;
        }
        r := i;
      }
    }
    ResolvesOnce(ref, cols, r, ResolveCol(ref, cols));
  }

  function Dotted(table: Str, name: Str): Str { table + [DOT] + name }

  /** `table.col` for every column of both tables. */
  function CombinedCols(left: Str, lcols: seq<Column>, right: Str, rcols: seq<Column>): (cs: seq<Str>)
    ensures |cs| == |lcols| + |rcols|
    ensures forall i | 0 <= i < |lcols| :: cs[i] == Dotted(left, lcols[i].name)
    ensures forall i | 0 <= i < |rcols| :: cs[|lcols| + i] == Dotted(right, rcols[i].name)
  {
    seq(|lcols|, i requires 0 <= i < |lcols| => Dotted(left, lcols[i].name))
    + seq(|rcols|, i requires 0 <= i < |rcols| => Dotted(right, rcols[i].name))
  }

  lemma {:induction false} DotAfter(table: Str, name: Str)
    requires !Qualified(table)
    ensures DotPos(Dotted(table, name)) == |table| && Bare(Dotted(table, name)) == name
  {
    var s := Dotted(table, name);
    var d := DotPos(s);
    assert s[|table|] == DOT && forall j | 0 <= j < |table| :: s[j] == table[j];
    assert d == |table|;
    assert s[d + 1..] == name;
  }

  lemma SameDotted(a: Str, x: Str, b: Str, y: Str)
    requires !Qualified(a) && !Qualified(b)
    ensures Dotted(a, x) == Dotted(b, y) <==> a == b && x == y
  {
    DotAfter(a, x);
    DotAfter(b, y);
    assert Dotted(a, x)[..|a|] == a && Dotted(b, y)[..|b|] == b;
  }

  lemma DottedNames(t: Str, name: Str, u: Str, x: Str)
    requires !Qualified(t) && !Qualified(u)
    ensures Qualified(Dotted(t, name)) && (Names(Dotted(t, name), Dotted(u, x)) <==> t == u && x == name)
  {
    DotAfter(t, name);
    SameDotted(u, x, t, name);
  }

  lemma BareNames(name: Str, u: Str, x: Str)
    requires !Qualified(name) && !Qualified(u)
    ensures Names(name, Dotted(u, x)) <==> x == name
  {
    DotAfter(u, x);
  }

  lemma FirstResolves(ref: Str, cs: seq<Str>, q: nat)
    requires Qualified(ref) && q < |cs| && forall i | 0 <= i <= q :: Names(ref, cs[i]) <==> i == q
    ensures ResolveCol(ref, cs) == q
  {
    hide Names, Qualified, ResolveCol;
    ResolvesOnce(ref, cs, q, ResolveCol(ref, cs));
  }

  /** A reference qualified by the left table finds the column it names there. */
  lemma QualifiedLeft(left: Str, lcols: seq<Column>, right: Str, rcols: seq<Column>, name: Str)
    requires !Qualified(left) && ColIndex(lcols, name) >= 0
    ensures ResolveCol(Dotted(left, name), CombinedCols(left, lcols, right, rcols)) == ColIndex(lcols, name)
  {
    hide Names, Qualified, CombinedCols, Dotted, ResolveCol, ResolvesTo;
    var cs, q := CombinedCols(left, lcols, right, rcols), ColIndex(lcols, name);
    hide ColIndex;
    forall i | 0 <= i <= q
      ensures Names(Dotted(left, name), cs[i]) <==> i == q
    {
      DottedNames(left, name, left, lcols[i].name);
    }
    DottedNames(left, name, left, name);
    FirstResolves(Dotted(left, name), cs, q);
  }

  lemma QualifiedApart(left: Str, lcols: seq<Column>, right: Str, rcols: seq<Column>, name: Str)
    requires !Qualified(left) && !Qualified(right) && ColIndex(rcols, name) >= 0
    requires left != right || ColIndex(lcols, name) < 0
    ensures ResolveCol(Dotted(right, name), CombinedCols(left, lcols, right, rcols)) == |lcols| + ColIndex(rcols, name)
  {
    hide Names, Qualified, CombinedCols, Dotted, ResolveCol, ResolvesTo;
    var cs, q := CombinedCols(left, lcols, right, rcols), |lcols| + ColIndex(rcols, name);
    hide ColIndex;
    forall i | 0 <= i <= q
      ensures Names(Dotted(right, name), cs[i]) <==> i == q
    {
      if i < |lcols| {
        assert left == right ==> lcols[i].name != name;
        DottedNames(right, name, left, lcols[i].name);
      } else {
        assert cs[|lcols| + (i - |lcols|)] == Dotted(right, rcols[i - |lcols|].name);
        DottedNames(right, name, right, rcols[i - |lcols|].name);
      }
    }
    DottedNames(right, name, right, name);
    FirstResolves(Dotted(right, name), cs, q);
  }

  /** One qualified by the right table does too, unless both tables have one name and the left one has such a column. */
  lemma QualifiedRight(left: Str, lcols: seq<Column>, right: Str, rcols: seq<Column>, name: Str)
    requires !Qualified(left) && !Qualified(right) && ColIndex(rcols, name) >= 0
    ensures ResolveCol(Dotted(right, name), CombinedCols(left, lcols, right, rcols)) == |lcols| + ColIndex(rcols, name)
       <==> left != right || ColIndex(lcols, name) < 0
  {
    hide Qualified, CombinedCols, Dotted, ResolveCol, ResolvesTo, ColIndex;
    if left == right && ColIndex(lcols, name) >= 0 {
      QualifiedLeft(left, lcols, right, rcols, name);
    } else {
      QualifiedApart(left, lcols, right, rcols, name);
    }
  }

  /** Exactly one of `cols` has that name. */
  ghost predicate OnlyOne(cols: seq<Column>, name: Str) {
    exists i :: 0 <= i < |cols| && cols[i].name == name && forall j | 0 <= j < |cols| && j != i :: cols[j].name != name
  }

  lemma BareMeans(left: Str, lcols: seq<Column>, right: Str, rcols: seq<Column>, name: Str)
    requires !Qualified(left) && !Qualified(right) && !Qualified(name)
    ensures var cs, both := CombinedCols(left, lcols, right, rcols), lcols + rcols;
            forall i | 0 <= i < |cs| :: Names(name, cs[i]) <==> both[i].name == name
  {
    hide Names, Qualified, CombinedCols, Dotted;
    var cs, both := CombinedCols(left, lcols, right, rcols), lcols + rcols;
    forall i | 0 <= i < |cs|
      ensures Names(name, cs[i]) <==> both[i].name == name
    {
      if i < |lcols| {
        BareNames(name, left, lcols[i].name);
      } else {
        assert cs[|lcols| + (i - |lcols|)] == Dotted(right, rcols[i - |lcols|].name);
        BareNames(name, right, rcols[i - |lcols|].name);
      }
    }
  }

  lemma OnlyOneResolves(ref: Str, cs: seq<Str>, cols: seq<Column>, r: int)
    requires |cs| == |cols| && !Qualified(ref) && forall i | 0 <= i < |cs| :: Names(ref, cs[i]) <==> cols[i].name == ref
    requires ResolvesTo(ref, cs, r)
    ensures r >= 0 <==> OnlyOne(cols, ref)
  {
    hide Names, Qualified;
    if r >= 0 {
      assert cols[r].name == ref;
    }
  }

  lemma FirstOfBoth(lcols: seq<Column>, rcols: seq<Column>, name: Str)
    ensures var l, q, both := ColIndex(lcols, name), ColIndex(rcols, name), lcols + rcols;
            && (l >= 0 <==> exists i :: 0 <= i < |lcols| && both[i].name == name)
            && (q >= 0 <==> exists i :: |lcols| <= i < |both| && both[i].name == name)
            && (l >= 0 ==> both[l].name == name) && (q >= 0 ==> both[|lcols| + q].name == name)
  {
    hide ColIndex;
    var l, q, both := ColIndex(lcols, name), ColIndex(rcols, name), lcols + rcols;
    forall i | |lcols| <= i < |both|
      ensures both[i] == rcols[i - |lcols|]
    {
    }
    forall i | 0 <= i < |lcols|
      ensures both[i] == lcols[i]
    {
    }
    assert l >= 0 ==> both[l] == lcols[l];
    assert q >= 0 ==> both[|lcols| + q] == rcols[q];
    if exists i :: |lcols| <= i < |both| && both[i].name == name {
      var i :| |lcols| <= i < |both| && both[i].name == name;
      assert rcols[i - |lcols|].name == name;
    }
  }

  /** A bare reference finds the only column of that name in the two tables together, exactly if there is only one. */
  lemma BareResolves(left: Str, lcols: seq<Column>, right: Str, rcols: seq<Column>, name: Str)
    requires !Qualified(left) && !Qualified(right) && !Qualified(name)
    ensures var r := ResolveCol(name, CombinedCols(left, lcols, right, rcols));
            && (0 <= r < |lcols| ==> r == ColIndex(lcols, name) && ColIndex(rcols, name) < 0)
            && (|lcols| <= r ==> r - |lcols| == ColIndex(rcols, name) && ColIndex(lcols, name) < 0)
            && (r == NOT_FOUND <==> ColIndex(lcols, name) < 0 && ColIndex(rcols, name) < 0)
            && (r >= 0 <==> OnlyOne(lcols + rcols, name))
  {
    hide Names, Qualified, CombinedCols, ResolveCol, OnlyOne, ColIndex;
    var cs := CombinedCols(left, lcols, right, rcols);
    BareMeans(left, lcols, right, rcols, name);
    OnlyOneResolves(name, cs, lcols + rcols, ResolveCol(name, cs));
    FirstOfBoth(lcols, rcols, name);
  }

  /** The table part of a reference, empty if it has none. */
  function TablePart(ref: Str): Str {
    if Qualified(ref) then ref[..DotPos(ref)] else []
  }

  /**
   * The column names of an ON clause, the left table's first; a clause that starts with the right table is turned
   * round.
   */
  function OnNames(first: Str, second: Str, right: Str): (Str, Str) {
    if TablePart(first) != [] && TablePart(first) == right then (Bare(second), Bare(first))
    else (Bare(first), Bare(second))
  }

  function RefSlots(refs: seq<Str>, cols: seq<Str>): (s: seq<int>)
    ensures |s| == |refs| && forall i | 0 <= i < |s| :: s[i] == ResolveCol(refs[i], cols)
  {
    hide ResolveCol, ResolvesTo;
    seq(|refs|, i requires 0 <= i < |refs| => ResolveCol(refs[i], cols))
  }

  /** The position of the first reference that does not resolve, or the number of references. */
  function FirstUnresolved(refs: seq<Str>, cols: seq<Str>): (n: nat)
    ensures n <= |refs| && (forall i | 0 <= i < n :: ResolveCol(refs[i], cols) >= 0)
    ensures n < |refs| ==> ResolveCol(refs[n], cols) < 0
  {
    hide ResolveCol, ResolvesTo;
    var s := RefSlots(refs, cols);
    assert forall i | 0 <= i < |refs| :: ResolveCol(refs[i], cols) == s[i];
    FirstNegative(s)
  }

  /** The combined columns a SELECT list means, up to the first reference that does not resolve. */
  function JoinColumns(cols: seq<Str>, sel: SelectList): (idx: seq<nat>)
    ensures forall i | 0 <= i < |idx| :: idx[i] < |cols|
  {
    match sel
    case Star => seq(|cols|, i => i)
    case Named(refs) =>
      seq(FirstUnresolved(refs, cols), i requires 0 <= i < FirstUnresolved(refs, cols) => ResolveCol(refs[i], cols))
  }

  function JoinError(cols: seq<Str>, sel: SelectList): QueryError {
    match sel
    case Star => NoError
    case Named(refs) =>
      var n := FirstUnresolved(refs, cols);
      if n == |refs| then NoError
      else if ResolveCol(refs[n], cols) == AMBIGUOUS then AmbiguousColumn(refs[n])
      else UnknownColumn(refs[n])
  }

  function JoinNames(cols: seq<Str>, sel: SelectList): (names: seq<Str>) {
    var idx := JoinColumns(cols, sel);
    seq(|idx|, i requires 0 <= i < |idx| => cols[idx[i]])
  }

  method JoinOutputs(cols: seq<Str>, sel: SelectList) returns (idx: seq<nat>, names: seq<Str>, err: QueryError)
    ensures idx == JoinColumns(cols, sel) && names == JoinNames(cols, sel) && err == JoinError(cols, sel)
  {
    match sel
    case Star =>
      idx, names := seq(|cols|, i => i), cols;
      err := NoError;
    case Named(refs) =>
      idx, names, err := ResolveOutputs(cols, refs);
  }

  method ResolveOutputs(cols: seq<Str>, refs: seq<Str>) returns (idx: seq<nat>, names: seq<Str>, err: QueryError)
    ensures idx == JoinColumns(cols, Named(refs)) && err == JoinError(cols, Named(refs))
    ensures names == JoinNames(cols, Named(refs))
  {
    hide ResolveCol, ResolvesTo, FirstUnresolved, RefSlots;
    idx, names, err := [], [], NoError;
    ghost var n := FirstUnresolved(refs, cols);
    for j := 0 to |refs|
      invariant j <= n && |idx| == |names| == j && err == NoError
      invariant forall i | 0 <= i < j ::
                  && idx[i] == ResolveCol(refs[i], cols) && idx[i] < |cols|
                  && names[i] == cols[idx[i]]
    {
      var ci := FindCombined(refs[j], cols);
      if ci == AMBIGUOUS {
        err := AmbiguousColumn(refs[j]);
        return;
      }
      if ci < 0 {
        err := UnknownColumn(refs[j]);
        return;
      }
      idx, names := idx + [ci], names + [cols[ci]];
    }
  }

  /** The first error a join reports: an ON column that does not exist, then a SELECT reference. */
  function JoinProblem(lcols: seq<Column>, rcols: seq<Column>, combined: seq<Str>, on: (Str, Str),
          sel: SelectList): QueryError {
    if ColIndex(lcols, on.0) < 0 then UnknownOnColumn(on.0)
    else if ColIndex(rcols, on.1) < 0 then UnknownOnColumn(on.1)
    else JoinError(combined, sel)
  }

  // ---------------------------------------------------------------- WHERE on combined rows

  /** Numbers if both sides are numbers, else text. */
  predicate CompareMixed(op: Comparison, a: Str, b: Str) {
    match (Stoi(a), Stoi(b))
    case (Some(m), Some(n)) => if op == Unknown then CompareTexts(op, a, b) else CompareInts(op, m, n)
    case _ => CompareTexts(op, a, b)
  }

  predicate MatchCombined(row: seq<Str>, cols: seq<Str>, wh: WhereClause) {
    var ci := ResolveCol(wh.col, cols);
    if !wh.active then true
    else if ci < 0 || ci >= |row| then false
    else CompareMixed(wh.op, row[ci], wh.val)
  }

  /**
   * On a TEXT column the combined comparison means what the single-table one does, for every text, exactly
   * when the literal is no number.
   */
  lemma TextComparisonsAgree(op: Comparison, val: Str)
    requires op != Unknown
    ensures (forall s: Str :: CompareMixed(op, s, val) == CompareTexts(op, s, val)) <==> Stoi(val).None?
  {
    if Stoi(val).Some? {
      TrailingJunk(val);
      LeadingTab(val);
      var above, below := val + [MINUS], [TAB] + val;
      TextLessOrders(val, above);
      TextLessOrders(below, val);
      hide Stoi, TextLess;
      var s := if op == Equal || op == NotEqual || op == AtMost || op == Greater then above else below;
      assert CompareMixed(op, s, val) != CompareTexts(op, s, val);
    }
  }

  // ---------------------------------------------------------------- the nested loop

  datatype RightRow = RightRow(key: Str, vals: seq<Str>)

  /** Which columns are joined on and shown; `cols` are the combined column names. */
  datatype Plan = Plan(onLeft: nat, onRight: nat, idx: seq<nat>, cols: seq<Str>, wh: WhereClause, limit: int)

  function Texts(row: Row): (t: seq<Str>)
    ensures |t| == |row| && forall i | 0 <= i < |t| :: t[i] == Text(row[i])
  {
    seq(|row|, i requires 0 <= i < |row| => Text(row[i]))
  }

  function Key(row: Row, on: nat): Str {
    if on < |row| then Text(row[on]) else []
  }

  function InMemory(row: Row, on: nat): RightRow { RightRow(Key(row, on), Texts(row)) }

  /** The right table as the join keeps it in memory. */
  function Materialised(l: seq<(nat, Row)>, on: nat): (rs: seq<RightRow>)
    ensures |rs| == |l|
  {
    if l == [] then [] else [InMemory(l[0].1, on)] + Materialised(l[1..], on)
  }

  function ProjectTexts(row: seq<Str>, idx: seq<nat>): (out: seq<Str>)
    ensures |out| == |idx|
  {
    seq(|idx|, i requires 0 <= i < |idx| => if idx[i] < |row| then row[idx[i]] else NULL_TEXT)
  }

  /** What one pair of rows contributes to the answer. */
  function Joined(lrow: Row, rr: RightRow, p: Plan): (out: seq<seq<Str>>)
    ensures |out| <= 1
  {
    var combined := Texts(lrow) + rr.vals;
    if Key(lrow, p.onLeft) == rr.key && MatchCombined(combined, p.cols, p.wh) then [ProjectTexts(combined, p.idx)]
    else []
  }

  /** A left and a right row, each with its rowid. */
  datatype Pair = Pair(left: nat, lrow: Row, right: nat, rrow: Row)

  function JoinedPair(pair: Pair, p: Plan): (out: seq<seq<Str>>)
    ensures |out| <= 1
  {
    Joined(pair.lrow, InMemory(pair.rrow, p.onRight), p)
  }

  /** One left row with each right row. */
  function Paired(l: (nat, Row), right: seq<(nat, Row)>): (ps: seq<Pair>)
    ensures |ps| == |right| && forall i | 0 <= i < |ps| :: ps[i] == Pair(l.0, l.1, right[i].0, right[i].1)
  {
    seq(|right|, i requires 0 <= i < |right| => Pair(l.0, l.1, right[i].0, right[i].1))
  }

  /** The pairs in the order of the nested loop. */
  function Cross(left: seq<(nat, Row)>, right: seq<(nat, Row)>): (ps: seq<Pair>) {
    if left == [] then [] else Paired(left[0], right) + Cross(left[1..], right)
  }

  ghost predicate Ascending(l: seq<(nat, Row)>) {
    forall i, j | 0 <= i < j < |l| :: l[i].0 < l[j].0
  }

  /** By left rowid and then by right rowid. */
  ghost predicate Before(a: Pair, b: Pair) {
    a.left < b.left || (a.left == b.left && a.right < b.right)
  }

  lemma {:induction false} CrossMembers(left: seq<(nat, Row)>, right: seq<(nat, Row)>)
    ensures forall pair: Pair ::
              pair in Cross(left, right) <==> (pair.left, pair.lrow) in left && (pair.right, pair.rrow) in right
  {
    if left == [] {
    } else {
      CrossMembers(left[1..], right);
      var head, rest := Paired(left[0], right), Cross(left[1..], right);
      assert left == [left[0]] + left[1..];
      forall pair: Pair
        ensures pair in head <==> (pair.left, pair.lrow) == left[0] && (pair.right, pair.rrow) in right
      {
        if (pair.left, pair.lrow) == left[0] && (pair.right, pair.rrow) in right {
          var i :| 0 <= i < |right| && right[i] == (pair.right, pair.rrow);
          assert head[i] == pair;
        }
      }
    }
  }

  ghost predicate InOrder(ps: seq<Pair>) {
    forall i, j | 0 <= i < j < |ps| :: Before(ps[i], ps[j])
  }

  lemma {:induction false} CrossAscends(left: seq<(nat, Row)>, right: seq<(nat, Row)>)
    requires Ascending(left) && Ascending(right)
    ensures InOrder(Cross(left, right))
  {
    if left == [] {
    } else {
      var head, rest, tail := Paired(left[0], right), Cross(left[1..], right), left[1..];
      assert forall i | 0 <= i < |tail| :: tail[i] == left[i + 1];
      CrossAscends(tail, right);
      CrossMembers(tail, right);
      hide Cross;
      assert InOrder(head);
      forall i, j | 0 <= i < |head| && 0 <= j < |rest|
        ensures Before(head[i], rest[j])
      {
        assert rest[j] in rest;
      }
      InOrderAppend(head, rest);
    }
  }

  lemma InOrderAppend(a: seq<Pair>, b: seq<Pair>)
    requires InOrder(a) && InOrder(b) && forall i, j | 0 <= i < |a| && 0 <= j < |b| :: Before(a[i], b[j])
    ensures InOrder(a + b)
  {
    hide Before;
  }

  lemma {:induction false} CrossCount(left: seq<(nat, Row)>, right: seq<(nat, Row)>)
    ensures |Cross(left, right)| == |left| * |right|
  {
    if left == [] {
    } else {
      CrossCount(left[1..], right);
    }
  }

  /**
   * On two tables the nested loop meets every live left row with every live right row, once, by left and then by right
   * rowid.
   */
  lemma CrossExact(left: map<nat, Row>, lnext: nat, right: map<nat, Row>, rnext: nat)
    ensures var ps := Cross(Listing(left, 1, lnext), Listing(right, 1, rnext));
            && (forall pair: Pair :: pair in ps <==>
                  && 1 <= pair.left < lnext && pair.left in left && pair.lrow == left[pair.left]
                  && 1 <= pair.right < rnext && pair.right in right && pair.rrow == right[pair.right])
            && InOrder(ps) && |ps| == |Listing(left, 1, lnext)| * |Listing(right, 1, rnext)|
  {
    hide Cross, InOrder;
    CrossCount(Listing(left, 1, lnext), Listing(right, 1, rnext));
    ListingExact(left, 1, lnext);
    ListingExact(right, 1, rnext);
    CrossMembers(Listing(left, 1, lnext), Listing(right, 1, rnext));
    CrossAscends(Listing(left, 1, lnext), Listing(right, 1, rnext));
  }

  /** What the pairs yield, one after the other. */
  function AllJoined(ps: seq<Pair>, p: Plan): seq<seq<Str>> {
    if ps == [] then [] else JoinedPair(ps[0], p) + AllJoined(ps[1..], p)
  }

  /** What a join answers: the pairs that match, projected, in order, up to the limit. */
  function JoinAnswer(left: seq<(nat, Row)>, right: seq<(nat, Row)>, p: Plan): seq<seq<Str>> {
    Limited(p.limit, AllJoined(Cross(left, right), p))
  }

  /** The ON columns agree as text, and the WHERE clause holds of the combined row. */
  predicate PairMatches(pair: Pair, p: Plan) {
    && Key(pair.lrow, p.onLeft) == Key(pair.rrow, p.onRight)
    && MatchCombined(Texts(pair.lrow) + Texts(pair.rrow), p.cols, p.wh)
  }

  lemma {:induction false} NoneJoined(ps: seq<Pair>, p: Plan)
    ensures AllJoined(ps, p) == [] <==> forall pair | pair in ps :: !PairMatches(pair, p)
  {
    hide MatchCombined;
    if ps == [] {
    } else {
      NoneJoined(ps[1..], p);
      assert JoinedPair(ps[0], p) == [] <==> !PairMatches(ps[0], p);
      hide PairMatches, JoinedPair;
      assert ps == [ps[0]] + ps[1..];
    }
  }

  /** A join exceeds its limit exactly when that is negative, or 0 and some pair matches. */
  lemma JoinLimitCaps(left: seq<(nat, Row)>, right: seq<(nat, Row)>, p: Plan)
    ensures |JoinAnswer(left, right, p)| > p.limit
       <==> p.limit < 0 || (p.limit == 0 && exists pair :: pair in Cross(left, right) && PairMatches(pair, p))
    ensures p.limit <= 0 ==> JoinAnswer(left, right, p) == AllJoined(Cross(left, right), p)
  {
    hide PairMatches;
    NoneJoined(Cross(left, right), p);
  }

  /** The inner loop: one left row against the right rows not seen yet. */
  function JoinRow(acc: Progress, lrow: Row, right: seq<RightRow>, p: Plan): (Progress, bool)
    decreases |right|
  {
    if right == [] then (acc, true)
    else
      var seen := acc.scanned + 1;
      var out := Joined(lrow, right[0], p);
      if out == [] then JoinRow(Progress(acc.rows, seen, acc.returned), lrow, right[1..], p)
      else
        var next := Progress(acc.rows + out, seen, acc.returned + 1);
        if p.limit > 0 && next.returned >= p.limit then (next, false)
        else JoinRow(next, lrow, right[1..], p)
  }

  function JoinLeft(right: seq<RightRow>, p: Plan): (Progress, nat, Row) -> (Progress, bool) {
    (acc, rid, row) => JoinRow(acc, row, right, p)
  }

  /**
   * `acc` has become `next` by going through the first `n` pairs of `ps`; it stopped early only when full, and when
   * full at once.
   */
  ghost predicate WentThrough(acc: Progress, next: Progress, ps: seq<Pair>, n: nat, p: Plan) {
    && n <= |ps| && next.scanned == acc.scanned + n && next.returned == |next.rows|
    && next.rows == acc.rows + AllJoined(ps[..n], p)
    && (p.limit > 0 ==> |next.rows| <= p.limit)
    && (n < |ps| ==> p.limit > 0 && |next.rows| == p.limit)
    && (p.limit > 0 && |next.rows| == p.limit ==> n > 0 && JoinedPair(ps[n - 1], p) != [])
  }

  ghost predicate Unfilled(acc: Progress, p: Plan) {
    acc.returned == |acc.rows| && (p.limit > 0 ==> acc.returned < p.limit)
  }

  lemma {:induction false} AllJoinedAppend(a: seq<Pair>, b: seq<Pair>, p: Plan)
    ensures AllJoined(a + b, p) == AllJoined(a, p) + AllJoined(b, p)
  {
    hide JoinedPair;
    if a == [] {
      assert a + b == b;
    } else {
      assert (a + b)[1..] == a[1..] + b;
      AllJoinedAppend(a[1..], b, p);
    }
  }

  lemma WentNowhere(acc: Progress, ps: seq<Pair>, p: Plan)
    requires Unfilled(acc, p) && ps == []
    ensures WentThrough(acc, acc, ps, 0, p)
  {
    assert acc.rows + [] == acc.rows;
  }

  lemma WentFurther(acc: Progress, mid: Progress, last: Progress, a: seq<Pair>, b: seq<Pair>,
          n: nat, p: Plan)
    requires Unfilled(mid, p) && WentThrough(acc, mid, a, |a|, p) && WentThrough(mid, last, b, n, p)
    ensures WentThrough(acc, last, a + b, |a| + n, p)
  {
    hide AllJoined, JoinedPair;
    assert a[..|a|] == a && (a + b)[..|a| + n] == a + b[..n];
    AllJoinedAppend(a, b[..n], p);
    assert n > 0 ==> (a + b)[|a| + n - 1] == b[n - 1];
    assert acc.rows + (AllJoined(a, p) + AllJoined(b[..n], p)) == mid.rows + AllJoined(b[..n], p);
  }

  lemma StoppedWithin(acc: Progress, last: Progress, a: seq<Pair>, b: seq<Pair>, n: nat, p: Plan)
    requires WentThrough(acc, last, a, n, p) && p.limit > 0 && |last.rows| == p.limit
    ensures WentThrough(acc, last, a + b, n, p)
  {
    assert (a + b)[..n] == a[..n];
  }

  /** The inner loop goes through the pairs of one left row. */
  lemma {:induction false} RowJoins(acc: Progress, l: (nat, Row), right: seq<(nat, Row)>, p: Plan) returns (n: nat)
    requires Unfilled(acc, p)
    decreases |right|
    ensures var (next, more) := JoinRow(acc, l.1, Materialised(right, p.onRight), p);
            && WentThrough(acc, next, Paired(l, right), n, p)
            && (more ==> n == |right| == |Paired(l, right)| && Unfilled(next, p))
            && (!more ==> p.limit > 0 && |next.rows| == p.limit)
  {
    hide Joined, InMemory;
    var ps := Paired(l, right);
    if right == [] {
      WentNowhere(acc, ps, p);
      n := 0;
    } else {
      var pair, rest := Pair(l.0, l.1, right[0].0, right[0].1), Materialised(right[1..], p.onRight);
      var out := JoinedPair(pair, p);
      var mid := Progress(acc.rows + out, acc.scanned + 1, |acc.rows + out|);
      assert ps == [pair] + Paired(l, right[1..]);
      assert Materialised(right, p.onRight)[1..] == rest;
      PairJoined(acc, mid, pair, p);
      assert acc.rows + [] == acc.rows;
      if out != [] && p.limit > 0 && mid.returned >= p.limit {
        StoppedWithin(acc, mid, [pair], Paired(l, right[1..]), 1, p);
        n := 1;
      } else {
        var m := RowJoins(mid, l, right[1..], p);
        WentFurther(acc, mid, JoinRow(mid, l.1, rest, p).0, [pair], Paired(l, right[1..]), m, p);
        n := 1 + m;
      }
    }
  }

  lemma PairJoined(acc: Progress, mid: Progress, pair: Pair, p: Plan)
    requires Unfilled(acc, p)
    requires var rows := acc.rows + JoinedPair(pair, p); mid == Progress(rows, acc.scanned + 1, |rows|)
    ensures WentThrough(acc, mid, [pair], 1, p)
  {
    var ps := [pair];
    assert ps[..1] == ps && ps[1..] == [];
    var out := JoinedPair(pair, p);
    assert AllJoined(ps, p) == out + [];
    assert out + [] == out;
  }

  /** The nested loop goes through all pairs in order and stops early only at a full answer. */
  lemma {:induction false} FoldJoins(left: seq<(nat, Row)>, right: seq<(nat, Row)>, p: Plan, acc: Progress)
    returns (n: nat)
    requires Unfilled(acc, p)
    ensures WentThrough(acc, Fold(left, JoinLeft(Materialised(right, p.onRight), p), acc).0, Cross(left, right), n, p)
  {
    if left == [] {
      WentNowhere(acc, Cross(left, right), p);
      n := 0;
    } else {
      hide JoinRow, WentThrough, Paired, Materialised;
      var rs := Materialised(right, p.onRight);
      var cb := JoinLeft(rs, p);
      var l := left[0];
      var (next, more) := cb(acc, l.0, l.1);
      assert (next, more) == JoinRow(acc, l.1, rs, p);
      var m := RowJoins(acc, l, right, p);
      if more {
        var k := FoldJoins(left[1..], right, p, next);
        WentFurther(acc, next, Fold(left[1..], cb, next).0, Paired(l, right), Cross(left[1..], right), k, p);
        n := m + k;
      } else {
        StoppedWithin(acc, next, Paired(l, right), Cross(left[1..], right), m, p);
        n := m;
      }
    }
  }

  /**
   * `out` took exactly the first `n` pairs of `ps`: they yield it, all pairs were looked at unless the limit was
   * reached, and when it was reached, the last pair looked at is the one that filled the answer.
   */
  ghost predicate PairsSeenFor(ps: seq<Pair>, p: Plan, out: seq<seq<Str>>, n: nat) {
    && n <= |ps| && out == AllJoined(ps[..n], p)
    && (n < |ps| ==> p.limit > 0 && |out| == p.limit)
    && (p.limit > 0 && |out| == p.limit ==> n > 0 && JoinedPair(ps[n - 1], p) != [])
  }

  /** No other number of pairs would do. */
  lemma PairsSeenExactly(ps: seq<Pair>, p: Plan, out: seq<seq<Str>>, n: nat, m: nat)
    requires PairsSeenFor(ps, p, out, n) && PairsSeenFor(ps, p, out, m)
    ensures n == m
  {
    hide JoinedPair;
    if n < m {
      PairsSeenNoFewer(ps, p, n, m);
    } else if m < n {
      PairsSeenNoFewer(ps, p, m, n);
    }
  }

  lemma PairsSeenNoFewer(ps: seq<Pair>, p: Plan, n: nat, m: nat)
    requires n < m <= |ps| && JoinedPair(ps[m - 1], p) != []
    ensures |AllJoined(ps[..n], p)| < |AllJoined(ps[..m], p)|
  {
    hide JoinedPair;
    assert ps[..m] == ps[..m - 1] + [ps[m - 1]] && ps[..m - 1] == ps[..n] + ps[n..m - 1];
    AllJoinedAppend(ps[..m - 1], [ps[m - 1]], p);
    AllJoinedAppend(ps[..n], ps[n..m - 1], p);
    var last := [ps[m - 1]];
    assert last[1..] == [];
  }

  /** So a join answers exactly the matching pairs in order, cut to the limit, and looks at the pairs that takes. */
  lemma JoinIsCorrect(left: seq<(nat, Row)>, right: seq<(nat, Row)>, p: Plan)
    ensures var rs := Materialised(right, p.onRight);
            var out := Fold(left, JoinLeft(rs, p), Progress([], 0, 0)).0;
            out.rows == JoinAnswer(left, right, p) && PairsSeenFor(Cross(left, right), p, out.rows, out.scanned)
  {
    hide JoinedPair, JoinLeft;
    var rs := Materialised(right, p.onRight);
    var start, ps := Progress([], 0, 0), Cross(left, right);
    var n := FoldJoins(left, right, p, start);
    var out := Fold(left, JoinLeft(rs, p), start).0;
    assert [] + AllJoined(ps[..n], p) == AllJoined(ps[..n], p);
    assert ps == ps[..n] + ps[n..];
    AllJoinedAppend(ps[..n], ps[n..], p);
    assert ps[..|ps|] == ps;
  }

  function Collect(on: nat): (seq<RightRow>, nat, Row) -> (seq<RightRow>, bool) {
    (acc, rid, row) => (acc + [InMemory(row, on)], true)
  }

  lemma {:induction false} CollectsAll(l: seq<(nat, Row)>, on: nat, acc: seq<RightRow>)
    ensures Fold(l, Collect(on), acc) == (acc + Materialised(l, on), |l|)
  {
    if l == [] {
      assert acc + [] == acc;
    } else {
      hide InMemory;
      var rr := InMemory(l[0].1, on);
      CollectsAll(l[1..], on, acc + [rr]);
      assert acc + [rr] + Materialised(l[1..], on) == acc + ([rr] + Materialised(l[1..], on));
    }
  }

  // ---------------------------------------------------------------- integer keys and filter pushdown

  /** The listed rows that satisfy a WHERE clause. */
  function Filtered(l: seq<(nat, Row)>, cols: seq<Column>, wh: WhereClause): seq<(nat, Row)> {
    if l == [] then []
    else (if MatchWhere(l[0].1, cols, wh) then [l[0]] else []) + Filtered(l[1..], cols, wh)
  }

  /** A WHERE clause on INT column `c` of one table, whose columns start at `offset` of the combined ones. */
  ghost predicate IntegerFilter(p: Plan, offset: nat, cols: seq<Column>, c: nat) {
    && p.wh.active && Stoi(p.wh.val).Some?
    && c < |cols| && cols[c].ty == INT && ColIndex(cols, cols[c].name) == c
    && ResolveCol(p.wh.col, p.cols) == offset + c
  }

  /** The same clause for the table alone. */
  function Alone(wh: WhereClause, col: Column): WhereClause { wh.(col := col.name) }

  function Unfiltered(p: Plan): Plan { p.(wh := p.wh.(active := false)) }

  ghost predicate FullWidth(l: seq<(nat, Row)>, cols: seq<Column>) {
    forall i | 0 <= i < |l| :: |l[i].1| == |cols| && WellTyped(cols, l[i].1)
  }

  ghost predicate AllFullWidth(cols: seq<Column>, rows: map<nat, Row>) {
    forall k | k in rows :: |rows[k]| == |cols| && WellTyped(cols, rows[k])
  }

  /** What a pair yields when the columns joined on are compared as integers. */
  function IntegerJoined(pair: Pair, p: Plan): (out: seq<seq<Str>>) {
    var combined := Texts(pair.lrow) + Texts(pair.rrow);
    if p.onLeft < |pair.lrow| && p.onRight < |pair.rrow| && pair.lrow[p.onLeft].intVal == pair.rrow[p.onRight].intVal
       && MatchCombined(combined, p.cols, p.wh) then [ProjectTexts(combined, p.idx)] else []
  }

  function AllIntegerJoined(ps: seq<Pair>, p: Plan): seq<seq<Str>> {
    if ps == [] then [] else IntegerJoined(ps[0], p) + AllIntegerJoined(ps[1..], p)
  }

  ghost predicate IntegerOn(pair: Pair, p: Plan) {
    && p.onLeft < |pair.lrow| && pair.lrow[p.onLeft].ty == INT
    && p.onRight < |pair.rrow| && pair.rrow[p.onRight].ty == INT
  }

  /** Joining two INT columns compares integers, though the join compares their text. */
  lemma IntegerKeys(pair: Pair, p: Plan)
    requires IntegerOn(pair, p)
    ensures JoinedPair(pair, p) == IntegerJoined(pair, p)
  {
    RenderInjective(pair.lrow[p.onLeft].intVal, pair.rrow[p.onRight].intVal);
  }

  lemma {:induction false} AllIntegerKeys(ps: seq<Pair>, p: Plan)
    requires forall pair | pair in ps :: IntegerOn(pair, p)
    ensures AllJoined(ps, p) == AllIntegerJoined(ps, p)
  {
    hide JoinedPair, IntegerJoined, IntegerOn;
    if ps == [] {
    } else {
      assert ps[0] in ps;
      IntegerKeys(ps[0], p);
      AllIntegerKeys(ps[1..], p);
    }
  }

  /** So on rows of full width and two INT columns the join is the join by integer equality. */
  lemma IntegerJoin(left: seq<(nat, Row)>, right: seq<(nat, Row)>, p: Plan, lcols: seq<Column>, rcols: seq<Column>)
    requires FullWidth(left, lcols) && FullWidth(right, rcols)
    requires p.onLeft < |lcols| && lcols[p.onLeft].ty == INT && p.onRight < |rcols| && rcols[p.onRight].ty == INT
    ensures JoinAnswer(left, right, p) == Limited(p.limit, AllIntegerJoined(Cross(left, right), p))
  {
    hide Cross;
    CrossMembers(left, right);
    forall pair | pair in Cross(left, right)
      ensures IntegerOn(pair, p)
    {
      assert (pair.left, pair.lrow) in left && (pair.right, pair.rrow) in right;
    }
    AllIntegerKeys(Cross(left, right), p);
  }

  lemma ListingFullWidth(rows: map<nat, Row>, from: nat, end: nat, cols: seq<Column>)
    requires AllFullWidth(cols, rows)
    ensures FullWidth(Listing(rows, from, end), cols)
  {
    hide WellTyped;
    ListingExact(rows, from, end);
    var l := Listing(rows, from, end);
    forall i | 0 <= i < |l|
      ensures l[i].0 in rows && l[i].1 == rows[l[i].0]
    {
      assert (l[i].0, l[i].1) in l;
    }
  }

  /** Rows stay of full width as long as rows of full width are inserted. */
  lemma FullWidthKept(rows: map<nat, Row>, pred: (nat, Row) -> bool, cols: seq<Column>, next: nat, row: Row)
    requires AllFullWidth(cols, rows)
    ensures AllFullWidth(cols, Survivors(rows, pred))
    ensures |row| >= |cols| ==> AllFullWidth(cols, rows[next := Coerce(cols, row)])
  {
    TypedIsCoerced(cols, row);
  }

  /** On an integer column rendering and reading back loses nothing, so both WHERE evaluators agree. */
  lemma EvaluatorsAgree(combined: seq<Str>, row: Row, p: Plan, offset: nat, cols: seq<Column>, c: nat)
    requires IntegerFilter(p, offset, cols, c) && |row| == |cols| && WellTyped(cols, row)
    requires offset + c < |combined| && combined[offset + c] == Text(row[c])
    ensures MatchCombined(combined, p.cols, p.wh) == MatchWhere(row, cols, Alone(p.wh, cols[c]))
  {
    RenderRoundTrip(row[c].intVal);
  }

  lemma {:induction false} FilteredPairs(l: (nat, Row), right: seq<(nat, Row)>, p: Plan, keep: bool)
    requires forall i | 0 <= i < |right| :: MatchCombined(Texts(l.1) + Texts(right[i].1), p.cols, p.wh) == keep
    ensures AllJoined(Paired(l, right), p) == if keep then AllJoined(Paired(l, right), Unfiltered(p)) else []
    decreases |right|
  {
    if right == [] {
    } else {
      FilteredPairs(l, right[1..], p, keep);
      assert Paired(l, right)[1..] == Paired(l, right[1..]);
      var pair := Pair(l.0, l.1, right[0].0, right[0].1);
      assert MatchCombined(Texts(l.1) + Texts(right[0].1), p.cols, p.wh) == keep;
      assert MatchCombined(Texts(l.1) + Texts(right[0].1), p.cols, Unfiltered(p).wh);
      hide MatchCombined;
      assert JoinedPair(pair, p) == if keep then JoinedPair(pair, Unfiltered(p)) else [];
    }
  }

  lemma {:induction false} LeftPairsFiltered(left: seq<(nat, Row)>, right: seq<(nat, Row)>, p: Plan,
          lcols: seq<Column>, c: nat)
    requires IntegerFilter(p, 0, lcols, c) && FullWidth(left, lcols)
    ensures AllJoined(Cross(left, right), p)
         == AllJoined(Cross(Filtered(left, lcols, Alone(p.wh, lcols[c])), right), Unfiltered(p))
  {
    hide MatchCombined, MatchWhere, IntegerFilter, Paired;
    if left == [] {
    } else {
      FilterColumn(p, 0, lcols, c);
      var wh, l := Alone(p.wh, lcols[c]), left[0];
      assert FullWidth(left[1..], lcols) by {
        assert forall i | 0 <= i < |left[1..]| :: left[1..][i] == left[i + 1];
      }
      LeftPairsFiltered(left[1..], right, p, lcols, c);
      forall i | 0 <= i < |right|
        ensures MatchCombined(Texts(l.1) + Texts(right[i].1), p.cols, p.wh) == MatchWhere(l.1, lcols, wh)
      {
        EvaluatorsAgree(Texts(l.1) + Texts(right[i].1), l.1, p, 0, lcols, c);
      }
      FilteredPairs(l, right, p, MatchWhere(l.1, lcols, wh));
      AllJoinedAppend(Paired(l, right), Cross(left[1..], right), p);
      var kept := Filtered(left[1..], lcols, wh);
      if MatchWhere(l.1, lcols, wh) {
        assert Filtered(left, lcols, wh) == [l] + kept && ([l] + kept)[1..] == kept;
        AllJoinedAppend(Paired(l, right), Cross(kept, right), Unfiltered(p));
      } else {
        assert Filtered(left, lcols, wh) == [] + kept == kept;
      }
    }
  }

  lemma FilterColumn(p: Plan, offset: nat, cols: seq<Column>, c: nat)
    requires IntegerFilter(p, offset, cols, c)
    ensures c < |cols|
  {
  }

  /** Filtering the left table first gives the same answer as filtering the join. */
  lemma PushdownLeft(left: seq<(nat, Row)>, right: seq<(nat, Row)>, p: Plan, lcols: seq<Column>, c: nat)
    requires IntegerFilter(p, 0, lcols, c) && FullWidth(left, lcols)
    ensures JoinAnswer(left, right, p) == JoinAnswer(Filtered(left, lcols, Alone(p.wh, lcols[c])), right, Unfiltered(p))
  {
    LeftPairsFiltered(left, right, p, lcols, c);
  }

  lemma {:induction false} RightPairsFiltered(l: (nat, Row), right: seq<(nat, Row)>, p: Plan, rcols: seq<Column>,
          c: nat)
    requires IntegerFilter(p, |l.1|, rcols, c) && FullWidth(right, rcols)
    ensures AllJoined(Paired(l, right), p)
         == AllJoined(Paired(l, Filtered(right, rcols, Alone(p.wh, rcols[c]))), Unfiltered(p))
  {
    hide MatchWhere, IntegerFilter;
    if right == [] {
    } else {
      FilterColumn(p, |l.1|, rcols, c);
      var wh, rrow := Alone(p.wh, rcols[c]), right[0].1;
      assert FullWidth(right[1..], rcols) by {
        assert forall i | 0 <= i < |right[1..]| :: right[1..][i] == right[i + 1];
      }
      RightPairsFiltered(l, right[1..], p, rcols, c);
      var combined := Texts(l.1) + Texts(rrow);
      assert combined[|l.1| + c] == Text(rrow[c]);
      EvaluatorsAgree(combined, rrow, p, |l.1|, rcols, c);
      assert MatchCombined(combined, p.cols, Unfiltered(p).wh);
      hide MatchCombined;
      var kept, pair := Filtered(right[1..], rcols, wh), Pair(l.0, l.1, right[0].0, rrow);
      assert Paired(l, right) == [pair] + Paired(l, right[1..]);
      if MatchWhere(rrow, rcols, wh) {
        assert Filtered(right, rcols, wh) == [right[0]] + kept;
        assert Paired(l, [right[0]] + kept) == [pair] + Paired(l, kept);
        assert JoinedPair(pair, p) == JoinedPair(pair, Unfiltered(p));
      } else {
        assert Filtered(right, rcols, wh) == [] + kept == kept;
        assert JoinedPair(pair, p) == [];
      }
    }
  }

  lemma {:induction false} RightFiltered(left: seq<(nat, Row)>, right: seq<(nat, Row)>, p: Plan, width: nat,
          rcols: seq<Column>, c: nat)
    requires IntegerFilter(p, width, rcols, c) && FullWidth(right, rcols)
    requires forall i | 0 <= i < |left| :: |left[i].1| == width
    ensures AllJoined(Cross(left, right), p)
         == AllJoined(Cross(left, Filtered(right, rcols, Alone(p.wh, rcols[c]))), Unfiltered(p))
  {
    hide IntegerFilter, Paired, Filtered;
    if left == [] {
    } else {
      assert forall i | 0 <= i < |left[1..]| :: left[1..][i] == left[i + 1];
      RightFiltered(left[1..], right, p, width, rcols, c);
      RightPairsFiltered(left[0], right, p, rcols, c);
      FilterColumn(p, width, rcols, c);
      var kept := Filtered(right, rcols, Alone(p.wh, rcols[c]));
      AllJoinedAppend(Paired(left[0], right), Cross(left[1..], right), p);
      AllJoinedAppend(Paired(left[0], kept), Cross(left[1..], kept), Unfiltered(p));
    }
  }

  /** And so does filtering the right table first, the left rows being of full width. */
  lemma PushdownRight(left: seq<(nat, Row)>, right: seq<(nat, Row)>, p: Plan, width: nat, rcols: seq<Column>, c: nat)
    requires IntegerFilter(p, width, rcols, c) && FullWidth(right, rcols)
    requires forall i | 0 <= i < |left| :: |left[i].1| == width
    ensures JoinAnswer(left, right, p) == JoinAnswer(left, Filtered(right, rcols, Alone(p.wh, rcols[c])), Unfiltered(p))
  {
    RightFiltered(left, right, p, width, rcols, c);
  }
}
