/** WHERE, projection and LIMIT over one table: the filtered scan, and the point lookup that replaces it. */
module Query {
  import opened Bytes
  import opened Schema
  import opened Decimal
  import opened Scans

  datatype Comparison = Equal | NotEqual | Less | Greater | AtMost | AtLeast | Unknown

  datatype WhereClause = WhereClause(active: bool, col: Str, op: Comparison, val: Str)

  datatype SelectList = Star | Named(names: seq<Str>)

  datatype QueryError = NoError | UnknownColumn(name: Str) | AmbiguousColumn(ref: Str) | UnknownOnColumn(col: Str)

  datatype SelectResult = SelectResult(cols: seq<Str>, rows: seq<seq<Str>>, error: QueryError, rowsScanned: nat)

  /** `NULL`. */
  const NULL_TEXT: Str := [78, 85, 76, 76]

  predicate CompareInts(op: Comparison, a: int, b: int) {
    match op
    case Equal => a == b
    case NotEqual => a != b
    case Less => a < b
    case Greater => a > b
    case AtMost => a <= b
    case AtLeast => a >= b
    case Unknown => false
  }

  predicate CompareTexts(op: Comparison, a: Str, b: Str) {
    match op
    case Equal => a == b
    case NotEqual => a != b
    case Less => TextLess(a, b)
    case Greater => TextLess(b, a)
    case AtMost => !TextLess(b, a)
    case AtLeast => !TextLess(a, b)
    case Unknown => false
  }

  /** The literal can be compared with the column it is compared with; `std::stoi` throws otherwise. */
  predicate Comparable(cols: seq<Column>, wh: WhereClause) {
    var ci := ColIndex(cols, wh.col);
    wh.active && ci >= 0 && cols[ci].ty == INT ==> Stoi(wh.val).Some?
  }

  /** No comparison of a row is with a literal it cannot be compared with: short rows are not compared at all. */
  ghost predicate Evaluable(rows: map<nat, Row>, cols: seq<Column>, wh: WhereClause) {
    Comparable(cols, wh) || forall k | k in rows :: |rows[k]| <= ColIndex(cols, wh.col)
  }

  predicate MatchWhere(row: Row, cols: seq<Column>, wh: WhereClause) {
    var ci := ColIndex(cols, wh.col);
    if !wh.active then true
    else if ci < 0 || ci >= |row| then false
    else if cols[ci].ty == INT then
      match Stoi(wh.val)
      case Some(n) => CompareInts(wh.op, row[ci].intVal, n)
      case None => false
    else CompareTexts(wh.op, row[ci].strVal, wh.val)
  }

  /** `Value::to_string`. */
  function Text(v: Value): Str {
    if v.ty == INT then Render(v.intVal) else v.strVal
  }

  function Project(row: Row, idx: seq<nat>): (out: seq<Str>)
    ensures |out| == |idx|
  {
    seq(|idx|, i requires 0 <= i < |idx| => if idx[i] < |row| then Text(row[idx[i]]) else NULL_TEXT)
  }

  /** The projections of the listed rows that satisfy the WHERE clause, in order. */
  function Selected(l: seq<(nat, Row)>, cols: seq<Column>, wh: WhereClause, idx: seq<nat>): seq<seq<Str>> {
    if l == [] then []
    else (if MatchWhere(l[0].1, cols, wh) then [Project(l[0].1, idx)] else []) + Selected(l[1..], cols, wh, idx)
  }

  /** A positive limit cuts the answer short. */
  function Limited<T>(limit: int, s: seq<T>): (r: seq<T>)
    ensures r <= s && (limit > 0 ==> |r| <= limit)
  {
    if limit > 0 && |s| > limit then s[..limit] else s
  }

  /** What a scan over the rows below `next` answers. */
  function ScanAnswer(rows: map<nat, Row>, next: nat, cols: seq<Column>, wh: WhereClause, idx: seq<nat>,
          limit: int): seq<seq<Str>> {
    Limited(limit, Selected(Listing(rows, 1, next), cols, wh, idx))
  }

  lemma {:induction false} NothingSelected(l: seq<(nat, Row)>, cols: seq<Column>, wh: WhereClause, idx: seq<nat>)
    ensures Selected(l, cols, wh, idx) == [] <==> forall i | 0 <= i < |l| :: !MatchWhere(l[i].1, cols, wh)
  {
    hide MatchWhere, Project;
    if l == [] {
    } else {
      NothingSelected(l[1..], cols, wh, idx);
      assert forall i | 0 <= i < |l| - 1 :: l[1..][i] == l[i + 1];
      assert forall i | 1 <= i < |l| :: l[i] == l[1..][i - 1];
    }
  }

  /** What the lookup of one rowid answers. */
  function PointAnswer(rows: map<nat, Row>, rowid: nat, idx: seq<nat>): seq<seq<Str>> {
    if rowid in rows then [Project(rows[rowid], idx)] else []
  }

  /** The limit of a statement without LIMIT. */
  const NO_LIMIT: int := -1

  /** What a select answers: one lookup on the fast path, else the filtered scan. */
  function SelectAnswer(rows: map<nat, Row>, next: nat, cols: seq<Column>, wh: WhereClause, idx: seq<nat>,
          limit: int): seq<seq<Str>> {
    if FastPath(cols, wh) then PointAnswer(rows, Target(wh), idx) else ScanAnswer(rows, next, cols, wh, idx, limit)
  }

  /** Some row is there to be shown. */
  ghost predicate AnyShown(rows: map<nat, Row>, cols: seq<Column>, wh: WhereClause) {
    if FastPath(cols, wh) then Target(wh) in rows else exists k :: k in rows && MatchWhere(rows[k], cols, wh)
  }

  lemma NoneSelected(rows: map<nat, Row>, next: nat, cols: seq<Column>, wh: WhereClause, idx: seq<nat>)
    requires forall k | k in rows :: 1 <= k < next
    ensures Selected(Listing(rows, 1, next), cols, wh, idx) == []
       <==> forall k | k in rows :: !MatchWhere(rows[k], cols, wh)
  {
    hide MatchWhere, Selected, Listing;
    var l := Listing(rows, 1, next);
    NothingSelected(l, cols, wh, idx);
    ListingExact(rows, 1, next);
    assert forall i | 0 <= i < |l| :: (l[i].0, l[i].1) in l;
    forall k | k in rows
      ensures exists i :: 0 <= i < |l| && l[i].1 == rows[k]
    {
      assert (k, rows[k]) in l;
    }
  }

  /**
   * `LIMIT n` is exceeded exactly when `n` is negative, or 0 and some row is there to be shown: only a positive limit
   * caps an answer, and the fast path does not look at it.
   */
  lemma LimitCaps(rows: map<nat, Row>, next: nat, cols: seq<Column>, wh: WhereClause, idx: seq<nat>, limit: int)
    requires forall k | k in rows :: 1 <= k < next
    ensures |SelectAnswer(rows, next, cols, wh, idx, limit)| > limit
       <==> limit < 0 || (limit == 0 && AnyShown(rows, cols, wh))
    ensures limit <= 0 || FastPath(cols, wh) ==>
              SelectAnswer(rows, next, cols, wh, idx, limit) == SelectAnswer(rows, next, cols, wh, idx, NO_LIMIT)
  {
    hide MatchWhere, FastPath, Target, Listing, Selected;
    NoneSelected(rows, next, cols, wh, idx);
  }

  // ---------------------------------------------------------------- the scanning callback

  /** What the callback keeps between rows. */
  datatype Progress = Progress(rows: seq<seq<Str>>, scanned: nat, returned: nat)

  function SelectStep(cols: seq<Column>, wh: WhereClause, idx: seq<nat>, limit: int, acc: Progress,
          row: Row): (Progress, bool) {
    if !MatchWhere(row, cols, wh) then (Progress(acc.rows, acc.scanned + 1, acc.returned), true)
    else
      var returned := acc.returned + 1;
      (Progress(acc.rows + [Project(row, idx)], acc.scanned + 1, returned), !(limit > 0 && returned >= limit))
  }

  function SelectRow(cols: seq<Column>, wh: WhereClause, idx: seq<nat>, limit: int)
    : (Progress, nat, Row) -> (Progress, bool)
  {
    (acc, rid, row) => SelectStep(cols, wh, idx, limit, acc, row)
  }

  /** The scan answers the selected rows among those it saw, and stops early only at a full answer. */
  lemma {:induction false} FoldSelects(l: seq<(nat, Row)>, cols: seq<Column>, wh: WhereClause, idx: seq<nat>,
          limit: int, acc: Progress)
    requires acc.returned == |acc.rows| && (limit > 0 ==> acc.returned < limit)
    ensures var (p, n) := Fold(l, SelectRow(cols, wh, idx, limit), acc);
            && n <= |l| && p.scanned == acc.scanned + n && p.rows == acc.rows + Selected(l[..n], cols, wh, idx)
            && (limit > 0 ==> |p.rows| <= limit) && (n < |l| ==> limit > 0 && |p.rows| == limit)
            && (limit > 0 && |p.rows| == limit ==> n > 0 && MatchWhere(l[n - 1].1, cols, wh))
  {
    if l == [] {
      assert acc.rows + [] == acc.rows;
    } else {
      hide MatchWhere, Project;
      var cb := SelectRow(cols, wh, idx, limit);
      var head := if MatchWhere(l[0].1, cols, wh) then [Project(l[0].1, idx)] else [];
      RowSelected(cols, wh, idx, limit, acc, l[0].1, head);
      hide SelectStep;
      var (next, more) := cb(acc, l[0].0, l[0].1);
      if more {
        FoldSelects(l[1..], cols, wh, idx, limit, next);
        var n := Fold(l[1..], cb, next).1;
        assert l[..n + 1][1..] == l[1..][..n] && (n > 0 ==> l[1..][n - 1] == l[n]);
        SelectedStep(acc.rows, next.rows, head, l[..n + 1], cols, wh, idx);
      } else {
        assert l[..1][1..] == [];
        SelectedStep(acc.rows, next.rows, head, l[..1], cols, wh, idx);
        assert next.rows + [] == next.rows;
      }
    }
  }

  lemma RowSelected(cols: seq<Column>, wh: WhereClause, idx: seq<nat>, limit: int, acc: Progress, row: Row,
          head: seq<seq<Str>>)
    requires acc.returned == |acc.rows| && head == if MatchWhere(row, cols, wh) then [Project(row, idx)] else []
    ensures var (next, more) := SelectStep(cols, wh, idx, limit, acc, row);
            && next == Progress(acc.rows + head, acc.scanned + 1, |next.rows|)
            && (more <==> head == [] || limit <= 0 || |next.rows| < limit)
  {
    hide MatchWhere, Project;
    assert acc.rows + [] == acc.rows;
  }

  lemma SelectedStep(done: seq<seq<Str>>, next: seq<seq<Str>>, head: seq<seq<Str>>, l: seq<(nat, Row)>,
                     cols: seq<Column>, wh: WhereClause, idx: seq<nat>)
    requires l != [] && next == done + head
             && head == if MatchWhere(l[0].1, cols, wh) then [Project(l[0].1, idx)] else []
    ensures next + Selected(l[1..], cols, wh, idx) == done + Selected(l, cols, wh, idx)
  {
    hide MatchWhere, Project;
    assert done + head + Selected(l[1..], cols, wh, idx) == done + (head + Selected(l[1..], cols, wh, idx));
  }

  lemma {:induction false} SelectedSplit(l: seq<(nat, Row)>, n: nat, cols: seq<Column>, wh: WhereClause, idx: seq<nat>)
    requires n <= |l|
    ensures Selected(l, cols, wh, idx) == Selected(l[..n], cols, wh, idx) + Selected(l[n..], cols, wh, idx)
  {
    if n > 0 {
      hide MatchWhere, Project;
      assert l[..n][1..] == l[1..][..n - 1] && l[n..] == l[1..][n - 1..];
      SelectedSplit(l[1..], n - 1, cols, wh, idx);
    } else {
      assert l[n..] == l;
    }
  }

  /** So it answers the first `limit` selected rows of the table, and has seen exactly the rows that took. */
  lemma ScanSelects(rows: map<nat, Row>, next: nat, cols: seq<Column>, wh: WhereClause, idx: seq<nat>, limit: int)
    ensures var (p, n) := Fold(Listing(rows, 1, next), SelectRow(cols, wh, idx, limit), Progress([], 0, 0));
            && p.rows == ScanAnswer(rows, next, cols, wh, idx, limit) && p.scanned == n
            && SeenFor(Listing(rows, 1, next), cols, wh, idx, limit, p.rows, n)
  {
    var l := Listing(rows, 1, next);
    FoldSelects(l, cols, wh, idx, limit, Progress([], 0, 0));
    var n := Fold(l, SelectRow(cols, wh, idx, limit), Progress([], 0, 0)).1;
    assert [] + Selected(l[..n], cols, wh, idx) == Selected(l[..n], cols, wh, idx);
    SelectedSplit(l, n, cols, wh, idx);
    assert l[..|l|] == l;
  }

  /**
   * `out` took exactly the first `n` rows of `l`: they yield it, all rows were seen unless the limit was reached, and
   * when it was reached, the last row seen is the one that filled the answer.
   */
  ghost predicate SeenFor(l: seq<(nat, Row)>, cols: seq<Column>, wh: WhereClause, idx: seq<nat>, limit: int,
                          out: seq<seq<Str>>, n: nat)
  {
    && n <= |l| && out == Selected(l[..n], cols, wh, idx)
    && (n < |l| ==> limit > 0 && |out| == limit)
    && (limit > 0 && |out| == limit ==> n > 0 && MatchWhere(l[n - 1].1, cols, wh))
  }

  /** No other number of rows would do. */
  lemma SeenExactly(l: seq<(nat, Row)>, cols: seq<Column>, wh: WhereClause, idx: seq<nat>, limit: int,
                    out: seq<seq<Str>>, n: nat, m: nat)
    requires SeenFor(l, cols, wh, idx, limit, out, n) && SeenFor(l, cols, wh, idx, limit, out, m)
    ensures n == m
  {
    hide MatchWhere, Project;
    if n < m {
      SeenNoFewer(l, cols, wh, idx, n, m);
    } else if m < n {
      SeenNoFewer(l, cols, wh, idx, m, n);
    }
  }

  lemma SeenNoFewer(l: seq<(nat, Row)>, cols: seq<Column>, wh: WhereClause, idx: seq<nat>, n: nat, m: nat)
    requires n < m <= |l| && MatchWhere(l[m - 1].1, cols, wh)
    ensures |Selected(l[..n], cols, wh, idx)| < |Selected(l[..m], cols, wh, idx)|
  {
    hide MatchWhere, Project;
    SelectedSplit(l[..m], m - 1, cols, wh, idx);
    SelectedSplit(l[..m - 1], n, cols, wh, idx);
    assert l[..m][..m - 1] == l[..m - 1] && l[..m - 1][..n] == l[..n] && l[..m][m - 1..] == [l[m - 1]];
    var last := [l[m - 1]];
    assert last[1..] == [];
  }

  // ---------------------------------------------------------------- output columns

  function FirstNegative(s: seq<int>): (n: nat)
    ensures n <= |s| && (forall i | 0 <= i < n :: s[i] >= 0) && (n < |s| ==> s[n] < 0)
  {
    if s == [] || s[0] < 0 then 0 else 1 + FirstNegative(s[1..])
  }

  function ColumnSlots(cols: seq<Column>, names: seq<Str>): (s: seq<int>)
    ensures |s| == |names| && forall i | 0 <= i < |s| :: s[i] == ColIndex(cols, names[i])
  {
    seq(|names|, i requires 0 <= i < |names| => ColIndex(cols, names[i]))
  }

  /** The position of the first name that is no column, or the number of names. */
  function FirstUnknown(cols: seq<Column>, names: seq<Str>): (n: nat)
    ensures n <= |names| && (forall i | 0 <= i < n :: ColIndex(cols, names[i]) >= 0)
    ensures n < |names| ==> ColIndex(cols, names[n]) < 0
  {
    var s := ColumnSlots(cols, names);
    assert forall i | 0 <= i < |names| :: ColIndex(cols, names[i]) == s[i];
    FirstNegative(s)
  }

  /** The columns a SELECT list means, up to the first name that is no column. */
  function OutputColumns(cols: seq<Column>, sel: SelectList): (idx: seq<nat>) {
    match sel
    case Star => AllColumns(cols)
    case Named(names) =>
      seq(FirstUnknown(cols, names), i requires 0 <= i < FirstUnknown(cols, names) => ColIndex(cols, names[i]))
  }

  function OutputError(cols: seq<Column>, sel: SelectList): QueryError {
    match sel
    case Star => NoError
    case Named(names) =>
      var n := FirstUnknown(cols, names);
      if n < |names| then UnknownColumn(names[n]) else NoError
  }

  /** The column names a result carries: all of them, or those asked for up to the first that is no column. */
  function OutputNames(cols: seq<Column>, sel: SelectList): seq<Str> {
    match sel
    case Star => ColumnNames(cols)
    case Named(names) => names[..FirstUnknown(cols, names)]
  }

  function ColumnNames(cols: seq<Column>): (names: seq<Str>) {
    seq(|cols|, i requires 0 <= i < |cols| => cols[i].name)
  }

  method SelectOutputs(schema: Schema, sel: SelectList) returns (idx: seq<nat>, names: seq<Str>, err: QueryError)
    ensures idx == OutputColumns(schema.cols, sel) && err == OutputError(schema.cols, sel)
    ensures names == OutputNames(schema.cols, sel)
  {
    match sel
    case Star =>
      idx, names := StarOutputs(schema);
      err := NoError;
    case Named(ns) =>
      idx, names, err := NamedOutputs(schema, ns);
  }

  method StarOutputs(schema: Schema) returns (idx: seq<nat>, names: seq<Str>)
    ensures idx == AllColumns(schema.cols) && names == ColumnNames(schema.cols)
  {
    idx, names := [], [];
    for j := 0 to |schema.cols|
      invariant |idx| == |names| == j
      invariant forall i | 0 <= i < j :: idx[i] == i && names[i] == schema.cols[i].name
    {
      idx, names := idx + [j], names + [schema.cols[j].name];
    }
  }

  method NamedOutputs(schema: Schema, ns: seq<Str>) returns (idx: seq<nat>, names: seq<Str>, err: QueryError)
    ensures idx == OutputColumns(schema.cols, Named(ns)) && err == OutputError(schema.cols, Named(ns))
    ensures |idx| <= |ns| && names == ns[..|idx|]
  {
    hide ColIndex, FirstUnknown;
    idx, names, err := [], [], NoError;
    ghost var n := FirstUnknown(schema.cols, ns);
    for j := 0 to |ns|
      invariant j <= n && names == ns[..j] && |idx| == j && err == NoError
      invariant forall i | 0 <= i < j :: idx[i] == ColIndex(schema.cols, ns[i])
    {
      var ci := FindCol(schema, ns[j]);
      if ci < 0 {
        err := UnknownColumn(ns[j]);
        return;
      }
      idx, names := idx + [ci], names + [ns[j]];
    }
  }

  // ---------------------------------------------------------------- the fast path

  /** `WHERE col0 = k` with an integer first column. */
  predicate FastPath(cols: seq<Column>, wh: WhereClause) {
    wh.active && wh.op == Equal && cols != [] && cols[0].ty == INT && ColIndex(cols, wh.col) == 0
  }

  /** The rowid the fast path looks up. */
  function Target(wh: WhereClause): (k: nat)
    ensures k < TWO_32
  {
    match Stoi(wh.val)
    case Some(n) => ToUnsigned(n)
    case None => 0
  }

  /** Every live row has its own rowid in column 0. */
  ghost predicate NumberedByRowid(rows: map<nat, Row>) {
    forall k | k in rows :: |rows[k]| > 0 && 0 < k < TWO_32 && rows[k][0].intVal == ToSigned(k)
  }

  ghost predicate WellTyped(cols: seq<Column>, row: Row) {
    |row| <= |cols| && forall i | 0 <= i < |row| :: row[i].ty == cols[i].ty
  }

  ghost predicate AllWellTyped(cols: seq<Column>, rows: map<nat, Row>) {
    forall k | k in rows :: WellTyped(cols, rows[k])
  }

  /** Stored rows are well typed. */
  lemma {:induction false} DecodedWellTyped(cols: seq<Column>, b: seq<byte>)
    requires DecodeRow(cols, b).Some?
    ensures WellTyped(cols, DecodeRow(cols, b).value)
  {
    if cols == [] || b == [] {
    } else {
      var (v, n) := DecodeField(cols[0].ty, b).value;
      DecodedWellTyped(cols[1..], b[n..]);
    }
  }

  lemma {:induction false} PointSelected(rows: map<nat, Row>, from: nat, end: nat, cols: seq<Column>,
          wh: WhereClause, idx: seq<nat>)
    requires NumberedByRowid(rows) && FastPath(cols, wh) && Stoi(wh.val).Some? && 0 < from
    ensures var u := Target(wh);
            Selected(Listing(rows, from, end), cols, wh, idx)
            == if from <= u < end && u in rows then [Project(rows[u], idx)] else []
    decreases end - from
  {
    if from >= end {
    } else {
      PointSelected(rows, from + 1, end, cols, wh, idx);
      if from in rows {
        assert Listing(rows, from, end)[1..] == Listing(rows, from + 1, end);
        assert MatchWhere(rows[from], cols, wh) <==> from == Target(wh);
      }
    }
  }

  /** With rowids in column 0 the point lookup answers what the filtered scan would, for every literal and limit. */
  lemma FastPathRefinesScan(rows: map<nat, Row>, next: nat, cols: seq<Column>, wh: WhereClause, idx: seq<nat>,
          limit: int)
    requires NumberedByRowid(rows) && FastPath(cols, wh) && Stoi(wh.val).Some? && forall k | k in rows :: k < next
    ensures PointAnswer(rows, Target(wh), idx) == ScanAnswer(rows, next, cols, wh, idx, limit)
  {
    PointSelected(rows, 1, next, cols, wh, idx);
  }

  function AllColumns(cols: seq<Column>): (idx: seq<nat>)
    ensures |idx| == |cols| && forall i | 0 <= i < |idx| :: idx[i] == i
  {
    seq(|cols|, i => i)
  }

  lemma {:induction false} SelectedShowLiteral(l: seq<(nat, Row)>, cols: seq<Column>, wh: WhereClause)
    requires FastPath(cols, wh) && Stoi(wh.val).Some?
    requires forall i | 0 <= i < |l| :: WellTyped(cols, l[i].1)
    ensures forall out | out in Selected(l, cols, wh, AllColumns(cols)) ::
              && |out| > 0
              && out[0] == Render(Stoi(wh.val).value)
  {
    if l == [] {
    } else {
      assert forall i | 0 <= i < |l[1..]| :: l[1..][i] == l[i + 1];
      SelectedShowLiteral(l[1..], cols, wh);
    }
  }

  lemma NullIsNoNumber(n: int)
    ensures Render(n) != NULL_TEXT
  {
    assert NULL_TEXT[0] == 78;
    assert n >= 0 ==> IsDigit(Digits(n)[0]);
    assert n < 0 ==> Render(n)[0] == MINUS;
  }

  /** Only then: where some row is numbered differently, `SELECT *` for its rowid shows the difference. */
  lemma FastPathNeedsNumbering(rows: map<nat, Row>, next: nat, cols: seq<Column>, limit: int, k: nat)
    requires AllWellTyped(cols, rows) && cols != [] && cols[0].ty == INT
    requires k in rows && 0 < k < TWO_32 && !(|rows[k]| > 0 && rows[k][0].intVal == ToSigned(k))
    ensures var wh := WhereClause(true, cols[0].name, Equal, Render(ToSigned(k)));
            && FastPath(cols, wh) && Stoi(wh.val).Some?
            && PointAnswer(rows, Target(wh), AllColumns(cols))
               != ScanAnswer(rows, next, cols, wh, AllColumns(cols), limit)
  {
    var n := ToSigned(k);
    var wh := WhereClause(true, cols[0].name, Equal, Render(n));
    RenderRoundTrip(n);
    ColIndexIs(cols, cols[0].name, 0);
    var l := Listing(rows, 1, next);
    ListingExact(rows, 1, next);
    assert forall i | 0 <= i < |l| :: (l[i].0, l[i].1) in l;
    SelectedShowLiteral(l, cols, wh);
    var shown := Project(rows[k], AllColumns(cols))[0];
    NullIsNoNumber(n);
    if |rows[k]| > 0 {
      RenderInjective(rows[k][0].intVal, n);
    }
    assert shown != Render(n);
    var answer := ScanAnswer(rows, next, cols, wh, AllColumns(cols), limit);
    assert forall out | out in answer :: out in Selected(l, cols, wh, AllColumns(cols));
    assert answer != [] ==> answer[0] in answer;
  }

  /** Fast path and scan agree on every `SELECT * … WHERE col0 = k` exactly when rows are numbered by their rowids. */
  lemma FastPathExactly(rows: map<nat, Row>, next: nat, cols: seq<Column>)
    requires AllWellTyped(cols, rows) && cols != [] && cols[0].ty == INT
             && forall k | k in rows :: 0 < k < next <= TWO_32
    ensures NumberedByRowid(rows) <==>
              forall wh, limit | FastPath(cols, wh) && Stoi(wh.val).Some? ::
                PointAnswer(rows, Target(wh), AllColumns(cols))
                == ScanAnswer(rows, next, cols, wh, AllColumns(cols), limit)
  {
    hide ScanAnswer, PointAnswer, FastPath;
    if NumberedByRowid(rows) {
      forall wh, limit | FastPath(cols, wh) && Stoi(wh.val).Some?
        ensures PointAnswer(rows, Target(wh), AllColumns(cols))
             == ScanAnswer(rows, next, cols, wh, AllColumns(cols), limit)
      {
        FastPathRefinesScan(rows, next, cols, wh, AllColumns(cols), limit);
      }
    } else {
      var k :| k in rows && !(|rows[k]| > 0 && 0 < k < TWO_32 && rows[k][0].intVal == ToSigned(k));
      FastPathNeedsNumbering(rows, next, cols, -1, k);
    }
  }

  /** Deleting rows keeps the numbering, and so does inserting a row that carries the next rowid. */
  lemma NumberingKept(rows: map<nat, Row>, pred: (nat, Row) -> bool, cols: seq<Column>, next: nat, row: Row)
    requires NumberedByRowid(rows) && cols != [] && cols[0].ty == INT
    ensures NumberedByRowid(Survivors(rows, pred))
    ensures row != [] && 0 < next < TWO_32 && row[0].intVal == ToSigned(next) ==>
              NumberedByRowid(rows[next := Coerce(cols, row)])
  {
  }
}
