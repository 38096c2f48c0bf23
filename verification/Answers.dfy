/** What answers say, in terms of the rows alone: which rows are compared, which are shown, and what their cells say. */
module Answers {
  import opened Bytes
  import opened Cells
  import opened Schema
  import opened Decimal
  import opened Scans
  import opened Query
  import opened Join

  // ---------------------------------------------------------------- what WHERE means

  /** On an INT column a row matches when its value stands in the relation to the literal; without a relation, never. */
  lemma IntegerWhere(row: Row, cols: seq<Column>, wh: WhereClause, n: int)
    requires wh.active && 0 <= ColIndex(cols, wh.col) < |row| && cols[ColIndex(cols, wh.col)].ty == INT
    requires Stoi(wh.val) == Some(n)
    ensures var v := row[ColIndex(cols, wh.col)].intVal;
            && (MatchWhere(row, cols, wh.(op := Equal)) <==> v == n)
            && (MatchWhere(row, cols, wh.(op := NotEqual)) <==> v != n)
            && (MatchWhere(row, cols, wh.(op := Less)) <==> v < n)
            && (MatchWhere(row, cols, wh.(op := Greater)) <==> v > n)
            && (MatchWhere(row, cols, wh.(op := AtMost)) <==> v <= n)
            && (MatchWhere(row, cols, wh.(op := AtLeast)) <==> v >= n)
            && !MatchWhere(row, cols, wh.(op := Unknown))
  {
    hide Stoi, ColIndex;
  }

  /** On a TEXT column texts are compared byte by byte. */
  lemma TextWhere(row: Row, cols: seq<Column>, wh: WhereClause)
    requires wh.active && 0 <= ColIndex(cols, wh.col) < |row| && cols[ColIndex(cols, wh.col)].ty == TEXT
    ensures var t := row[ColIndex(cols, wh.col)].strVal;
            && (MatchWhere(row, cols, wh.(op := Equal)) <==> t == wh.val)
            && (MatchWhere(row, cols, wh.(op := NotEqual)) <==> t != wh.val)
            && (MatchWhere(row, cols, wh.(op := Less)) <==> Precedes(t, wh.val))
            && (MatchWhere(row, cols, wh.(op := Greater)) <==> Precedes(wh.val, t))
            && (MatchWhere(row, cols, wh.(op := AtMost)) <==> Precedes(t, wh.val) || t == wh.val)
            && (MatchWhere(row, cols, wh.(op := AtLeast)) <==> Precedes(wh.val, t) || t == wh.val)
            && !MatchWhere(row, cols, wh.(op := Unknown))
  {
    var t := row[ColIndex(cols, wh.col)].strVal;
    hide Stoi, ColIndex;
    TextOrder(t, wh.val);
    hide TextLess, Precedes;
  }

  lemma TextOrder(a: Str, b: Str)
    ensures TextLess(a, b) <==> Precedes(a, b)
    ensures TextLess(b, a) <==> Precedes(b, a)
    ensures !TextLess(b, a) <==> Precedes(a, b) || a == b
    ensures !TextLess(a, b) <==> Precedes(b, a) || a == b
  {
    hide TextLess, Precedes;
    TextLessPrecedes(a, b);
    TextLessPrecedes(b, a);
    TextLessOrders(a, b);
  }

  /** A column that does not exist, or that the row is too short for, matches nothing; no clause matches everything. */
  lemma NothingCompared(row: Row, cols: seq<Column>, wh: WhereClause)
    ensures !wh.active ==> MatchWhere(row, cols, wh)
    ensures wh.active && (forall c | 0 <= c < |cols| :: cols[c].name != wh.col) ==> !MatchWhere(row, cols, wh)
    ensures wh.active && ColIndex(cols, wh.col) >= |row| ==> !MatchWhere(row, cols, wh)
  {
  }

  /** After a join numbers are compared as integers if both sides are numbers. */
  lemma CombinedNumbers(row: seq<Str>, cols: seq<Str>, wh: WhereClause, v: int, n: int)
    requires wh.active && 0 <= ResolveCol(wh.col, cols) < |row|
    requires Stoi(row[ResolveCol(wh.col, cols)]) == Some(v) && Stoi(wh.val) == Some(n)
    ensures MatchCombined(row, cols, wh.(op := Equal)) <==> v == n
    ensures MatchCombined(row, cols, wh.(op := NotEqual)) <==> v != n
    ensures MatchCombined(row, cols, wh.(op := Less)) <==> v < n
    ensures MatchCombined(row, cols, wh.(op := Greater)) <==> v > n
    ensures MatchCombined(row, cols, wh.(op := AtMost)) <==> v <= n
    ensures MatchCombined(row, cols, wh.(op := AtLeast)) <==> v >= n
    ensures !MatchCombined(row, cols, wh.(op := Unknown))
  {
    hide Stoi, ResolveCol, ResolvesTo, TextLess;
  }

  /** And as texts if not. */
  lemma CombinedTexts(row: seq<Str>, cols: seq<Str>, wh: WhereClause)
    requires wh.active && 0 <= ResolveCol(wh.col, cols) < |row|
    requires Stoi(row[ResolveCol(wh.col, cols)]).None? || Stoi(wh.val).None?
    ensures var s := row[ResolveCol(wh.col, cols)];
            && (MatchCombined(row, cols, wh.(op := Equal)) <==> s == wh.val)
            && (MatchCombined(row, cols, wh.(op := NotEqual)) <==> s != wh.val)
            && (MatchCombined(row, cols, wh.(op := Less)) <==> Precedes(s, wh.val))
            && (MatchCombined(row, cols, wh.(op := Greater)) <==> Precedes(wh.val, s))
            && (MatchCombined(row, cols, wh.(op := AtMost)) <==> Precedes(s, wh.val) || s == wh.val)
            && (MatchCombined(row, cols, wh.(op := AtLeast)) <==> Precedes(wh.val, s) || s == wh.val)
            && !MatchCombined(row, cols, wh.(op := Unknown))
  {
    var s := row[ResolveCol(wh.col, cols)];
    hide Stoi, ResolveCol, ResolvesTo;
    TextOrder(s, wh.val);
    hide TextLess, Precedes;
  }

  /** A reference that does not resolve, or beyond the row, matches nothing; no clause matches everything. */
  lemma NothingCombined(row: seq<Str>, cols: seq<Str>, wh: WhereClause)
    ensures !wh.active ==> MatchCombined(row, cols, wh)
    ensures wh.active && !(0 <= ResolveCol(wh.col, cols) < |row|) ==> !MatchCombined(row, cols, wh)
  {
    hide ResolveCol, ResolvesTo;
  }

  // ---------------------------------------------------------------- what cells say

  /** A text shows as it is, an integer as its decimal. */
  ghost predicate ShowsValue(cell: Str, v: Value) {
    if v.ty == TEXT then cell == v.strVal else IsDecimal(cell, v.intVal)
  }

  /** The cell is the row's value in column `c`, or NULL where the row has none. */
  ghost predicate Shows(cell: Str, row: Row, c: nat) {
    if c < |row| then ShowsValue(cell, row[c]) else cell == [78, 85, 76, 76]
  }

  lemma TextShows(v: Value)
    ensures ShowsValue(Text(v), v) && (v.ty == INT ==> Stoi(Text(v)) == Some(v.intVal))
  {
    RenderIsDecimal(v.intVal);
    RenderRoundTrip(v.intVal);
  }

  /** `out` shows the columns asked for, in the order in which they are asked for. */
  ghost predicate ShowsColumns(out: seq<Str>, row: Row, cols: seq<Column>, sel: SelectList) {
    match sel
    case Star => |out| == |cols| && forall j | 0 <= j < |out| :: Shows(out[j], row, j)
    case Named(names) =>
      && |out| == |names|
      && forall j | 0 <= j < |out| :: ColIndex(cols, names[j]) >= 0 && Shows(out[j], row, ColIndex(cols, names[j]))
  }

  lemma ProjectShows(row: Row, cols: seq<Column>, sel: SelectList)
    requires OutputError(cols, sel) == NoError
    ensures ShowsColumns(Project(row, OutputColumns(cols, sel)), row, cols, sel)
  {
    var idx := OutputColumns(cols, sel);
    var out := Project(row, idx);
    hide ShowsValue, Text, ColIndex;
    forall j | 0 <= j < |out|
      ensures Shows(out[j], row, idx[j])
    {
      if idx[j] < |row| {
        TextShows(row[idx[j]]);
      }
    }
  }

  /** The error and the column names a select reports: those asked for, up to the first that is no column. */
  ghost predicate ReportsColumns(error: QueryError, shown: seq<Str>, cols: seq<Column>, sel: SelectList) {
    match sel
    case Star => error == NoError && |shown| == |cols| && forall j | 0 <= j < |cols| :: shown[j] == cols[j].name
    case Named(names) =>
      if forall j | 0 <= j < |names| :: ColIndex(cols, names[j]) >= 0 then error == NoError && shown == names
      else
        exists n :: 0 <= n < |names| && ColIndex(cols, names[n]) < 0 && error == UnknownColumn(names[n])
          && shown == names[..n] && forall j | 0 <= j < n :: ColIndex(cols, names[j]) >= 0
  }

  lemma SelectReports(cols: seq<Column>, sel: SelectList)
    ensures ReportsColumns(OutputError(cols, sel), OutputNames(cols, sel), cols, sel)
  {
    hide ColIndex;
    match sel
    case Star =>
    case Named(names) =>
      var n := FirstUnknown(cols, names);
      if n < |names| {
        assert ColIndex(cols, names[n]) < 0 && OutputError(cols, sel) == UnknownColumn(names[n]);
      }
  }

  // ---------------------------------------------------------------- the answer of a select

  function Matches(cols: seq<Column>, wh: WhereClause): (nat, Row) -> bool {
    (rid, row) => MatchWhere(row, cols, wh)
  }

  /** The selected rows of a listing and their rowids go together. */
  lemma {:induction false} SelectedRowids(rows: map<nat, Row>, from: nat, end: nat, cols: seq<Column>, wh: WhereClause,
          idx: seq<nat>)
    ensures var l := Listing(rows, from, end);
            var ks, out := Matching(l, Matches(cols, wh)), Selected(l, cols, wh, idx);
            |ks| == |out| && forall i | 0 <= i < |ks| :: ks[i] in rows && out[i] == Project(rows[ks[i]], idx)
    decreases end - from
  {
    hide MatchWhere, Project;
    if from >= end {
    } else {
      SelectedRowids(rows, from + 1, end, cols, wh, idx);
      if from in rows {
        var rest := Listing(rows, from + 1, end);
        assert Listing(rows, from, end) == [(from, rows[from])] + rest && ([(from, rows[from])] + rest)[1..] == rest;
        assert Matches(cols, wh)(from, rows[from]) == MatchWhere(rows[from], cols, wh);
      }
    }
  }

  /**
   * `out` shows the rows with rowids `ks`, in ascending order: they match, and every row that does is among them unless
   * the limit cut it off behind them.
   */
  ghost predicate AnswersSelect(out: seq<seq<Str>>, ks: seq<nat>, rows: map<nat, Row>, cols: seq<Column>,
                                sel: SelectList, wh: WhereClause, limit: int)
  {
    && |ks| == |out| && (limit > 0 ==> |ks| <= limit)
    && (forall i, j | 0 <= i < j < |ks| :: ks[i] < ks[j])
    && (forall i | 0 <= i < |ks| ::
          ks[i] in rows && MatchWhere(rows[ks[i]], cols, wh) && ShowsColumns(out[i], rows[ks[i]], cols, sel))
    && (forall k | k in rows && MatchWhere(rows[k], cols, wh) ::
          k in ks || (|ks| == limit > 0 && forall i | 0 <= i < |ks| :: ks[i] < k))
  }

  lemma ScanAnswers(rows: map<nat, Row>, next: nat, cols: seq<Column>, sel: SelectList, wh: WhereClause, limit: int)
    returns (ks: seq<nat>)
    requires OutputError(cols, sel) == NoError && forall k | k in rows :: 1 <= k < next
    ensures var out := ScanAnswer(rows, next, cols, wh, OutputColumns(cols, sel), limit);
            AnswersSelect(out, ks, rows, cols, sel, wh, limit)
  {
    hide MatchWhere, Project, ShowsColumns, OutputColumns, OutputError, Listing, Matching, Selected;
    var idx, pred := OutputColumns(cols, sel), Matches(cols, wh);
    var l := Listing(rows, 1, next);
    var all, full := Matching(l, pred), Selected(l, cols, wh, idx);
    SelectedRowids(rows, 1, next, cols, wh, idx);
    MatchingExact(rows, 1, next, pred);
    ks := Limited(limit, all);
    var out := ScanAnswer(rows, next, cols, wh, idx, limit);
    forall i | 0 <= i < |ks|
      ensures ks[i] in rows && MatchWhere(rows[ks[i]], cols, wh) && ShowsColumns(out[i], rows[ks[i]], cols, sel)
    {
      assert ks[i] == all[i] && out[i] == full[i] && all[i] in all;
      ProjectShows(rows[ks[i]], cols, sel);
    }
    forall k | k in rows && MatchWhere(rows[k], cols, wh)
      ensures k in ks || (|ks| == limit > 0 && forall i | 0 <= i < |ks| :: ks[i] < k)
    {
      assert pred(k, rows[k]);
      assert k in all;
      var i :| 0 <= i < |all| && all[i] == k;
      if i < |ks| {
        assert ks[i] == k;
      }
    }
  }

  /** The point lookup shows the row whose rowid the literal says, modulo 2^32, and no other. */
  ghost predicate AnswersLookup(out: seq<seq<Str>>, rows: map<nat, Row>, cols: seq<Column>, sel: SelectList, val: Str)
  {
    forall n, k: nat | Stoi(val) == Some(n) && k < TWO_32 && (k == n || k == n + TWO_32) ::
      if k in rows then |out| == 1 && ShowsColumns(out[0], rows[k], cols, sel) else out == []
  }

  lemma LookupAnswers(rows: map<nat, Row>, cols: seq<Column>, sel: SelectList, wh: WhereClause)
    requires OutputError(cols, sel) == NoError
    ensures AnswersLookup(PointAnswer(rows, Target(wh), OutputColumns(cols, sel)), rows, cols, sel, wh.val)
  {
    hide Project, ShowsColumns, OutputColumns, OutputError, Stoi;
    if Target(wh) in rows {
      ProjectShows(rows[Target(wh)], cols, sel);
    }
  }

  // ---------------------------------------------------------------- what DELETE spares

  /** The rows an integer comparison leaves: those whose value does not stand in the relation. */
  ghost predicate Spared(op: Comparison, v: int, n: int) {
    match op
    case Equal => v < n || v > n
    case NotEqual => v == n
    case Less => v >= n
    case Greater => v <= n
    case AtMost => v > n
    case AtLeast => v < n
    case Unknown => true
  }

  /** The rows a text comparison leaves. */
  ghost predicate SparedText(op: Comparison, t: Str, val: Str) {
    match op
    case Equal => t != val
    case NotEqual => t == val
    case Less => Precedes(val, t) || t == val
    case Greater => Precedes(t, val) || t == val
    case AtMost => Precedes(val, t)
    case AtLeast => Precedes(t, val)
    case Unknown => true
  }

  /** A row survives a DELETE with this clause. */
  ghost predicate Survives(row: Row, cols: seq<Column>, wh: WhereClause) {
    && wh.active
    && var c := ColIndex(cols, wh.col);
       if !(0 <= c < |row|) then true
       else if cols[c].ty == TEXT then SparedText(wh.op, row[c].strVal, wh.val)
       else forall n | Stoi(wh.val) == Some(n) :: Spared(wh.op, row[c].intVal, n)
  }

  lemma SurvivesUnmatched(row: Row, cols: seq<Column>, wh: WhereClause)
    ensures Survives(row, cols, wh) <==> !MatchWhere(row, cols, wh)
  {
    var c := ColIndex(cols, wh.col);
    hide Stoi, ColIndex;
    if wh.active && 0 <= c < |row| && cols[c].ty == TEXT {
      TextOrder(row[c].strVal, wh.val);
      hide TextLess, Precedes;
    }
  }

  // ---------------------------------------------------------------- the ON clause

  ghost predicate Undotted(s: Str) {
    forall i | 0 <= i < |s| :: s[i] != 46
  }

  ghost predicate IsBare(ref: Str, name: Str) {
    ref == name && Undotted(name)
  }

  ghost predicate IsDotted(ref: Str, table: Str, name: Str) {
    ref == table + [46] + name && Undotted(table)
  }

  /** `ref` is to a column `name`, of whatever table. */
  ghost predicate RefersTo(ref: Str, name: Str) {
    IsBare(ref, name) || exists table :: IsDotted(ref, table, name)
  }

  /**
   * `ON first = second` joins column `x` of the left table with column `y` of the right one: turned round if the first
   * reference is to the right table by name, as it stands if not. The table of the second one is not looked at.
   */
  ghost predicate OnMeans(first: Str, second: Str, right: Str, x: Str, y: Str) {
    || (right != [] && IsDotted(first, right, y) && RefersTo(second, x))
    || ((IsBare(first, x) || exists table :: IsDotted(first, table, x) && (table != right || table == []))
        && RefersTo(second, y))
  }

  lemma UndottedNames(s: Str)
    ensures Undotted(s) <==> !Qualified(s)
    ensures Undotted(s) ==> TablePart(s) == [] && Bare(s) == s
  {
  }

  lemma DottedParts(ref: Str, table: Str, name: Str)
    requires IsDotted(ref, table, name)
    ensures TablePart(ref) == table && Bare(ref) == name
  {
    UndottedNames(table);
    DotAfter(table, name);
    assert Dotted(table, name) == ref;
    assert ref[..|table|] == table;
  }

  lemma ReferencePart(ref: Str, name: Str)
    requires RefersTo(ref, name)
    ensures Bare(ref) == name
  {
    hide TablePart, Bare;
    if IsBare(ref, name) {
      UndottedNames(name);
    } else {
      var table :| IsDotted(ref, table, name);
      DottedParts(ref, table, name);
    }
  }

  /** What an ON clause means is what it is resolved to. */
  lemma OnMeansNames(first: Str, second: Str, right: Str, x: Str, y: Str)
    ensures OnMeans(first, second, right, x, y) <==> OnNames(first, second, right) == (x, y)
  {
    hide TablePart, Bare, IsBare, IsDotted, RefersTo;
    Referred(first);
    Referred(second);
    if OnMeans(first, second, right, x, y) {
      MeaningResolved(first, second, right, x, y);
    }
    if IsBare(first, Bare(first)) {
      BareParts(first, Bare(first));
    }
  }

  lemma Referred(ref: Str)
    ensures RefersTo(ref, Bare(ref))
    ensures IsBare(ref, Bare(ref)) || IsDotted(ref, TablePart(ref), Bare(ref))
  {
    UndottedNames(ref);
    if Qualified(ref) {
      var d := DotPos(ref);
      assert ref == ref[..d] + [46] + ref[d + 1..];
      assert IsDotted(ref, TablePart(ref), Bare(ref));
    }
  }

  lemma MeaningResolved(first: Str, second: Str, right: Str, x: Str, y: Str)
    requires OnMeans(first, second, right, x, y)
    ensures OnNames(first, second, right) == (x, y)
  {
    hide TablePart, Bare, IsBare, IsDotted, RefersTo;
    if right != [] && IsDotted(first, right, y) && RefersTo(second, x) {
      DottedParts(first, right, y);
      ReferencePart(second, x);
    } else {
      ReferencePart(second, y);
      if IsBare(first, x) {
        BareParts(first, x);
      } else {
        var table :| IsDotted(first, table, x) && (table != right || table == []);
        DottedParts(first, table, x);
      }
    }
  }

  lemma BareParts(ref: Str, name: Str)
    requires IsBare(ref, name)
    ensures TablePart(ref) == [] && Bare(ref) == name
  {
    UndottedNames(name);
  }

  /** Whichever way round the columns are given, qualified or not; with one name for both tables it is turned round. */
  lemma OnEitherWay(left: Str, right: Str, x: Str, y: Str)
    requires Undotted(left) && Undotted(right) && right != []
    ensures left != right ==> OnMeans(Dotted(left, x), Dotted(right, y), right, x, y)
    ensures OnMeans(Dotted(right, y), Dotted(left, x), right, x, y)
    ensures left == right ==> OnMeans(Dotted(left, x), Dotted(right, y), right, y, x)
    ensures Undotted(x) ==> OnMeans(x, Dotted(right, y), right, x, y) && OnMeans(Dotted(right, y), x, right, x, y)
    ensures Undotted(y) && left != right ==> OnMeans(Dotted(left, x), y, right, x, y)
    ensures Undotted(x) && Undotted(y) ==> OnMeans(x, y, right, x, y)
  {
    hide Undotted;
    assert IsDotted(Dotted(left, x), left, x) && IsDotted(Dotted(right, y), right, y);
  }

  // ---------------------------------------------------------------- the answer of a join

  /** The rows are joined: their columns hold the same integer, or the same text; a missing value is an empty text. */
  ghost predicate SameKey(l: Row, onLeft: nat, r: Row, onRight: nat) {
    if onLeft < |l| && onRight < |r| then
      if l[onLeft].ty == INT && r[onRight].ty == INT then l[onLeft].intVal == r[onRight].intVal
      else if l[onLeft].ty == INT then IsDecimal(r[onRight].strVal, l[onLeft].intVal)
      else if r[onRight].ty == INT then IsDecimal(l[onLeft].strVal, r[onRight].intVal)
      else l[onLeft].strVal == r[onRight].strVal
    else
      && (onLeft < |l| ==> l[onLeft].ty == TEXT && l[onLeft].strVal == [])
      && (onRight < |r| ==> r[onRight].ty == TEXT && r[onRight].strVal == [])
  }

  lemma {:induction false} Pow10Grows(m: nat, n: nat)
    requires m <= n
    ensures Pow10(m) <= Pow10(n)
    decreases n
  {
    if m == n {
    } else {
      Pow10Grows(m, n - 1);
    }
  }

  lemma DecimalOnce(s: Str, t: Str, n: int)
    requires IsDecimal(s, n) && IsDecimal(t, n)
    ensures s == t
  {
    var d, e := if n < 0 then s[1..] else s, if n < 0 then t[1..] else t;
    if |d| < |e| {
      Pow10Grows(|d|, |e| - 1);
    } else if |e| < |d| {
      Pow10Grows(|e|, |d| - 1);
    }
    assert d == e;
    assert n < 0 ==> s == [s[0]] + d && t == [t[0]] + e;
  }

  lemma KeysSame(l: Row, onLeft: nat, r: Row, onRight: nat)
    ensures Key(l, onLeft) == Key(r, onRight) <==> SameKey(l, onLeft, r, onRight)
  {
    hide Render, IsDecimal;
    if onLeft < |l| {
      KeyOfValue(l[onLeft]);
    }
    if onRight < |r| {
      KeyOfValue(r[onRight]);
    }
    if onLeft < |l| && onRight < |r| && l[onLeft].ty == INT && r[onRight].ty == INT {
      RenderInjective(l[onLeft].intVal, r[onRight].intVal);
    }
  }

  lemma KeyOfValue(v: Value)
    ensures v.ty == INT ==> Text(v) != [] && forall s: Str :: s == Text(v) <==> IsDecimal(s, v.intVal)
  {
    RenderIsDecimal(v.intVal);
    forall s: Str | IsDecimal(s, v.intVal)
      ensures s == Render(v.intVal)
    {
      DecimalOnce(s, Render(v.intVal), v.intVal);
    }
  }

  /** The pair of a live left and a live right row. */
  ghost predicate LivePair(pair: Pair, left: map<nat, Row>, right: map<nat, Row>) {
    && pair.left in left && pair.lrow == left[pair.left]
    && pair.right in right && pair.rrow == right[pair.right]
  }

  /** The pair belongs to the answer if no limit cuts it off. */
  ghost predicate Joins(pair: Pair, p: Plan) {
    && SameKey(pair.lrow, p.onLeft, pair.rrow, p.onRight)
    && MatchCombined(Texts(pair.lrow) + Texts(pair.rrow), p.cols, p.wh)
  }

  lemma JoinsMatches(pair: Pair, p: Plan)
    ensures Joins(pair, p) <==> PairMatches(pair, p)
  {
    hide SameKey, Key, MatchCombined;
    KeysSame(pair.lrow, p.onLeft, pair.rrow, p.onRight);
  }

  /** `out` shows the combined columns asked for, of the left row followed by the right one. */
  ghost predicate ShowsRefs(out: seq<Str>, row: Row, cols: seq<Str>, sel: SelectList) {
    match sel
    case Star => |out| == |cols| && forall j | 0 <= j < |out| :: Shows(out[j], row, j)
    case Named(refs) =>
      && |out| == |refs|
      && forall j | 0 <= j < |out| :: ResolveCol(refs[j], cols) >= 0 && Shows(out[j], row, ResolveCol(refs[j], cols))
  }

  /** With a left row of full width, those are the columns of the left row and then those of the right one. */
  lemma CombinedCell(cell: Str, l: Row, r: Row, c: nat)
    ensures Shows(cell, l + r, c) <==> if c < |l| then Shows(cell, l, c) else Shows(cell, r, c - |l|)
  {
  }

  lemma ProjectedRefs(l: Row, r: Row, cols: seq<Str>, sel: SelectList)
    requires JoinError(cols, sel) == NoError
    ensures ShowsRefs(ProjectTexts(Texts(l) + Texts(r), JoinColumns(cols, sel)), l + r, cols, sel)
  {
    var idx, row := JoinColumns(cols, sel), Texts(l) + Texts(r);
    var out := ProjectTexts(row, idx);
    hide ShowsValue, Text, ResolveCol, ResolvesTo;
    forall j | 0 <= j < |out|
      ensures Shows(out[j], l + r, idx[j])
    {
      if idx[j] < |l + r| {
        assert row[idx[j]] == Text((l + r)[idx[j]]);
        TextShows((l + r)[idx[j]]);
      }
    }
  }

  /** The error a join reports, and its column names. */
  ghost predicate ReportsJoin(error: QueryError, shown: seq<Str>, lcols: seq<Column>, rcols: seq<Column>,
                              x: Str, y: Str, cols: seq<Str>, sel: SelectList)
  {
    if ColIndex(lcols, x) < 0 then error == UnknownOnColumn(x) && shown == []
    else if ColIndex(rcols, y) < 0 then error == UnknownOnColumn(y) && shown == []
    else
      match sel
      case Star => error == NoError && shown == cols
      case Named(refs) =>
        if forall j | 0 <= j < |refs| :: ResolveCol(refs[j], cols) >= 0 then
          && error == NoError && |shown| == |refs|
          && forall j | 0 <= j < |refs| :: ResolveCol(refs[j], cols) >= 0 && shown[j] == cols[ResolveCol(refs[j], cols)]
        else
          exists n :: 0 <= n < |refs| && ResolveCol(refs[n], cols) < 0
            && |shown| == n
            && (forall j | 0 <= j < n :: ResolveCol(refs[j], cols) >= 0 && shown[j] == cols[ResolveCol(refs[j], cols)])
            && error == if ResolveCol(refs[n], cols) == -2 then AmbiguousColumn(refs[n]) else UnknownColumn(refs[n])
  }

  lemma JoinReports(lcols: seq<Column>, rcols: seq<Column>, x: Str, y: Str, cols: seq<Str>, sel: SelectList)
    ensures ReportsJoin(JoinProblem(lcols, rcols, cols, (x, y), sel),
                        if ColIndex(lcols, x) < 0 || ColIndex(rcols, y) < 0 then [] else JoinNames(cols, sel),
                        lcols, rcols, x, y, cols, sel)
  {
    hide ColIndex, ResolveCol, ResolvesTo;
    match sel
    case Star =>
      assert JoinNames(cols, sel) == cols;
    case Named(refs) =>
      var n := FirstUnresolved(refs, cols);
      if n < |refs| {
        assert ResolveCol(refs[n], cols) < 0;
      }
  }

  /** The pairs that match, in order. */
  ghost function Joining(ps: seq<Pair>, p: Plan): seq<Pair> {
    if ps == [] then [] else (if PairMatches(ps[0], p) then [ps[0]] else []) + Joining(ps[1..], p)
  }

  lemma {:induction false} JoiningShown(ps: seq<Pair>, p: Plan)
    ensures |AllJoined(ps, p)| == |Joining(ps, p)|
    ensures forall i | 0 <= i < |Joining(ps, p)| ::
              var pair := Joining(ps, p)[i];
              AllJoined(ps, p)[i] == ProjectTexts(Texts(pair.lrow) + Texts(pair.rrow), p.idx)
  {
    hide MatchCombined, ProjectTexts, Texts, Key;
    if ps == [] {
    } else {
      JoiningShown(ps[1..], p);
      if PairMatches(ps[0], p) {
        assert JoinedPair(ps[0], p) == [ProjectTexts(Texts(ps[0].lrow) + Texts(ps[0].rrow), p.idx)];
      } else {
        assert JoinedPair(ps[0], p) == [];
      }
    }
  }

  lemma {:induction false} JoiningInOrder(ps: seq<Pair>, p: Plan)
    requires InOrder(ps)
    ensures InOrder(Joining(ps, p)) && forall pair :: pair in Joining(ps, p) <==> pair in ps && PairMatches(pair, p)
  {
    hide PairMatches, Before;
    if ps == [] {
    } else {
      assert ps == [ps[0]] + ps[1..];
      assert forall i | 0 <= i < |ps[1..]| :: ps[1..][i] == ps[i + 1];
      JoiningInOrder(ps[1..], p);
      var rest := Joining(ps[1..], p);
      forall i | 0 <= i < |rest|
        ensures Before(ps[0], rest[i])
      {
        assert rest[i] in rest;
        var j :| 0 <= j < |ps[1..]| && ps[1..][j] == rest[i];
        assert Before(ps[0], ps[j + 1]);
      }
      assert InOrder([ps[0]]);
      InOrderAppend([ps[0]], rest);
    }
  }

  /**
   * `out` shows the pairs `ps`, by left and then right rowid: they are of live rows and join, and every such pair is
   * among them unless the limit cut it off behind them.
   */
  ghost predicate AnswersJoin(out: seq<seq<Str>>, ps: seq<Pair>, left: map<nat, Row>, right: map<nat, Row>, p: Plan,
                              sel: SelectList)
  {
    && |ps| == |out| && (p.limit > 0 ==> |ps| <= p.limit) && InOrder(ps)
    && (forall i | 0 <= i < |ps| ::
          && LivePair(ps[i], left, right) && Joins(ps[i], p)
          && ShowsRefs(out[i], ps[i].lrow + ps[i].rrow, p.cols, sel))
    && (forall pair: Pair | LivePair(pair, left, right) && Joins(pair, p) ::
          pair in ps || (|ps| == p.limit > 0 && forall i | 0 <= i < |ps| :: Before(ps[i], pair)))
  }

  lemma JoinAnswers(left: map<nat, Row>, lnext: nat, right: map<nat, Row>, rnext: nat, p: Plan, sel: SelectList)
    returns (ps: seq<Pair>)
    requires JoinError(p.cols, sel) == NoError && p.idx == JoinColumns(p.cols, sel)
    requires (forall k | k in left :: 1 <= k < lnext) && forall k | k in right :: 1 <= k < rnext
    ensures AnswersJoin(JoinAnswer(Listing(left, 1, lnext), Listing(right, 1, rnext), p), ps, left, right, p, sel)
  {
    hide Joining, AllJoined, Cross, Joins, PairMatches, ShowsRefs, JoinColumns, JoinError, ProjectTexts, Listing,
      Before;
    var cross := Cross(Listing(left, 1, lnext), Listing(right, 1, rnext));
    CrossExact(left, lnext, right, rnext);
    JoiningShown(cross, p);
    JoiningInOrder(cross, p);
    var all := Joining(cross, p);
    ps := Limited(p.limit, all);
    var out := JoinAnswer(Listing(left, 1, lnext), Listing(right, 1, rnext), p);
    forall i | 0 <= i < |ps|
      ensures LivePair(ps[i], left, right) && Joins(ps[i], p)
      ensures ShowsRefs(out[i], ps[i].lrow + ps[i].rrow, p.cols, sel)
    {
      assert ps[i] == all[i] && all[i] in all;
      JoinsMatches(ps[i], p);
      ProjectedRefs(ps[i].lrow, ps[i].rrow, p.cols, sel);
    }
    forall pair: Pair | LivePair(pair, left, right) && Joins(pair, p)
      ensures pair in ps || (|ps| == p.limit > 0 && forall i | 0 <= i < |ps| :: Before(ps[i], pair))
    {
      JoinsMatches(pair, p);
      assert pair in all;
      var i :| 0 <= i < |all| && all[i] == pair;
      if i < |ps| {
        assert ps[i] == pair;
      }
    }
  }

  /** Everything a join of two tables on column `x` of the left and `y` of the right one returns. */
  ghost predicate JoinedOn(res: SelectResult, left: map<nat, Row>, lnext: nat, lcols: seq<Column>, leftName: Str,
                           right: map<nat, Row>, rnext: nat, rcols: seq<Column>, rightName: Str,
                           x: Str, y: Str, sel: SelectList, wh: WhereClause, limit: int)
  {
    var combined := CombinedCols(leftName, lcols, rightName, rcols);
    && ReportsJoin(res.error, res.cols, lcols, rcols, x, y, combined, sel)
    && res.error == JoinProblem(lcols, rcols, combined, (x, y), sel)
    && res.cols == (if ColIndex(lcols, x) < 0 || ColIndex(rcols, y) < 0 then [] else JoinNames(combined, sel))
    && (res.error != NoError ==> res.rows == [] && res.rowsScanned == 0)
    && (res.error == NoError ==>
          && ColIndex(lcols, x) >= 0 && ColIndex(rcols, y) >= 0
          && var p := Plan(ColIndex(lcols, x), ColIndex(rcols, y), JoinColumns(combined, sel), combined, wh, limit);
             var ls, rs := Listing(left, 1, lnext), Listing(right, 1, rnext);
             && res.rows == JoinAnswer(ls, rs, p) && PairsSeenFor(Cross(ls, rs), p, res.rows, res.rowsScanned)
             && (|res.rows| > limit
                 <==> limit < 0 || (limit == 0 && exists pair :: pair in Cross(ls, rs) && PairMatches(pair, p)))
             && exists ps :: AnswersJoin(res.rows, ps, left, right, p, sel))
  }

  /** That determines the result. */
  lemma JoinedOnce(a: SelectResult, b: SelectResult, left: map<nat, Row>, lnext: nat, lcols: seq<Column>, leftName: Str,
                   right: map<nat, Row>, rnext: nat, rcols: seq<Column>, rightName: Str,
                   x: Str, y: Str, sel: SelectList, wh: WhereClause, limit: int)
    requires JoinedOn(a, left, lnext, lcols, leftName, right, rnext, rcols, rightName, x, y, sel, wh, limit)
    requires JoinedOn(b, left, lnext, lcols, leftName, right, rnext, rcols, rightName, x, y, sel, wh, limit)
    ensures a == b
  {
    hide ReportsJoin, JoinProblem, JoinNames, JoinColumns, JoinAnswer, Cross, PairsSeenFor, AnswersJoin, CombinedCols;
    if a.error == NoError {
      var combined := CombinedCols(leftName, lcols, rightName, rcols);
      var p := Plan(ColIndex(lcols, x), ColIndex(rcols, y), JoinColumns(combined, sel), combined, wh, limit);
      var ps := Cross(Listing(left, 1, lnext), Listing(right, 1, rnext));
      PairsSeenExactly(ps, p, a.rows, a.rowsScanned, b.rowsScanned);
    }
  }
}
