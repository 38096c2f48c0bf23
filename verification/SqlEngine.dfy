/** The execution halves of SELECT, DELETE and JOIN on open tables. */
module SqlEngine {
  import opened Bytes
  import opened Schema
  import opened BufferPool
  import opened HeapFile
  import opened TableState
  import opened Table
  import opened Decimal
  import opened Scans
  import opened Query
  import opened Join
  import opened Answers

  /** No row is compared with a literal that `std::stoi` rejects, as the fast path would at once. */
  ghost predicate CanEvaluate(table: Table, wh: WhereClause)
    reads table
  {
    Comparable(table.schema.cols, wh)
    || (!FastPath(table.schema.cols, wh)
        && (Readable(table.schema.cols, table.records) ==> Evaluable(table.Rows(), table.schema.cols, wh)))
  }

  // ---------------------------------------------------------------- SELECT

  /**
   * `SELECT` on one table. The rows are those of the filtered scan, in rowid order and up to the limit,
   * except that an equality on an integer first column is answered by a point lookup: the same rows whenever
   * column 0 holds the rowids.
   */
  method ExecSelect(table: Table, sel: SelectList, wh: WhereClause, limit: int) returns (res: SelectResult)
    requires table.Valid()
    requires OutputError(table.schema.cols, sel) == NoError ==> CanEvaluate(table, wh)
    modifies table.pool.Repr
    ensures table.Valid() && fresh(table.pool.Repr - old(table.pool.Repr))
    ensures table.Content() == old(table.Content()) && table.schema == old(table.schema)
    ensures Readable(table.schema.cols, table.records)
    ensures res.error == OutputError(table.schema.cols, sel)
    ensures res.cols == OutputNames(table.schema.cols, sel)
    ensures res.error != NoError ==> res.rows == [] && res.rowsScanned == 0
    ensures var cols, idx, rows := table.schema.cols, OutputColumns(table.schema.cols, sel), table.Rows();
            res.error == NoError ==>
              && res.rows == SelectAnswer(rows, table.nextRowid, cols, wh, idx, limit)
              && (NumberedByRowid(rows) ==> res.rows == ScanAnswer(rows, table.nextRowid, cols, wh, idx, limit))
              && (if FastPath(cols, wh) then res.rowsScanned == |res.rows|
                  else SeenFor(Listing(rows, 1, table.nextRowid), cols, wh, idx, limit, res.rows, res.rowsScanned))
              && (|res.rows| > limit <==> limit < 0 || (limit == 0 && AnyShown(rows, cols, wh)))
              && (if FastPath(cols, wh) then AnswersLookup(res.rows, rows, cols, sel, wh.val)
                  else exists ks :: AnswersSelect(res.rows, ks, rows, cols, sel, wh, limit))
    ensures ReportsColumns(res.error, res.cols, table.schema.cols, sel)
  {
    hide BufferPool.Shape, BufferPool.View, BufferPool.Contents, BufferPool.Kept, Holds, OutputColumns, OutputError,
      OutputNames, ScanAnswer, PointAnswer, SeenFor, MatchWhere, AnyShown, AnswersLookup, AnswersSelect, ReportsColumns;
    table.CurrentPage();
    SelectReports(table.schema.cols, sel);
    var idx, names, err := SelectOutputs(table.schema, sel);
    if err != NoError {
      return SelectResult(names, [], err, 0);
    }
    RowidsBelow(table);
    LimitCaps(table.Rows(), table.nextRowid, table.schema.cols, wh, idx, limit);
    if FastPath(table.schema.cols, wh) {
      var rows := LookUp(table, wh, idx, limit);
      LookupAnswers(table.Rows(), table.schema.cols, sel, wh);
      return SelectResult(names, rows, NoError, |rows|);
    }
    var p, n := table.Scan(SelectRow(table.schema.cols, wh, idx, limit), Progress([], 0, 0));
    ScanSelects(table.Rows(), table.nextRowid, table.schema.cols, wh, idx, limit);
    ghost var ks := ScanAnswers(table.Rows(), table.nextRowid, table.schema.cols, sel, wh, limit);
    res := SelectResult(names, p.rows, NoError, p.scanned);
  }

  /** The fast path: one lookup in the index instead of a scan. */
  method LookUp(table: Table, wh: WhereClause, idx: seq<nat>, ghost limit: int) returns (rows: seq<seq<Str>>)
    requires table.Valid() && FastPath(table.schema.cols, wh) && Comparable(table.schema.cols, wh)
    modifies table.pool.Repr
    ensures table.Valid() && fresh(table.pool.Repr - old(table.pool.Repr))
    ensures table.Content() == old(table.Content()) && table.schema == old(table.schema)
    ensures Readable(table.schema.cols, table.records)
    ensures rows == PointAnswer(table.Rows(), Target(wh), idx)
    ensures NumberedByRowid(table.Rows()) ==>
              rows == ScanAnswer(table.Rows(), table.nextRowid, table.schema.cols, wh, idx, limit)
  {
    hide BufferPool.Shape, BufferPool.View, BufferPool.Contents, BufferPool.Kept, Holds, ScanAnswer;
    var row := table.FindByRowid(Target(wh));
    rows := if row.Some? then [Project(row.value, idx)] else [];
    RowidsBelow(table);
    if NumberedByRowid(table.Rows()) {
      FastPathRefinesScan(table.Rows(), table.nextRowid, table.schema.cols, wh, idx, limit);
    }
  }

  lemma RowidsBelow(table: Table)
    requires table.Valid()
    ensures forall k | k in table.records :: 0 < k < table.nextRowid <= TWO_32
  {
    forall k | k in table.records
      ensures 0 < k < table.nextRowid <= TWO_32
    {
      RowidSmall(table.pool.View(), table.Content(), k);
    }
  }

  /** What a table stores is well typed. */
  lemma RowsWellTyped(cols: seq<Column>, records: map<nat, seq<byte>>)
    requires Readable(cols, records)
    ensures AllWellTyped(cols, RowsOf(cols, records))
  {
    hide DecodeRow, WellTyped;
    forall k | k in records
      ensures WellTyped(cols, RowsOf(cols, records)[k])
    {
      DecodedWellTyped(cols, records[k]);
    }
  }

  /** On every table with an integer first column: fast path and scan agree exactly when the rows carry their rowids. */
  lemma FastPathOnTable(t: Table)
    requires t.Valid() && t.schema.cols != [] && t.schema.cols[0].ty == INT
    ensures Readable(t.schema.cols, t.records)
    ensures var cols, rows := t.schema.cols, t.Rows();
            NumberedByRowid(rows) <==>
              forall wh, limit | FastPath(cols, wh) && Stoi(wh.val).Some? ::
                PointAnswer(rows, Target(wh), AllColumns(cols))
                == ScanAnswer(rows, t.nextRowid, cols, wh, AllColumns(cols), limit)
  {
    hide Holds, ScanAnswer, PointAnswer, FastPath, WellTyped, DecodeRow, Layout;
    t.CurrentPage();
    RowidsBelow(t);
    RowsWellTyped(t.schema.cols, t.records);
    FastPathExactly(t.Rows(), t.nextRowid, t.schema.cols);
  }

  // ---------------------------------------------------------------- DELETE

  /** `DELETE` removes exactly the rows its WHERE clause matches. */
  method ExecDelete(table: Table, wh: WhereClause) returns (count: nat)
    requires table.Valid()
             && (Readable(table.schema.cols, table.records) ==> Evaluable(table.Rows(), table.schema.cols, wh))
    modifies table, table.btree, table.pool.Repr
    ensures table.Valid() && fresh(table.pool.Repr - old(table.pool.Repr)) && table.schema == old(table.schema)
    ensures Readable(table.schema.cols, old(table.records)) && Readable(table.schema.cols, table.records)
    ensures var before := RowsOf(table.schema.cols, old(table.records));
            && (forall k :: k in table.Rows() <==> k in before && !MatchWhere(before[k], table.schema.cols, wh))
            && (forall k :: k in table.Rows() <==> k in before && Survives(before[k], table.schema.cols, wh))
            && (forall k | k in table.Rows() :: table.Rows()[k] == before[k])
            && count == |before| - |table.Rows()|
    ensures table.nextRowid == old(table.nextRowid) && table.curHeapPage == old(table.curHeapPage)
  {
    hide BufferPool.Shape, BufferPool.View, BufferPool.Contents, BufferPool.Kept, Holds, MatchWhere, Readable,
      Survives;
    var cols := table.schema.cols;
    var pred := (rid: nat, row: Row) => MatchWhere(row, cols, wh);
    count := table.DeleteWhere(pred);
    ghost var before := RowsOf(cols, old(table.records));
    SurvivorCount(before, pred);
    forall k | k in before
      ensures Survives(before[k], cols, wh) <==> !MatchWhere(before[k], cols, wh)
    {
      SurvivesUnmatched(before[k], cols, wh);
    }
  }

  lemma SurvivorCount(rows: map<nat, Row>, pred: (nat, Row) -> bool)
    ensures |rows| == |Survivors(rows, pred)| + |Victims(rows, pred)|
  {
    var kept, gone := Survivors(rows, pred).Keys, Victims(rows, pred);
    assert rows.Keys == kept + gone && kept * gone == {};
    assert |kept + gone| == |kept| + |gone|;
    assert |rows.Keys| == |rows| && |kept| == |Survivors(rows, pred)|;
  }

  // ---------------------------------------------------------------- JOIN

  ghost predicate Foreign(t: Table, objects: set<object>)
    reads t
  {
    t !in objects && t.btree !in objects && t.pool !in objects && t.pool.watch !in objects
  }

  /** Two open tables share nothing, or are one table opened once. */
  ghost predicate Apart(left: Table, right: Table)
    reads left, left.pool, right, right.pool
  {
    left == right ||
    (left.pool.Repr !! right.pool.Repr && Foreign(left, right.pool.Repr) && Foreign(right, left.pool.Repr))
  }

  /** A full or partial scan of `t`, which leaves both tables as they are. */
  method ScanBeside<A>(t: Table, ghost other: Table, cb: (A, nat, Row) -> (A, bool), init: A) returns (acc: A)
    requires t.Valid() && other.Valid() && Apart(t, other)
    modifies t.pool.Repr
    ensures t.Valid() && other.Valid() && Apart(t, other) && fresh(t.pool.Repr - old(t.pool.Repr))
    ensures t.Content() == old(t.Content()) && other.Content() == old(other.Content())
    ensures t.schema == old(t.schema) && other.schema == old(other.schema)
    ensures t.records == old(t.records) && other.records == old(other.records)
    ensures Readable(t.schema.cols, t.records)
    ensures acc == Fold(Listing(t.Rows(), 1, t.nextRowid), cb, init).0
  {
    hide BufferPool.Shape, BufferPool.View, BufferPool.Contents, BufferPool.Kept, Holds, Readable;
    var n;
    acc, n := t.Scan(cb, init);
  }

  /** The right table is loaded into memory, then each left row is paired with all of it. */
  method NestedLoop(left: Table, right: Table, p: Plan) returns (out: Progress)
    requires left.Valid() && right.Valid() && Apart(left, right)
    modifies left.pool.Repr, right.pool.Repr
    ensures left.Valid() && right.Valid()
    ensures Apart(left, right)
    ensures fresh((left.pool.Repr + right.pool.Repr) - old(left.pool.Repr + right.pool.Repr))
    ensures left.Content() == old(left.Content()) && right.Content() == old(right.Content())
    ensures left.schema == old(left.schema) && right.schema == old(right.schema)
    ensures Readable(left.schema.cols, left.records) && Readable(right.schema.cols, right.records)
    ensures var ps := Cross(Listing(left.Rows(), 1, left.nextRowid), Listing(right.Rows(), 1, right.nextRowid));
            PairsSeenFor(ps, p, out.rows, out.scanned)
    ensures out.rows == JoinAnswer(Listing(left.Rows(), 1, left.nextRowid), Listing(right.Rows(), 1, right.nextRowid), p)
  {
    hide BufferPool.Shape, BufferPool.View, BufferPool.Contents, BufferPool.Kept, Holds, Readable, Table.Valid,
      JoinAnswer, PairsSeenFor, Cross;
    var rs := ScanBeside(right, left, Collect(p.onRight), []);
    ghost var rl := Listing(right.Rows(), 1, right.nextRowid);
    CollectsAll(rl, p.onRight, []);
    assert [] + Materialised(rl, p.onRight) == Materialised(rl, p.onRight);
    out := ScanBeside(left, right, JoinLeft(rs, p), Progress([], 0, 0));
    JoinIsCorrect(Listing(left.Rows(), 1, left.nextRowid), rl, p);
  }

  /** Resolves the ON columns and then the columns shown. */
  method PlanJoin(left: Schema, right: Schema, combined: seq<Str>, on: (Str, Str), sel: SelectList, wh: WhereClause,
                  limit: int)
      returns (p: Plan, names: seq<Str>, err: QueryError)
    ensures err == JoinProblem(left.cols, right.cols, combined, on, sel)
    ensures var found := ColIndex(left.cols, on.0) >= 0 && ColIndex(right.cols, on.1) >= 0;
            && names == (if found then JoinNames(combined, sel) else [])
            && (err == NoError ==>
                  && found
                  && p == Plan(ColIndex(left.cols, on.0), ColIndex(right.cols, on.1), JoinColumns(combined, sel),
                               combined, wh, limit))
  {
    p := Plan(0, 0, [], combined, wh, limit);
    var onLeft := FindCol(left, on.0);
    var onRight := FindCol(right, on.1);
    if onLeft < 0 {
      return p, [], UnknownOnColumn(on.0);
    }
    if onRight < 0 {
      return p, [], UnknownOnColumn(on.1);
    }
    var idx;
    idx, names, err := JoinOutputs(combined, sel);
    p := Plan(onLeft, onRight, idx, combined, wh, limit);
  }

  /** `SELECT … FROM left JOIN right ON first = second [WHERE …] [LIMIT n]`. */
  method ExecJoin(left: Table, right: Table, leftName: Str, rightName: Str, sel: SelectList, first: Str, second: Str,
                  wh: WhereClause, limit: int) returns (res: SelectResult)
    requires left.Valid() && right.Valid() && Apart(left, right)
    modifies left.pool.Repr, right.pool.Repr
    ensures left.Valid() && right.Valid()
    ensures Apart(left, right)
    ensures fresh((left.pool.Repr + right.pool.Repr) - old(left.pool.Repr + right.pool.Repr))
    ensures left.Content() == old(left.Content()) && right.Content() == old(right.Content())
    ensures left.schema == old(left.schema) && right.schema == old(right.schema)
    ensures Readable(left.schema.cols, left.records) && Readable(right.schema.cols, right.records)
    ensures var (x, y) := OnNames(first, second, rightName);
            && OnMeans(first, second, rightName, x, y)
            && JoinedOn(res, left.Rows(), left.nextRowid, left.schema.cols, leftName,
                        right.Rows(), right.nextRowid, right.schema.cols, rightName, x, y, sel, wh, limit)
    ensures forall x, y | OnMeans(first, second, rightName, x, y) ::
              JoinedOn(res, left.Rows(), left.nextRowid, left.schema.cols, leftName,
                       right.Rows(), right.nextRowid, right.schema.cols, rightName, x, y, sel, wh, limit)
  {
    hide BufferPool.Shape, BufferPool.View, BufferPool.Contents, BufferPool.Kept, Holds, JoinAnswer, CombinedCols,
      JoinColumns, JoinNames, JoinError, OnNames, PairsSeenFor, Cross, PairMatches, JoinedOn, OnMeans, Readable;
    left.CurrentPage();
    right.CurrentPage();
    var combined := CombinedCols(leftName, left.schema.cols, rightName, right.schema.cols);
    var on := OnNames(first, second, rightName);
    var p, names, err := PlanJoin(left.schema, right.schema, combined, on, sel, wh, limit);
    if err != NoError {
      res := SelectResult(names, [], err, 0);
    } else {
      var out := NestedLoop(left, right, p);
      res := SelectResult(names, out.rows, NoError, out.scanned);
    }
    RowidsBelow(left);
    RowidsBelow(right);
    JoinDone(res, left.Rows(), left.nextRowid, left.schema.cols, leftName,
             right.Rows(), right.nextRowid, right.schema.cols, rightName, on.0, on.1, sel, wh, limit);
    forall x, y
      ensures OnMeans(first, second, rightName, x, y) <==> (x, y) == on
    {
      OnMeansNames(first, second, rightName, x, y);
    }
  }

  lemma JoinDone(res: SelectResult, left: map<nat, Row>, lnext: nat, lcols: seq<Column>, leftName: Str,
                 right: map<nat, Row>, rnext: nat, rcols: seq<Column>, rightName: Str,
                 x: Str, y: Str, sel: SelectList, wh: WhereClause, limit: int)
    requires (forall k | k in left :: 1 <= k < lnext) && forall k | k in right :: 1 <= k < rnext
    requires var combined := CombinedCols(leftName, lcols, rightName, rcols);
             && res.error == JoinProblem(lcols, rcols, combined, (x, y), sel)
             && res.cols == (if ColIndex(lcols, x) < 0 || ColIndex(rcols, y) < 0 then [] else JoinNames(combined, sel))
             && (res.error != NoError ==> res.rows == [] && res.rowsScanned == 0)
             && (res.error == NoError ==>
                   && ColIndex(lcols, x) >= 0 && ColIndex(rcols, y) >= 0
                   && var p := Plan(ColIndex(lcols, x), ColIndex(rcols, y), JoinColumns(combined, sel), combined,
                                    wh, limit);
                      var ls, rs := Listing(left, 1, lnext), Listing(right, 1, rnext);
                      res.rows == JoinAnswer(ls, rs, p) && PairsSeenFor(Cross(ls, rs), p, res.rows, res.rowsScanned))
    ensures JoinedOn(res, left, lnext, lcols, leftName, right, rnext, rcols, rightName, x, y, sel, wh, limit)
  {
    hide CombinedCols, JoinAnswer, JoinNames, JoinColumns, JoinError, PairsSeenFor, Cross, PairMatches, ReportsJoin,
      AnswersJoin, Listing, ColIndex;
    var combined := CombinedCols(leftName, lcols, rightName, rcols);
    JoinReports(lcols, rcols, x, y, combined, sel);
    if res.error == NoError {
      var p := Plan(ColIndex(lcols, x), ColIndex(rcols, y), JoinColumns(combined, sel), combined, wh, limit);
      JoinLimitCaps(Listing(left, 1, lnext), Listing(right, 1, rnext), p);
      var ps := JoinAnswers(left, lnext, right, rnext, p, sel);
    }
  }

  /** Turning the ON clause round changes nothing, unless both tables have one name. */
  method JoinBothWays(left: Table, right: Table, leftName: Str, rightName: Str, x: Str, y: Str, sel: SelectList,
                      wh: WhereClause, limit: int) returns (res: SelectResult, turned: SelectResult)
    requires left.Valid() && right.Valid() && Apart(left, right)
    requires Undotted(leftName) && Undotted(rightName) && rightName != [] && leftName != rightName
    modifies left.pool.Repr, right.pool.Repr
    ensures left.Valid() && right.Valid() && res == turned
    ensures Readable(left.schema.cols, left.records) && Readable(right.schema.cols, right.records)
    ensures JoinedOn(res, left.Rows(), left.nextRowid, left.schema.cols, leftName,
                     right.Rows(), right.nextRowid, right.schema.cols, rightName, x, y, sel, wh, limit)
  {
    hide BufferPool.Shape, BufferPool.View, BufferPool.Contents, BufferPool.Kept, Holds, JoinedOn, OnMeans, Readable,
      Undotted, Table.Valid;
    OnEitherWay(leftName, rightName, x, y);
    res := ExecJoin(left, right, leftName, rightName, sel, Dotted(leftName, x), Dotted(rightName, y), wh, limit);
    turned := ExecJoin(left, right, leftName, rightName, sel, Dotted(rightName, y), Dotted(leftName, x), wh, limit);
    JoinedOnce(res, turned, left.Rows(), left.nextRowid, left.schema.cols, leftName,
               right.Rows(), right.nextRowid, right.schema.cols, rightName, x, y, sel, wh, limit);
  }

  // ---------------------------------------------------------------- filter pushdown on tables

  /** How a WHERE clause means column `name` of `table`: qualified, or bare when it is the only column of that name. */
  ghost predicate MeansColumn(ref: Str, table: Str, name: Str, lcols: seq<Column>, rcols: seq<Column>) {
    ref == Dotted(table, name) || (ref == name && !Qualified(name) && OnlyOne(lcols + rcols, name))
  }

  /** The plan of a join of two tables whose WHERE clause compares integer column `name` of `table` with a number. */
  ghost predicate FiltersOn(p: Plan, leftName: Str, lcols: seq<Column>, rightName: Str, rcols: seq<Column>,
                            table: Str, cols: seq<Column>, name: Str)
  {
    && !Qualified(leftName) && !Qualified(rightName) && p.cols == CombinedCols(leftName, lcols, rightName, rcols)
    && p.wh.active && MeansColumn(p.wh.col, table, name, lcols, rcols) && Stoi(p.wh.val).Some?
    && ColIndex(cols, name) >= 0 && cols[ColIndex(cols, name)].ty == INT
  }

  lemma FilterOnLeft(p: Plan, leftName: Str, lcols: seq<Column>, rightName: Str, rcols: seq<Column>, name: Str)
    requires FiltersOn(p, leftName, lcols, rightName, rcols, leftName, lcols, name)
    ensures ResolveCol(p.wh.col, p.cols) == ColIndex(lcols, name)
  {
    hide CombinedCols, ResolveCol, ResolvesTo, Qualified, OnlyOne;
    if p.wh.col == Dotted(leftName, name) {
      QualifiedLeft(leftName, lcols, rightName, rcols, name);
    } else {
      BareResolves(leftName, lcols, rightName, rcols, name);
    }
  }

  lemma FilterOnRight(p: Plan, leftName: Str, lcols: seq<Column>, rightName: Str, rcols: seq<Column>, name: Str)
    requires FiltersOn(p, leftName, lcols, rightName, rcols, rightName, rcols, name)
    requires leftName != rightName || ColIndex(lcols, name) < 0
    ensures ResolveCol(p.wh.col, p.cols) == |lcols| + ColIndex(rcols, name)
  {
    hide CombinedCols, ResolveCol, ResolvesTo, Qualified, OnlyOne;
    if p.wh.col == Dotted(rightName, name) {
      QualifiedRight(leftName, lcols, rightName, rcols, name);
    } else {
      BareResolves(leftName, lcols, rightName, rcols, name);
    }
  }

  /** `WHERE left.name op number` may be applied to the left table before the join, and so may its bare form. */
  lemma PushdownLeftTable(left: Table, right: Table, p: Plan, leftName: Str, rightName: Str, name: Str)
    requires left.Valid() && right.Valid()
    requires FiltersOn(p, leftName, left.schema.cols, rightName, right.schema.cols, leftName, left.schema.cols, name)
    requires Readable(left.schema.cols, left.records) && AllFullWidth(left.schema.cols, left.Rows())
    ensures Readable(right.schema.cols, right.records)
    ensures var ls, rs := Listing(left.Rows(), 1, left.nextRowid), Listing(right.Rows(), 1, right.nextRowid);
            JoinAnswer(ls, rs, p)
            == JoinAnswer(Filtered(ls, left.schema.cols, p.wh.(col := name)), rs, Unfiltered(p))
  {
    hide Holds, JoinAnswer, CombinedCols, ResolveCol, ResolvesTo, Filtered, FullWidth, AllFullWidth, Layout, Qualified,
      MeansColumn;
    right.CurrentPage();
    var ls, rs := Listing(left.Rows(), 1, left.nextRowid), Listing(right.Rows(), 1, right.nextRowid);
    var c := ColIndex(left.schema.cols, name);
    FilterOnLeft(p, leftName, left.schema.cols, rightName, right.schema.cols, name);
    ListingFullWidth(left.Rows(), 1, left.nextRowid, left.schema.cols);
    PushdownLeft(ls, rs, p, left.schema.cols, c);
  }

  /** And `WHERE right.name op number`, or its bare form, to the right table. */
  lemma PushdownRightTable(left: Table, right: Table, p: Plan, leftName: Str, rightName: Str, name: Str)
    requires left.Valid() && right.Valid() && (leftName != rightName || ColIndex(left.schema.cols, name) < 0)
    requires FiltersOn(p, leftName, left.schema.cols, rightName, right.schema.cols, rightName, right.schema.cols, name)
    requires Readable(left.schema.cols, left.records) && AllFullWidth(left.schema.cols, left.Rows())
    requires Readable(right.schema.cols, right.records) && AllFullWidth(right.schema.cols, right.Rows())
    ensures var ls, rs := Listing(left.Rows(), 1, left.nextRowid), Listing(right.Rows(), 1, right.nextRowid);
            JoinAnswer(ls, rs, p)
            == JoinAnswer(ls, Filtered(rs, right.schema.cols, p.wh.(col := name)), Unfiltered(p))
  {
    hide Holds, JoinAnswer, CombinedCols, ResolveCol, ResolvesTo, Filtered, AllFullWidth, Layout, Qualified,
      MeansColumn;
    var ls, rs := Listing(left.Rows(), 1, left.nextRowid), Listing(right.Rows(), 1, right.nextRowid);
    var c := ColIndex(right.schema.cols, name);
    FilterOnRight(p, leftName, left.schema.cols, rightName, right.schema.cols, name);
    ListingFullWidth(left.Rows(), 1, left.nextRowid, left.schema.cols);
    ListingFullWidth(right.Rows(), 1, right.nextRowid, right.schema.cols);
    PushdownRight(ls, rs, p, |left.schema.cols|, right.schema.cols, c);
  }

  /** On integer columns of two tables with rows of full width, the join is the join by integer equality. */
  lemma IntegerJoinTable(left: Table, right: Table, p: Plan)
    requires left.Valid() && right.Valid()
    requires p.onLeft < |left.schema.cols| && left.schema.cols[p.onLeft].ty == INT
    requires p.onRight < |right.schema.cols| && right.schema.cols[p.onRight].ty == INT
    requires Readable(left.schema.cols, left.records) && AllFullWidth(left.schema.cols, left.Rows())
    requires Readable(right.schema.cols, right.records) && AllFullWidth(right.schema.cols, right.Rows())
    ensures var ls, rs := Listing(left.Rows(), 1, left.nextRowid), Listing(right.Rows(), 1, right.nextRowid);
            JoinAnswer(ls, rs, p) == Limited(p.limit, AllIntegerJoined(Cross(ls, rs), p))
  {
    hide Holds, JoinAnswer, AllFullWidth, Layout, Cross, AllIntegerJoined;
    ListingFullWidth(left.Rows(), 1, left.nextRowid, left.schema.cols);
    ListingFullWidth(right.Rows(), 1, right.nextRowid, right.schema.cols);
    IntegerJoin(Listing(left.Rows(), 1, left.nextRowid), Listing(right.Rows(), 1, right.nextRowid), p,
                left.schema.cols, right.schema.cols);
  }
}
