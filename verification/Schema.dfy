/** Columns, rows, and the byte encodings in which schemas and rows are stored. */
module Schema {
  import opened Bytes
  import opened Cells

  /** `std::string`: a sequence of bytes. */
  type Str = seq<byte>
  type int32 = x: int | IsInt32(x)
  type uint16 = x: int | 0 <= x < TWO_16

  datatype ColType = INT | TEXT

  datatype Column = Column(name: Str, ty: ColType, maxLen: uint16)

  datatype Schema = Schema(tableName: Str, cols: seq<Column>)

  datatype Value = Value(ty: ColType, intVal: int32, strVal: Str)

  type Row = seq<Value>

  // ---------------------------------------------------------------- rows

  function Le16(v: nat): seq<byte> {
    [v % 0x100, v / 0x100 % 0x100]
  }

  function Le32(v: nat): seq<byte>
    requires v < TWO_32
  {
    [v % 0x100, v / 0x100 % 0x100, v / 0x1_0000 % 0x100, v / 0x100_0000]
  }

  /** A field as the column's type demands, whatever the value's own tag says. */
  function EncodeField(ty: ColType, v: Value): (b: seq<byte>)
    ensures |b| >= 2
  {
    if ty == INT then Le32(ToUnsigned(v.intVal)) else Le16(|v.strVal|) + v.strVal
  }

  function EncodeRow(cols: seq<Column>, row: Row): (b: seq<byte>)
    ensures cols != [] && row != [] ==> |b| >= 2
  {
    if cols == [] || row == [] then [] else EncodeField(cols[0].ty, row[0]) + EncodeRow(cols[1..], row[1..])
  }

  /** The field at the start of `b` and the bytes it takes, or none if `b` ends too early. */
  function DecodeField(ty: ColType, b: seq<byte>): (r: Option<(Value, nat)>)
    ensures r.Some? ==> 2 <= r.value.1 <= |b|
  {
    if ty == INT then
      if |b| < 4 then None else Some((Value(INT, ToSigned(U32At(b, 0)), []), 4))
    else if |b| < 2 || |b| < 2 + U16At(b, 0) then None
    else Some((Value(TEXT, 0, b[2..2 + U16At(b, 0)]), 2 + U16At(b, 0)))
  }

  /** Decoding stops when the columns or the bytes run out. */
  function DecodeRow(cols: seq<Column>, b: seq<byte>): (r: Option<Row>)
  {
    if cols == [] || b == [] then Some([])
    else
      match DecodeField(cols[0].ty, b)
      case None => None
      case Some((v, n)) =>
        match DecodeRow(cols[1..], b[n..])
        case None => None
        case Some(rest) => Some([v] + rest)
  }

  /** The value a column of type `ty` keeps of `v`. */
  function Coerced(ty: ColType, v: Value): Value {
    if ty == INT then Value(INT, v.intVal, []) else Value(TEXT, 0, v.strVal)
  }

  /** The row as stored: one coerced value per column that got one. */
  function Coerce(cols: seq<Column>, row: Row): Row {
    if cols == [] || row == [] then [] else [Coerced(cols[0].ty, row[0])] + Coerce(cols[1..], row[1..])
  }

  /** A row with one value of the right type per column, which says nothing of the other type. */
  ghost predicate Typed(cols: seq<Column>, row: Row) {
    && |row| == |cols|
    && forall i | 0 <= i < |cols| ::
         && row[i].ty == cols[i].ty
         && (row[i].ty == INT ==> row[i].strVal == []) && (row[i].ty == TEXT ==> row[i].intVal == 0)
  }

  lemma FieldRoundTrip(ty: ColType, v: Value, rest: seq<byte>)
    requires |EncodeField(ty, v)| < TWO_16
    ensures DecodeField(ty, EncodeField(ty, v) + rest) == Some((Coerced(ty, v), |EncodeField(ty, v)|))
  {
    var b := EncodeField(ty, v);
    if ty == INT {
      var n := ToUnsigned(v.intVal);
      StoredU32([0, 0, 0, 0], 0, n);
      assert Put32([0, 0, 0, 0], 0, n) == b;
      assert U32At(b + rest, 0) == U32At(b, 0);
    } else {
      assert U16At(b + rest, 0) == |v.strVal|;
      assert (b + rest)[2..2 + |v.strVal|] == v.strVal;
    }
  }

  /** Whatever row is stored, reading it back gives its coerced values, and nothing is read past its end. */
  lemma {:induction false} RowRoundTrip(cols: seq<Column>, row: Row)
    requires |EncodeRow(cols, row)| < TWO_16
    ensures DecodeRow(cols, EncodeRow(cols, row)) == Some(Coerce(cols, row))
  {
    if cols == [] || row == [] {
    } else {
      var b := EncodeField(cols[0].ty, row[0]);
      var rest := EncodeRow(cols[1..], row[1..]);
      FieldRoundTrip(cols[0].ty, row[0], rest);
      assert (b + rest)[|b|..] == rest;
      RowRoundTrip(cols[1..], row[1..]);
    }
  }

  /** What follows a row with a value for every column is not read. */
  lemma {:induction false} NothingBeyond(cols: seq<Column>, row: Row, rest: seq<byte>)
    requires |EncodeRow(cols, row)| < TWO_16 && |cols| <= |row|
    ensures DecodeRow(cols, EncodeRow(cols, row) + rest) == Some(Coerce(cols, row))
  {
    if cols == [] {
    } else {
      var b, more := EncodeField(cols[0].ty, row[0]), EncodeRow(cols[1..], row[1..]);
      assert EncodeRow(cols, row) + rest == b + (more + rest);
      FieldRoundTrip(cols[0].ty, row[0], more + rest);
      assert (b + (more + rest))[|b|..] == more + rest;
      NothingBeyond(cols[1..], row[1..], rest);
    }
  }

  lemma {:induction false} TypedIsCoerced(cols: seq<Column>, row: Row)
    ensures Typed(cols, Coerce(cols, row)) <==> |cols| <= |row|
    ensures Typed(cols, row) ==> Coerce(cols, row) == row
    ensures |Coerce(cols, row)| == if |cols| <= |row| then |cols| else |row|
  {
    if cols == [] || row == [] {
    } else {
      TypedIsCoerced(cols[1..], row[1..]);
      var c, rest := Coerce(cols, row), Coerce(cols[1..], row[1..]);
      assert c[0] == Coerced(cols[0].ty, row[0]) && c[1..] == rest;
      assert forall i | 1 <= i < |c| :: c[i] == rest[i - 1];
      if Typed(cols[1..], rest) {
        assert forall i | 1 <= i < |cols| :: cols[i] == cols[1..][i - 1];
      }
      if Typed(cols, row) {
        assert Typed(cols[1..], row[1..]);
      }
    }
  }

  // ---------------------------------------------------------------- records

  /** The bytes an insertion stores: lengths are kept in 16 bits, so of a longer encoding only a part. */
  function StoredBytes(cols: seq<Column>, row: Row): (b: seq<byte>)
    ensures |b| < TWO_16
  {
    var e := EncodeRow(cols, row);
    e[..|e| % TWO_16]
  }

  /** The row that reads back. */
  function StoredRow(cols: seq<Column>, row: Row): Row
    requires DecodeRow(cols, StoredBytes(cols, row)).Some?
  {
    DecodeRow(cols, StoredBytes(cols, row)).value
  }

  lemma {:induction false} DecodedLength(cols: seq<Column>, b: seq<byte>)
    requires DecodeRow(cols, b).Some?
    ensures |EncodeRow(cols, DecodeRow(cols, b).value)| <= |b|
  {
    if cols == [] || b == [] {
    } else {
      var (v, n) := DecodeField(cols[0].ty, b).value;
      assert |EncodeField(cols[0].ty, v)| == n;
      DecodedLength(cols[1..], b[n..]);
    }
  }

  lemma {:induction false} CoercedLength(cols: seq<Column>, row: Row)
    ensures |EncodeRow(cols, Coerce(cols, row))| == |EncodeRow(cols, row)|
  {
    if cols == [] || row == [] {
    } else {
      var c := Coerce(cols, row);
      assert c[0] == Coerced(cols[0].ty, row[0]) && c[1..] == Coerce(cols[1..], row[1..]);
      CoercedLength(cols[1..], row[1..]);
    }
  }

  /** A row is stored whole, so that it reads back, exactly when its encoding has at most 65535 bytes. */
  lemma RecordReadsBack(cols: seq<Column>, row: Row)
    ensures DecodeRow(cols, StoredBytes(cols, row)) == Some(Coerce(cols, row)) <==> |EncodeRow(cols, row)| < TWO_16
    ensures |EncodeRow(cols, row)| < TWO_16 ==> StoredBytes(cols, row) == EncodeRow(cols, row)
  {
    var e, b := EncodeRow(cols, row), StoredBytes(cols, row);
    if |e| < TWO_16 {
      assert b == e;
      RowRoundTrip(cols, row);
    } else if DecodeRow(cols, b) == Some(Coerce(cols, row)) {
      DecodedLength(cols, b);
      CoercedLength(cols, row);
    }
  }

  /** Of a longer one the front is stored, shorter by a multiple of 65536. */
  lemma StoredPart(cols: seq<Column>, row: Row)
    ensures StoredBytes(cols, row) <= EncodeRow(cols, row)
    ensures (|EncodeRow(cols, row)| - |StoredBytes(cols, row)|) % TWO_16 == 0
  {
    hide EncodeRow;
  }

  /** A text of 65536 bytes is stored as the empty text. */
  lemma LongTextLost(name: Str, width: uint16, text: Str)
    requires |text| == TWO_16
    ensures var cols, row := [Column(name, TEXT, width)], [Value(TEXT, 0, text)];
            StoredBytes(cols, row) == [0, 0] && DecodeRow(cols, [0, 0]) == Some([Value(TEXT, 0, [])])
  {
    var cols, row := [Column(name, TEXT, width)], [Value(TEXT, 0, text)];
    var b: seq<byte> := [0, 0];
    assert EncodeRow(cols, row) == EncodeField(TEXT, row[0]) + EncodeRow(cols[1..], row[1..]) == b + text;
    assert U16At(b, 0) == 0 && b[2..2 + 0] == [];
    assert DecodeField(TEXT, b) == Some((Value(TEXT, 0, []), 2));
    assert DecodeRow(cols[1..], b[2..]) == Some([]) && [Value(TEXT, 0, [])] + [] == [Value(TEXT, 0, [])];
    assert DecodeRow(cols, b) == Some([Value(TEXT, 0, [])]);
    assert StoredBytes(cols, row) == b;
  }

  // ---------------------------------------------------------------- declared widths

  predicate SameTypes(a: seq<Column>, b: seq<Column>) {
    |a| == |b| && forall i | 0 <= i < |a| :: a[i].ty == b[i].ty
  }

  /** No text is longer than its column was declared. */
  predicate WithinWidths(cols: seq<Column>, row: Row) {
    forall i | 0 <= i < |cols| && i < |row| && cols[i].ty == TEXT :: |row[i].strVal| <= cols[i].maxLen
  }

  /** Storing and reading back do not look at the declared widths, or at the names. */
  lemma {:induction false} WidthsIgnored(a: seq<Column>, b: seq<Column>, row: Row, bytes: seq<byte>)
    requires SameTypes(a, b)
    ensures EncodeRow(a, row) == EncodeRow(b, row) && DecodeRow(a, bytes) == DecodeRow(b, bytes)
    decreases |a|
  {
    if a == [] {
      assert b == [];
    } else {
      assert SameTypes(a[1..], b[1..]);
      var n := if DecodeField(a[0].ty, bytes).Some? then DecodeField(a[0].ty, bytes).value.1 else 0;
      WidthsIgnored(a[1..], b[1..], if row == [] then [] else row[1..], bytes[n..]);
    }
  }

  /** A stored row has the number of an INT column and the text of a TEXT column, in the order of the columns. */
  lemma {:induction false} CoercedAt(cols: seq<Column>, row: Row, i: nat)
    requires i < |cols| && i < |row|
    ensures i < |Coerce(cols, row)| && Coerce(cols, row)[i] == Coerced(cols[i].ty, row[i])
    ensures cols[i].ty == INT ==> Coerce(cols, row)[i] == Value(INT, row[i].intVal, [])
    ensures cols[i].ty == TEXT ==> Coerce(cols, row)[i] == Value(TEXT, 0, row[i].strVal)
  {
    if i == 0 {
    } else {
      CoercedAt(cols[1..], row[1..], i - 1);
    }
  }

  lemma CoercedWidths(cols: seq<Column>, row: Row)
    ensures WithinWidths(cols, Coerce(cols, row)) <==> WithinWidths(cols, row)
  {
    TypedIsCoerced(cols, row);
    forall i: nat | i < |cols| && i < |row|
      ensures Coerce(cols, row)[i] == Coerced(cols[i].ty, row[i])
    {
      CoercedAt(cols, row, i);
    }
  }

  /** So a row read back keeps to the widths exactly when the one that was stored did. */
  lemma WidthsUnchecked(cols: seq<Column>, row: Row)
    requires |EncodeRow(cols, row)| < TWO_16
    ensures DecodeRow(cols, EncodeRow(cols, row)).Some?
    ensures WithinWidths(cols, DecodeRow(cols, EncodeRow(cols, row)).value) <==> WithinWidths(cols, row)
  {
    RowRoundTrip(cols, row);
    CoercedWidths(cols, row);
  }

  lemma EncodeStep(cols: seq<Column>, row: Row, i: nat, done: seq<byte>)
    requires i < |cols| && i < |row|
    ensures done + EncodeRow(cols[i..], row[i..])
         == (done + EncodeField(cols[i].ty, row[i])) + EncodeRow(cols[i + 1..], row[i + 1..])
  {
    assert cols[i..][1..] == cols[i + 1..] && row[i..][1..] == row[i + 1..];
    var f, rest := EncodeField(cols[i].ty, row[i]), EncodeRow(cols[i + 1..], row[i + 1..]);
    assert EncodeRow(cols[i..], row[i..]) == f + rest;
    assert done + (f + rest) == (done + f) + rest;
  }

  method SerializeRow(schema: Schema, row: Row) returns (buf: seq<byte>)
    ensures buf == EncodeRow(schema.cols, row)
  {
    buf := [];
    var i := 0;
    assert schema.cols[0..] == schema.cols && row[0..] == row;
    while i < |schema.cols| && i < |row|
      invariant i <= |schema.cols| && i <= |row|
      invariant EncodeRow(schema.cols, row) == buf + EncodeRow(schema.cols[i..], row[i..])
    {
      EncodeStep(schema.cols, row, i, buf);
      buf := AppendField(buf, schema.cols[i].ty, row[i]);
      i := i + 1;
    }
  }

  method SerializeRecord(schema: Schema, row: Row) returns (buf: seq<byte>)
    ensures buf == StoredBytes(schema.cols, row)
  {
    buf := SerializeRow(schema, row);
    buf := buf[..|buf| % TWO_16];
  }

  method AppendField(done: seq<byte>, ty: ColType, v: Value) returns (buf: seq<byte>)
    ensures buf == done + EncodeField(ty, v)
  {
    if ty == INT {
      buf := done + Le32(ToUnsigned(v.intVal));
    } else {
      buf := done + Le16(|v.strVal|) + v.strVal;
    }
  }

  ghost function Prepend(row: Row, r: Option<Row>): Option<Row> {
    match r
    case None => None
    case Some(rest) => Some(row + rest)
  }

  lemma DecodeStep(cols: seq<Column>, b: seq<byte>, i: nat, pos: nat, done: Row)
    requires i < |cols| && pos < |b| && DecodeRow(cols[i..], b[pos..]).Some?
    ensures DecodeField(cols[i].ty, b[pos..]).Some?
    ensures var (v, n) := DecodeField(cols[i].ty, b[pos..]).value;
            && pos + n <= |b|
            && Prepend(done, DecodeRow(cols[i..], b[pos..])) == Prepend(done + [v], DecodeRow(cols[i + 1..], b[pos + n..]))
  {
    assert cols[i..][1..] == cols[i + 1..];
    var (v, n) := DecodeField(cols[i].ty, b[pos..]).value;
    assert b[pos..][n..] == b[pos + n..];
    var rest := DecodeRow(cols[i + 1..], b[pos + n..]).value;
    assert done + ([v] + rest) == (done + [v]) + rest;
  }

  method DeserializeRow(schema: Schema, buf: seq<byte>) returns (row: Row)
    requires DecodeRow(schema.cols, buf).Some?
    ensures Some(row) == DecodeRow(schema.cols, buf)
  {
    hide DecodeField;
    row := [];
    var pos := 0;
    var i := 0;
    assert schema.cols[0..] == schema.cols && buf[0..] == buf;
    assert [] + DecodeRow(schema.cols, buf).value == DecodeRow(schema.cols, buf).value;
    while i < |schema.cols| && pos < |buf|
      invariant i <= |schema.cols| && 0 <= pos <= |buf|
      invariant DecodeRow(schema.cols, buf) == Prepend(row, DecodeRow(schema.cols[i..], buf[pos..]))
    {
      DecodeStep(schema.cols, buf, i, pos, row);
      var v, n := ReadField(schema.cols[i].ty, buf, pos);
      row := row + [v];
      pos := pos + n;
      i := i + 1;
    }
    assert row + [] == row;
  }

  method ReadField(ty: ColType, buf: seq<byte>, pos: nat) returns (v: Value, n: nat)
    requires pos < |buf| && DecodeField(ty, buf[pos..]).Some?
    ensures DecodeField(ty, buf[pos..]) == Some((v, n))
  {
    if ty == INT {
      v, n := Value(INT, ToSigned(U32At(buf, pos)), []), 4;
    } else {
      n := U16At(buf, pos);
      assert buf[pos..][2..2 + n] == buf[pos + 2..pos + 2 + n];
      v, n := Value(TEXT, 0, buf[pos + 2..pos + 2 + n]), 2 + n;
    }
  }

  // ---------------------------------------------------------------- schemas

  /** The first column of that name, or -1. */
  method FindCol(schema: Schema, name: Str) returns (i: int)
    ensures i == ColIndex(schema.cols, name)
  {
    var j := 0;
    while j < |schema.cols|
      invariant j <= |schema.cols| && forall k | 0 <= k < j :: schema.cols[k].name != name
    {
      if schema.cols[j].name == name {
        ColIndexIs(schema.cols, name, j);
        return j;
      }
      j := j + 1;
    }
    ColIndexIs(schema.cols, name, -1);
    return -1;
  }

  function ColIndex(cols: seq<Column>, name: Str): (i: int)
    ensures -1 <= i < |cols|
    ensures i >= 0 ==> cols[i].name == name && forall k | 0 <= k < i :: cols[k].name != name
    ensures i == -1 ==> forall k | 0 <= k < |cols| :: cols[k].name != name
  {
    if cols == [] then -1
    else if cols[0].name == name then 0
    else var i := ColIndex(cols[1..], name); if i < 0 then -1 else i + 1
  }

  lemma ColIndexIs(cols: seq<Column>, name: Str, i: int)
    requires -1 <= i < |cols|
    requires i >= 0 ==> cols[i].name == name && forall k | 0 <= k < i :: cols[k].name != name
    requires i == -1 ==> forall k | 0 <= k < |cols| :: cols[k].name != name
    ensures ColIndex(cols, name) == i
  {
  }

  function TypeCode(ty: ColType): byte { if ty == INT then 0 else 1 }

  function EncodeColumn(c: Column): (b: seq<byte>) {
    [TypeCode(c.ty), c.maxLen % 0x100, c.maxLen / 0x100, |c.name| % 0x100] + c.name
  }

  function EncodeColumns(cols: seq<Column>): seq<byte> {
    if cols == [] then [] else EncodeColumn(cols[0]) + EncodeColumns(cols[1..])
  }

  /** The number of columns and the length of each name take one byte. */
  function EncodeSchema(cols: seq<Column>): (b: seq<byte>)
    ensures |b| >= 1
  {
    [|cols| % 0x100] + EncodeColumns(cols)
  }

  function DecodeColumn(b: seq<byte>): (r: Option<(Column, nat)>)
    ensures r.Some? ==> 4 <= r.value.1 <= |b|
  {
    if |b| < 4 || |b| < 4 + b[3] as int then None
    else Some((Column(b[4..4 + b[3] as int], if b[0] == 0 then INT else TEXT, U16At(b, 1)), 4 + b[3] as int))
  }

  function DecodeColumns(n: nat, b: seq<byte>): (r: Option<seq<Column>>)
    ensures r.Some? ==> |r.value| <= n
  {
    if n == 0 || b == [] then Some([])
    else
      match DecodeColumn(b)
      case None => None
      case Some((c, k)) =>
        match DecodeColumns(n - 1, b[k..])
        case None => None
        case Some(rest) => Some([c] + rest)
  }

  /** The columns found in `b`; none if it ends in the middle of one. */
  function DecodeSchema(b: seq<byte>): Option<seq<Column>> {
    if b == [] then Some([]) else DecodeColumns(b[0], b[1..])
  }

  /** The limits of the one-byte counts. */
  predicate Encodable(cols: seq<Column>) {
    |cols| <= 0xFF && forall i | 0 <= i < |cols| :: |cols[i].name| <= 0xFF
  }

  lemma ColumnRoundTrip(c: Column, rest: seq<byte>)
    ensures |c.name| <= 0xFF ==> DecodeColumn(EncodeColumn(c) + rest) == Some((c, |EncodeColumn(c)|))
    ensures |c.name| > 0xFF ==>
              var r := DecodeColumn(EncodeColumn(c) + rest);
              r.Some? && |r.value.0.name| < |c.name|
  {
    var b := EncodeColumn(c) + rest;
    assert b[3] == |c.name| % 0x100;
    if |c.name| <= 0xFF {
      assert b[4..4 + |c.name|] == c.name;
      assert U16At(b, 1) == c.maxLen;
    }
  }

  lemma {:induction false} ColumnsRoundTrip(cols: seq<Column>)
    ensures DecodeColumns(|cols|, EncodeColumns(cols)) == Some(cols)
       <==> forall i | 0 <= i < |cols| :: |cols[i].name| <= 0xFF
  {
    if cols == [] {
    } else {
      var c, rest := cols[0], EncodeColumns(cols[1..]);
      ColumnRoundTrip(c, rest);
      if |c.name| <= 0xFF {
        assert (EncodeColumn(c) + rest)[|EncodeColumn(c)|..] == rest;
        ColumnsRoundTrip(cols[1..]);
        assert cols == [c] + cols[1..];
      }
    }
  }

  /** Any type byte but 0 is read as TEXT. */
  lemma TypeByte(b: seq<byte>)
    requires DecodeColumn(b).Some?
    ensures DecodeColumn(b).value.0.ty == INT <==> b[0] == 0
  {
  }

  /** A count beyond the columns there are does no harm. */
  lemma {:induction false} FewerColumns(n: nat, cols: seq<Column>)
    requires |cols| <= n && forall i | 0 <= i < |cols| :: |cols[i].name| <= 0xFF
    ensures DecodeColumns(n, EncodeColumns(cols)) == Some(cols)
  {
    if cols == [] {
    } else {
      var c, rest := cols[0], EncodeColumns(cols[1..]);
      ColumnRoundTrip(c, rest);
      assert (EncodeColumn(c) + rest)[|EncodeColumn(c)|..] == rest;
      FewerColumns(n - 1, cols[1..]);
      assert cols == [c] + cols[1..];
    }
  }

  /** Decoding gives the columns back exactly when the counts fit their bytes. */
  lemma SchemaRoundTrip(cols: seq<Column>)
    ensures DecodeSchema(EncodeSchema(cols)) == Some(cols) <==> Encodable(cols)
  {
    hide EncodeColumn, DecodeColumn;
    var b := EncodeSchema(cols);
    assert b[1..] == EncodeColumns(cols);
    if |cols| <= 0xFF {
      ColumnsRoundTrip(cols);
    }
  }

  method SerializeSchema(schema: Schema) returns (out: seq<byte>)
    ensures out == EncodeSchema(schema.cols)
  {
    out := [|schema.cols| % 0x100];
    assert schema.cols[0..] == schema.cols;
    for i := 0 to |schema.cols|
      invariant EncodeSchema(schema.cols) == out + EncodeColumns(schema.cols[i..])
    {
      var c := schema.cols[i];
      assert schema.cols[i..][1..] == schema.cols[i + 1..];
      ghost var done, rest := out, EncodeColumns(schema.cols[i + 1..]);
      out := out + [TypeCode(c.ty), c.maxLen % 0x100, c.maxLen / 0x100, |c.name| % 0x100] + c.name;
      assert out == done + EncodeColumn(c);
      assert done + (EncodeColumn(c) + rest) == out + rest;
    }
  }

  ghost function PrependColumns(done: seq<Column>, r: Option<seq<Column>>): Option<seq<Column>> {
    match r
    case None => None
    case Some(rest) => Some(done + rest)
  }

  lemma DecodeColumnStep(n: nat, b: seq<byte>, pos: nat, done: seq<Column>)
    requires 0 < n && pos < |b| && DecodeColumns(n, b[pos..]).Some?
    ensures DecodeColumn(b[pos..]).Some?
    ensures var (c, k) := DecodeColumn(b[pos..]).value;
            && pos + k <= |b| && pos + 4 <= |b| && k == 4 + b[pos + 3] as int
            && PrependColumns(done, DecodeColumns(n, b[pos..]))
               == PrependColumns(done + [c], DecodeColumns(n - 1, b[pos + k..]))
  {
    var (c, k) := DecodeColumn(b[pos..]).value;
    assert b[pos..][k..] == b[pos + k..];
    var rest := DecodeColumns(n - 1, b[pos + k..]).value;
    assert done + ([c] + rest) == (done + [c]) + rest;
  }

  method DeserializeSchema(buf: seq<byte>) returns (cols: seq<Column>)
    requires DecodeSchema(buf).Some?
    ensures Some(cols) == DecodeSchema(buf)
  {
    hide DecodeColumn;
    cols := [];
    if |buf| == 0 {
      return;
    }
    var nc := buf[0] as int;
    var pos, i := 1, 0;
    assert [] + DecodeColumns(nc, buf[1..]).value == DecodeColumns(nc, buf[1..]).value;
    while i < nc && pos < |buf|
      invariant i <= nc && 1 <= pos <= |buf|
      invariant DecodeColumns(nc, buf[1..]) == PrependColumns(cols, DecodeColumns(nc - i, buf[pos..]))
    {
      DecodeColumnStep(nc - i, buf, pos, cols);
      var nl := buf[pos + 3] as int;
      cols := cols + [ReadColumn(buf, pos)];
      pos := pos + 4 + nl;
      i := i + 1;
    }
    assert cols + [] == cols;
  }

  function ReadColumn(buf: seq<byte>, pos: nat): (c: Column)
    requires pos < |buf| && DecodeColumn(buf[pos..]).Some?
    ensures c == DecodeColumn(buf[pos..]).value.0
  {
    var nl := buf[pos + 3] as int;
    assert buf[pos..][4..4 + nl] == buf[pos + 4..pos + 4 + nl];
    Column(buf[pos + 4..pos + 4 + nl], if buf[pos] == 0 then INT else TEXT, U16At(buf, pos + 1))
  }
}
