/**
 * The byte layout of a B-tree page: a 16-byte header (node type, root flag, cell count, link)
 * followed by 8-byte cells holding a key and a value or child id.
 * `FieldsOf` is the record a page stands for; every accessor below is specified by it.
 */
module NodePage {
  import opened Bytes

  const NODE_HEADER_SIZE: int := 16
  const CELL_SIZE: int := 8
  const NODE_MAX_CELLS: int := (PAGE_SIZE - NODE_HEADER_SIZE) / CELL_SIZE
  const INVALID_PAGE_ID: int := 0xFFFF_FFFF
  const INTERNAL: byte := 0
  const LEAF: byte := 1

  /** `link` is the rightmost child of an internal node and the next leaf of a leaf: one shared field. */
  datatype Fields = Fields(kind: byte, isRoot: bool, num: nat, link: nat, keys: seq<nat>, vals: seq<nat>)

  function CellOffset(i: nat): nat { NODE_HEADER_SIZE + i * CELL_SIZE }

  function FieldsOf(p: seq<byte>): (f: Fields)
    requires |p| == PAGE_SIZE
    ensures |f.keys| == |f.vals| == NODE_MAX_CELLS
  {
    Fields(p[0], p[1] != 0, U32At(p, 4), U32At(p, 8),
           seq(NODE_MAX_CELLS, i requires 0 <= i < NODE_MAX_CELLS => U32At(p, CellOffset(i))),
           seq(NODE_MAX_CELLS, i requires 0 <= i < NODE_MAX_CELLS => U32At(p, CellOffset(i) + 4)))
  }

  /** A store through one accessor changes exactly that field of the record. */
  lemma KeyStored(p: seq<byte>, i: nat, k: nat)
    requires |p| == PAGE_SIZE && i < NODE_MAX_CELLS && k < TWO_32
    ensures var f := FieldsOf(p);
            FieldsOf(Put32(p, CellOffset(i), k)) == f.(keys := f.keys[i := k])
  {
    StoredU32(p, CellOffset(i), k);
  }

  lemma ValueStored(p: seq<byte>, i: nat, v: nat)
    requires |p| == PAGE_SIZE && i < NODE_MAX_CELLS && v < TWO_32
    ensures var f := FieldsOf(p);
            FieldsOf(Put32(p, CellOffset(i) + 4, v)) == f.(vals := f.vals[i := v])
  {
    StoredU32(p, CellOffset(i) + 4, v);
  }

  lemma HeaderStored(p: seq<byte>, v: nat)
    requires |p| == PAGE_SIZE && v < TWO_32
    ensures FieldsOf(Put32(p, 4, v)) == FieldsOf(p).(num := v)
    ensures FieldsOf(Put32(p, 8, v)) == FieldsOf(p).(link := v)
  {
    StoredU32(p, 4, v);
    StoredU32(p, 8, v);
  }

  lemma FlagsStored(p: seq<byte>, b: byte)
    requires |p| == PAGE_SIZE
    ensures FieldsOf(p[0 := b]) == FieldsOf(p).(kind := b)
    ensures FieldsOf(p[1 := b]) == FieldsOf(p).(isRoot := b != 0)
  {
  }

  function GetNodeType(buf: array<byte>): (t: byte)
    requires buf.Length == PAGE_SIZE
    reads buf
    ensures t == FieldsOf(buf[..]).kind
  {
    buf[0]
  }

  function IsRoot(buf: array<byte>): (r: bool)
    requires buf.Length == PAGE_SIZE
    reads buf
    ensures r == FieldsOf(buf[..]).isRoot
  {
    buf[1] != 0
  }

  function GetNumCells(buf: array<byte>): (n: nat)
    requires buf.Length == PAGE_SIZE
    reads buf
    ensures n == FieldsOf(buf[..]).num < TWO_32
  {
    LoadU32(buf, 4)
  }

  /** Both `get_rightmost_child_id` and `get_next_leaf_id`. */
  function GetLink(buf: array<byte>): (n: nat)
    requires buf.Length == PAGE_SIZE
    reads buf
    ensures n == FieldsOf(buf[..]).link < TWO_32
  {
    LoadU32(buf, 8)
  }

  function GetKey(buf: array<byte>, i: nat): (k: nat)
    requires buf.Length == PAGE_SIZE && i < NODE_MAX_CELLS
    reads buf
    ensures k == FieldsOf(buf[..]).keys[i] < TWO_32
  {
    LoadU32(buf, CellOffset(i))
  }

  /** Both `get_value` and `get_left_child_id`. */
  function GetValue(buf: array<byte>, i: nat): (v: nat)
    requires buf.Length == PAGE_SIZE && i < NODE_MAX_CELLS
    reads buf
    ensures v == FieldsOf(buf[..]).vals[i] < TWO_32
  {
    LoadU32(buf, CellOffset(i) + 4)
  }

  method SetNodeType(buf: array<byte>, t: byte)
    requires buf.Length == PAGE_SIZE
    modifies buf
    ensures FieldsOf(buf[..]) == old(FieldsOf(buf[..])).(kind := t)
  {
    FlagsStored(buf[..], t);
    buf[0] := t;
    assert buf[..] == old(buf[..])[0 := t];
  }

  method SetIsRoot(buf: array<byte>, r: bool)
    requires buf.Length == PAGE_SIZE
    modifies buf
    ensures FieldsOf(buf[..]) == old(FieldsOf(buf[..])).(isRoot := r)
  {
    FlagsStored(buf[..], if r then 1 else 0);
    buf[1] := if r then 1 else 0;
    assert buf[..] == old(buf[..])[1 := buf[1]];
  }

  method SetNumCells(buf: array<byte>, n: nat)
    requires buf.Length == PAGE_SIZE && n < TWO_32
    modifies buf
    ensures FieldsOf(buf[..]) == old(FieldsOf(buf[..])).(num := n)
  {
    HeaderStored(buf[..], n);
    StoreU32(buf, 4, n);
  }

  /** Both `set_rightmost_child_id` and `set_next_leaf_id`. */
  method SetLink(buf: array<byte>, id: nat)
    requires buf.Length == PAGE_SIZE && id < TWO_32
    modifies buf
    ensures FieldsOf(buf[..]) == old(FieldsOf(buf[..])).(link := id)
  {
    HeaderStored(buf[..], id);
    StoreU32(buf, 8, id);
  }

  method SetKey(buf: array<byte>, i: nat, k: nat)
    requires buf.Length == PAGE_SIZE && i < NODE_MAX_CELLS && k < TWO_32
    modifies buf
    ensures var f := old(FieldsOf(buf[..])); FieldsOf(buf[..]) == f.(keys := f.keys[i := k])
  {
    KeyStored(buf[..], i, k);
    StoreU32(buf, CellOffset(i), k);
  }

  /** Both `set_value` and `set_left_child_id`. */
  method SetValue(buf: array<byte>, i: nat, v: nat)
    requires buf.Length == PAGE_SIZE && i < NODE_MAX_CELLS && v < TWO_32
    modifies buf
    ensures var f := old(FieldsOf(buf[..])); FieldsOf(buf[..]) == f.(vals := f.vals[i := v])
  {
    ValueStored(buf[..], i, v);
    StoreU32(buf, CellOffset(i) + 4, v);
  }

  method InitializeAsLeaf(buf: array<byte>, r: bool)
    requires buf.Length == PAGE_SIZE
    modifies buf
    ensures FieldsOf(buf[..]) ==
            old(FieldsOf(buf[..])).(kind := LEAF, isRoot := r, num := 0, link := INVALID_PAGE_ID)
  {
    SetNodeType(buf, LEAF);
    SetIsRoot(buf, r);
    SetNumCells(buf, 0);
    SetLink(buf, INVALID_PAGE_ID);
  }

  /** Leaves the link field alone: the caller sets the rightmost child afterwards. */
  method InitializeAsInternal(buf: array<byte>, r: bool)
    requires buf.Length == PAGE_SIZE
    modifies buf
    ensures FieldsOf(buf[..]) == old(FieldsOf(buf[..])).(kind := INTERNAL, isRoot := r, num := 0)
  {
    SetNodeType(buf, INTERNAL);
    SetIsRoot(buf, r);
    SetNumCells(buf, 0);
  }
}
