/** Bytes, little-endian integers, and the fixed-size page every other layer reads and writes. */
module Bytes {

  type byte = x: int | 0 <= x < 0x100

  const PAGE_SIZE: int := 4096
  const TWO_16: int := 0x1_0000
  const TWO_31: int := 0x8000_0000
  const TWO_32: int := 0x1_0000_0000

  /** What the pager hands out for a page that was never written. */
  ghost const ZERO_PAGE: seq<byte> := seq(PAGE_SIZE, _ => 0)

  function U16At(p: seq<byte>, o: nat): (v: nat)
    requires o + 2 <= |p|
    ensures v < TWO_16
  {
    p[o] as int + 0x100 * p[o + 1] as int
  }

  function U32At(p: seq<byte>, o: nat): (v: nat)
    requires o + 4 <= |p|
    ensures v < TWO_32
  {
    p[o] as int + 0x100 * p[o + 1] as int + 0x1_0000 * p[o + 2] as int + 0x100_0000 * p[o + 3] as int
  }

  function Put16(p: seq<byte>, o: nat, v: nat): (q: seq<byte>)
    requires o + 2 <= |p| && v < TWO_16
    ensures |q| == |p|
  {
    p[o := v % 0x100][o + 1 := v / 0x100]
  }

  function Put32(p: seq<byte>, o: nat, v: nat): (q: seq<byte>)
    requires o + 4 <= |p| && v < TWO_32
    ensures |q| == |p|
  {
    p[o := v % 0x100][o + 1 := v / 0x100 % 0x100][o + 2 := v / 0x1_0000 % 0x100][o + 3 := v / 0x100_0000]
  }

  /** Reading back a stored integer gives it, and a store touches only its own bytes. */
  lemma StoredU16(p: seq<byte>, o: nat, v: nat)
    requires o + 2 <= |p| && v < TWO_16
    ensures U16At(Put16(p, o, v), o) == v
    ensures forall i | 0 <= i < |p| && !(o <= i < o + 2) :: Put16(p, o, v)[i] == p[i]
  {
  }

  lemma StoredU32(p: seq<byte>, o: nat, v: nat)
    requires o + 4 <= |p| && v < TWO_32
    ensures U32At(Put32(p, o, v), o) == v
    ensures forall i | 0 <= i < |p| && !(o <= i < o + 4) :: Put32(p, o, v)[i] == p[i]
  {
    var a, b := v / 0x100, v / 0x1_0000;
    assert b == a / 0x100 && v / 0x100_0000 == b / 0x100;
    assert v == v % 0x100 + 0x100 * a;
    assert a == a % 0x100 + 0x100 * b;
    assert b == b % 0x100 + 0x100 * (b / 0x100);
  }

  /** The low byte comes first. */
  lemma LowByteFirst(p: seq<byte>, o: nat)
    requires o + 4 <= |p|
    ensures U16At(p, o) % 0x100 == p[o] && U32At(p, o) % 0x100 == p[o]
    ensures U32At(p, o) == U16At(p, o) + TWO_16 * U16At(p, o + 2)
  {
    assert U16At(p, o) == p[o] as int + 0x100 * p[o + 1] as int;
  }

  /** `memcpy` of an integer into a page buffer. */
  method StoreU16(buf: array<byte>, o: nat, v: nat)
    requires o + 2 <= buf.Length && v < TWO_16
    modifies buf
    ensures buf[..] == Put16(old(buf[..]), o, v)
  {
    buf[o] := v % 0x100;
    buf[o + 1] := v / 0x100;
  }

  method StoreU32(buf: array<byte>, o: nat, v: nat)
    requires o + 4 <= buf.Length && v < TWO_32
    modifies buf
    ensures buf[..] == Put32(old(buf[..]), o, v)
  {
    buf[o] := v % 0x100;
    buf[o + 1] := v / 0x100 % 0x100;
    buf[o + 2] := v / 0x1_0000 % 0x100;
    buf[o + 3] := v / 0x100_0000;
  }

  function LoadU16(buf: array<byte>, o: nat): (v: nat)
    requires o + 2 <= buf.Length
    reads buf
    ensures v == U16At(buf[..], o)
  {
    buf[o] as int + 0x100 * buf[o + 1] as int
  }

  function LoadU32(buf: array<byte>, o: nat): (v: nat)
    requires o + 4 <= buf.Length
    reads buf
    ensures v == U32At(buf[..], o)
  {
    buf[o] as int + 0x100 * buf[o + 1] as int + 0x1_0000 * buf[o + 2] as int + 0x100_0000 * buf[o + 3] as int
  }

  /** Two's complement reinterpretation between `int32_t` and `uint32_t`. */
  predicate IsInt32(n: int) { -TWO_31 <= n < TWO_31 }

  function ToUnsigned(n: int): (v: nat)
    requires IsInt32(n)
    ensures v < TWO_32
  {
    if n < 0 then n + TWO_32 else n
  }

  function ToSigned(v: nat): (n: int)
    requires v < TWO_32
    ensures IsInt32(n)
    ensures ToUnsigned(n) == v
  {
    if v < TWO_31 then v else v - TWO_32
  }
}
