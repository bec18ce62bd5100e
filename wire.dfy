/**
 * The integer wire types a masked record field can have, their byte widths
 * (the `type_lengths` table) and the fixed-width read and write accessors of
 * the endian-aware buffer, modelled over byte sequences.
 */
module Wire {

  newtype byte = x: int | 0 <= x < 256

  /** The types `type_lengths` has an entry for. */
  datatype WireType = UInt8 | UInt16 | UInt32 | Int8 | Int16 | Int32

  /** Byte order of the buffer accessors. */
  datatype Endian = Little | Big

  /** `type_lengths`: every registered type is 1, 2 or 4 bytes wide. */
  function Width(t: WireType): (w: nat)
    ensures w == 1 || w == 2 || w == 4
  {
    match t
    case UInt8 | Int8 => 1
    case UInt16 | Int16 => 2
    case UInt32 | Int32 => 4
  }

  predicate Signed(t: WireType) {
    t.Int8? || t.Int16? || t.Int32?
  }

  function Pow256(k: nat): (p: nat)
    ensures p > 0
  {
    if k == 0 then 1 else 256 * Pow256(k - 1)
  }

  /** Number of distinct values a field of type `t` can hold. */
  function Span(t: WireType): (n: nat)
    ensures n == Pow256(Width(t))
  {
    assert Pow256(2) == 256 * Pow256(1);
    assert Pow256(4) == 256 * (256 * Pow256(2));
    match t
    case UInt8 | Int8 => 0x100
    case UInt16 | Int16 => 0x1_0000
    case UInt32 | Int32 => 0x1_0000_0000
  }

  function Half(t: WireType): (h: nat)
    ensures 2 * h == Span(t)
  {
    match t
    case UInt8 | Int8 => 0x80
    case UInt16 | Int16 => 0x8000
    case UInt32 | Int32 => 0x8000_0000
  }

  /** The values a field of type `t` can hold without truncation. */
  predicate Fits(t: WireType, v: int) {
    if Signed(t) then -(Half(t) as int) <= v < Half(t) else 0 <= v < Span(t)
  }

  /** The `k` bytes of `n`, least significant byte first. */
  function LeBytes(n: nat, k: nat): (s: seq<byte>)
    ensures |s| == k
  {
    if k == 0 then [] else [(n % 256) as byte] + LeBytes(n / 256, k - 1)
  }

  /** The `k` bytes of `n`, most significant byte first. */
  function BeBytes(n: nat, k: nat): (s: seq<byte>)
    ensures |s| == k
  {
    if k == 0 then [] else BeBytes(n / 256, k - 1) + [(n % 256) as byte]
  }

  /** The number stored least significant byte first in `buf[off..off + k]`. */
  function LeValue(buf: seq<byte>, off: nat, k: nat): (v: nat)
    requires off + k <= |buf|
    decreases k
  {
    if k == 0 then 0 else buf[off] as nat + 256 * LeValue(buf, off + 1, k - 1)
  }

  /** The number stored most significant byte first in `buf[off..off + k]`. */
  function BeValue(buf: seq<byte>, off: nat, k: nat): (v: nat)
    requires off + k <= |buf|
  {
    if k == 0 then 0 else 256 * BeValue(buf, off, k - 1) + buf[off + k - 1] as nat
  }

  function Bytes(e: Endian, n: nat, k: nat): (s: seq<byte>)
    ensures |s| == k
  {
    if e.Little? then LeBytes(n, k) else BeBytes(n, k)
  }

  function Value(e: Endian, buf: seq<byte>, off: nat, k: nat): (v: nat)
    requires off + k <= |buf|
  {
    if e.Little? then LeValue(buf, off, k) else BeValue(buf, off, k)
  }

  /** The unsigned bit pattern of `v` (two's complement for negative values). */
  function Unsigned(t: WireType, v: int): (u: nat)
    requires Fits(t, v)
    ensures u < Span(t)
  {
    if v < 0 then v + Span(t) else v
  }

  /** The value a bit pattern stands for in type `t`. */
  function Interpret(t: WireType, u: nat): (v: int)
    requires u < Span(t)
    ensures Fits(t, v)
  {
    if Signed(t) && u >= Half(t) then u - Span(t) else u
  }

  /** `write<Type>(v, offset)`: the bytes stored for `v`. */
  function Write(t: WireType, e: Endian, v: int): (s: seq<byte>)
    requires Fits(t, v)
    ensures |s| == Width(t)
  {
    Bytes(e, Unsigned(t, v), Width(t))
  }

  /** `read<Type>(offset)`: the value stored in the `Width(t)` bytes at `off`. */
  function Read(t: WireType, e: Endian, buf: seq<byte>, off: nat): (v: int)
    requires off + Width(t) <= |buf|
    ensures Fits(t, v)
  {
    ValueBound(e, buf, off, Width(t));
    Interpret(t, Value(e, buf, off, Width(t)))
  }

  lemma {:induction false} LeValueBound(buf: seq<byte>, off: nat, k: nat)
    requires off + k <= |buf|
    ensures LeValue(buf, off, k) < Pow256(k)
    decreases k
  {
    if k > 0 {
      LeValueBound(buf, off + 1, k - 1);
    }
  }

  lemma {:induction false} BeValueBound(buf: seq<byte>, off: nat, k: nat)
    requires off + k <= |buf|
    ensures BeValue(buf, off, k) < Pow256(k)
  {
    if k > 0 {
      BeValueBound(buf, off, k - 1);
    }
  }

  lemma ValueBound(e: Endian, buf: seq<byte>, off: nat, k: nat)
    requires off + k <= |buf|
    ensures Value(e, buf, off, k) < Pow256(k)
  {
    if e.Little? {
      LeValueBound(buf, off, k);
    } else {
      BeValueBound(buf, off, k);
    }
  }

  lemma {:induction false} LeBytesValue(n: nat, k: nat, buf: seq<byte>, off: nat)
    requires n < Pow256(k) && off + k <= |buf|
    requires buf[off..off + k] == LeBytes(n, k)
    ensures LeValue(buf, off, k) == n
    decreases k
  {
    if k > 0 {
      assert n / 256 < Pow256(k - 1);
      assert buf[off] == buf[off..off + k][0];
      assert buf[off + 1..off + k] == buf[off..off + k][1..];
      LeBytesValue(n / 256, k - 1, buf, off + 1);
    }
  }

  lemma {:induction false} BeBytesValue(n: nat, k: nat, buf: seq<byte>, off: nat)
    requires n < Pow256(k) && off + k <= |buf|
    requires buf[off..off + k] == BeBytes(n, k)
    ensures BeValue(buf, off, k) == n
  {
    if k > 0 {
      assert n / 256 < Pow256(k - 1);
      assert buf[off + k - 1] == buf[off..off + k][k - 1];
      assert buf[off..off + k - 1] == buf[off..off + k][..k - 1];
      BeBytesValue(n / 256, k - 1, buf, off);
    }
  }

  lemma {:induction false} LeValueBytes(buf: seq<byte>, off: nat, k: nat)
    requires off + k <= |buf|
    ensures LeBytes(LeValue(buf, off, k), k) == buf[off..off + k]
    decreases k
  {
    if k > 0 {
      LeValueBytes(buf, off + 1, k - 1);
      var n := LeValue(buf, off, k);
      assert n % 256 == buf[off] as nat;
      assert n / 256 == LeValue(buf, off + 1, k - 1);
      assert buf[off..off + k] == [buf[off]] + buf[off + 1..off + k];
    }
  }

  lemma {:induction false} BeValueBytes(buf: seq<byte>, off: nat, k: nat)
    requires off + k <= |buf|
    ensures BeBytes(BeValue(buf, off, k), k) == buf[off..off + k]
  {
    if k > 0 {
      BeValueBytes(buf, off, k - 1);
      var n := BeValue(buf, off, k);
      assert n % 256 == buf[off + k - 1] as nat;
      assert n / 256 == BeValue(buf, off, k - 1);
      assert buf[off..off + k] == buf[off..off + k - 1] + [buf[off + k - 1]];
    }
  }

  /**
   * Reading the bytes written for `v`, wherever they sit in the buffer,
   * yields `v`.
   */
  lemma ReadWrite(t: WireType, e: Endian, v: int, buf: seq<byte>, off: nat)
    requires Fits(t, v) && off + Width(t) <= |buf|
    requires buf[off..off + Width(t)] == Write(t, e, v)
    ensures Read(t, e, buf, off) == v
  {
    var u := Unsigned(t, v);
    if e.Little? {
      LeBytesValue(u, Width(t), buf, off);
    } else {
      BeBytesValue(u, Width(t), buf, off);
    }
  }

  /** Writing what was read at `off` reproduces the bytes there. */
  lemma WriteRead(t: WireType, e: Endian, buf: seq<byte>, off: nat)
    requires off + Width(t) <= |buf|
    ensures Write(t, e, Read(t, e, buf, off)) == buf[off..off + Width(t)]
  {
    var u := Value(e, buf, off, Width(t));
    ValueBound(e, buf, off, Width(t));
    assert Unsigned(t, Interpret(t, u)) == u;
    if e.Little? {
      LeValueBytes(buf, off, Width(t));
    } else {
      BeValueBytes(buf, off, Width(t));
    }
  }

  lemma {:induction false} LeValueShift(buf: seq<byte>, start: nat, off: nat, k: nat)
    requires start + off + k <= |buf|
    ensures LeValue(buf, start + off, k) == LeValue(buf[start..], off, k)
    decreases k
  {
    if k > 0 {
      assert buf[start + off] == buf[start..][off];
      LeValueShift(buf, start, off + 1, k - 1);
    }
  }

  lemma {:induction false} BeValueShift(buf: seq<byte>, start: nat, off: nat, k: nat)
    requires start + off + k <= |buf|
    ensures BeValue(buf, start + off, k) == BeValue(buf[start..], off, k)
  {
    if k > 0 {
      assert buf[start + off + k - 1] == buf[start..][off + k - 1];
      BeValueShift(buf, start, off, k - 1);
    }
  }

  /** A read depends only on the bytes it covers, wherever the buffer starts. */
  lemma ReadShift(t: WireType, e: Endian, buf: seq<byte>, start: nat, off: nat)
    requires start + off + Width(t) <= |buf|
    ensures Read(t, e, buf, start + off) == Read(t, e, buf[start..], off)
  {
    if e.Little? {
      LeValueShift(buf, start, off, Width(t));
    } else {
      BeValueShift(buf, start, off, Width(t));
    }
  }
}
