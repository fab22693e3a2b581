/**
 Byte swaps and the conversions built on them (byteorder.h).

 A host is characterised only by how it reads a multi-byte integer from
 consecutive bytes.  The header under study is little-endian on the wire, so
 every read goes through a native load followed by a `le*_to_cpu`.
 */
module ByteOrder {

  type byte = bv8

  datatype Endian = Little | Big

  function Swab16(x: bv16): bv16 {
    ((x & 0x00ff) << 8) | ((x & 0xff00) >> 8)
  }

  function Swab32(x: bv32): bv32 {
    ((x & 0x0000_00ff) << 24) | ((x & 0x0000_ff00) << 8)
    | ((x & 0x00ff_0000) >> 8) | ((x & 0xff00_0000) >> 24)
  }

  function Swab64(x: bv64): bv64 {
    ((x & 0x0000_0000_0000_00ff) << 56) | ((x & 0x0000_0000_0000_ff00) << 40)
    | ((x & 0x0000_0000_00ff_0000) << 24) | ((x & 0x0000_0000_ff00_0000) << 8)
    | ((x & 0x0000_00ff_0000_0000) >> 8) | ((x & 0x0000_ff00_0000_0000) >> 24)
    | ((x & 0x00ff_0000_0000_0000) >> 40) | ((x & 0xff00_0000_0000_0000) >> 56)
  }

  function Le16ToCpu(host: Endian, x: bv16): bv16 {
    if host.Little? then x else Swab16(x)
  }

  function Le32ToCpu(host: Endian, x: bv32): bv32 {
    if host.Little? then x else Swab32(x)
  }

  function Le64ToCpu(host: Endian, x: bv64): bv64 {
    if host.Little? then x else Swab64(x)
  }

  function Be16ToCpu(host: Endian, x: bv16): bv16 {
    if host.Little? then Swab16(x) else x
  }

  // Integers assembled from bytes, least significant byte first.
  function Join16(a: byte, b: byte): bv16 {
    (a as bv16) | (b as bv16 << 8)
  }

  function Join32(a: byte, b: byte, c: byte, d: byte): bv32 {
    (a as bv32) | (b as bv32 << 8) | (c as bv32 << 16) | (d as bv32 << 24)
  }

  function Join64(a: byte, b: byte, c: byte, d: byte, e: byte, f: byte, g: byte, h: byte): bv64 {
    (a as bv64) | (b as bv64 << 8) | (c as bv64 << 16) | (d as bv64 << 24)
    | (e as bv64 << 32) | (f as bv64 << 40) | (g as bv64 << 48) | (h as bv64 << 56)
  }

  /** What a host sees when it loads consecutive bytes as one integer. */
  function Native16(host: Endian, b: seq<byte>): bv16
    requires |b| == 2
  {
    if host.Little? then Join16(b[0], b[1]) else Join16(b[1], b[0])
  }

  function Native32(host: Endian, b: seq<byte>): bv32
    requires |b| == 4
  {
    if host.Little? then Join32(b[0], b[1], b[2], b[3]) else Join32(b[3], b[2], b[1], b[0])
  }

  function Native64(host: Endian, b: seq<byte>): bv64
    requires |b| == 8
  {
    if host.Little? then Join64(b[0], b[1], b[2], b[3], b[4], b[5], b[6], b[7])
    else Join64(b[7], b[6], b[5], b[4], b[3], b[2], b[1], b[0])
  }

  function Reverse<T>(s: seq<T>): (r: seq<T>)
    ensures |r| == |s|
    ensures forall k :: 0 <= k < |s| ==> r[k] == s[|s| - 1 - k]
  {
    seq(|s|, k requires 0 <= k < |s| => s[|s| - 1 - k])
  }

  // The swaps on assembled integers, one width at a time.
  lemma {:induction false} Swab16OfJoin(a: byte, b: byte)
    ensures Swab16(Join16(a, b)) == Join16(b, a)
  {
  }

  lemma {:induction false} Swab32OfJoin(a: byte, b: byte, c: byte, d: byte)
    ensures Swab32(Join32(a, b, c, d)) == Join32(d, c, b, a)
  {
  }

  lemma {:induction false} Swab64OfJoin(a: byte, b: byte, c: byte, d: byte, e: byte, f: byte, g: byte, h: byte)
    ensures Swab64(Join64(a, b, c, d, e, f, g, h)) == Join64(h, g, f, e, d, c, b, a)
  {
  }

  /** A swap is the reversal of the byte sequence: swapping what a host loads is
      the same as loading the bytes in the opposite order. */
  lemma {:induction false} Swab16Reverses(host: Endian, b: seq<byte>)
    requires |b| == 2
    ensures Swab16(Native16(host, b)) == Native16(host, Reverse(b))
  {
    Swab16OfJoin(b[0], b[1]);
    Swab16OfJoin(b[1], b[0]);
  }

  lemma {:induction false} Swab32Reverses(host: Endian, b: seq<byte>)
    requires |b| == 4
    ensures Swab32(Native32(host, b)) == Native32(host, Reverse(b))
  {
    Swab32OfJoin(b[0], b[1], b[2], b[3]);
    Swab32OfJoin(b[3], b[2], b[1], b[0]);
  }

  lemma {:induction false} Swab64Reverses(host: Endian, b: seq<byte>)
    requires |b| == 8
    ensures Swab64(Native64(host, b)) == Native64(host, Reverse(b))
  {
    Swab64OfJoin(b[0], b[1], b[2], b[3], b[4], b[5], b[6], b[7]);
    Swab64OfJoin(b[7], b[6], b[5], b[4], b[3], b[2], b[1], b[0]);
  }

  lemma {:induction false} SwabUndoesItself(x: bv16, y: bv32, z: bv64)
    ensures Swab16(Swab16(x)) == x
    ensures Swab32(Swab32(y)) == y
    ensures Swab64(Swab64(z)) == z
  {
  }

  /** Native load followed by a conversion gives the wire value on both kinds of host. */
  lemma {:induction false} HostOrderCancels16(host: Endian, b: seq<byte>)
    requires |b| == 2
    ensures Le16ToCpu(host, Native16(host, b)) == Native16(Little, b)
    ensures Be16ToCpu(host, Native16(host, b)) == Native16(Big, b)
  {
    Swab16Reverses(host, b);
  }

  lemma {:induction false} HostOrderCancels32(host: Endian, b: seq<byte>)
    requires |b| == 4
    ensures Le32ToCpu(host, Native32(host, b)) == Native32(Little, b)
  {
    Swab32Reverses(host, b);
  }

  lemma {:induction false} HostOrderCancels64(host: Endian, b: seq<byte>)
    requires |b| == 8
    ensures Le64ToCpu(host, Native64(host, b)) == Native64(Little, b)
  {
    Swab64Reverses(host, b);
  }

  // ---------------------------------------------------------------- reading a buffer

  function ByteAt(h: seq<byte>, o: nat): (v: nat)
    requires o < |h|
    ensures v < 0x100
  {
    h[o] as nat
  }

  /** The values of a wire format, independent of any host. */
  function LittleU16(h: seq<byte>, o: nat): (v: nat)
    requires o + 2 <= |h|
    ensures v < 0x1_0000
  {
    ByteAt(h, o) + 0x100 * ByteAt(h, o + 1)
  }

  function BigU16(h: seq<byte>, o: nat): (v: nat)
    requires o + 2 <= |h|
    ensures v < 0x1_0000
  {
    0x100 * ByteAt(h, o) + ByteAt(h, o + 1)
  }

  function LittleU32(h: seq<byte>, o: nat): (v: nat)
    requires o + 4 <= |h|
    ensures v < 0x1_0000_0000
  {
    LittleU16(h, o) + 0x1_0000 * LittleU16(h, o + 2)
  }

  lemma {:induction false} BytesOfU16(a: byte, b: byte, x: bv16)
    requires x == (a as bv16) | (b as bv16 << 8)
    ensures x as nat == a as nat + 0x100 * (b as nat)
  {
  }

  lemma {:induction false} BytesOfU32(a: byte, b: byte, c: byte, d: byte, x: bv32)
    requires x == (a as bv32) | (b as bv32 << 8) | (c as bv32 << 16) | (d as bv32 << 24)
    ensures x as nat == a as nat + 0x100 * (b as nat) + 0x1_0000 * (c as nat) + 0x100_0000 * (d as nat)
  {
  }

  lemma {:induction false} Join16Value(a: byte, b: byte)
    ensures Join16(a, b) as nat == a as nat + 0x100 * (b as nat)
  {
    BytesOfU16(a, b, Join16(a, b));
  }

  lemma {:induction false} Join32Value(a: byte, b: byte, c: byte, d: byte)
    ensures Join32(a, b, c, d) as nat
         == a as nat + 0x100 * (b as nat) + 0x1_0000 * (c as nat) + 0x100_0000 * (d as nat)
  {
    BytesOfU32(a, b, c, d, Join32(a, b, c, d));
  }

  /** What an unconverted load gives does depend on the host. */
  function NativeU16(host: Endian, h: seq<byte>, o: nat): (v: nat)
    requires o + 2 <= |h|
    ensures v < 0x1_0000
  {
    if host.Little? then LittleU16(h, o) else BigU16(h, o)
  }

  // The loads the programs make.  Converted ones give the wire value on either host.

  method LoadNative16(host: Endian, h: seq<byte>, o: nat) returns (v: nat)
    requires o + 2 <= |h|
    ensures v == NativeU16(host, h, o)
  {
    var b := h[o..o + 2];
    Join16Value(b[0], b[1]);
    Join16Value(b[1], b[0]);
    return Native16(host, b) as nat;
  }

  method LoadLe16(host: Endian, h: seq<byte>, o: nat) returns (v: nat)
    requires o + 2 <= |h|
    ensures v == LittleU16(h, o)
  {
    var b := h[o..o + 2];
    HostOrderCancels16(host, b);
    Join16Value(b[0], b[1]);
    return Le16ToCpu(host, Native16(host, b)) as nat;
  }

  method LoadLe32(host: Endian, h: seq<byte>, o: nat) returns (v: nat)
    requires o + 4 <= |h|
    ensures v == LittleU32(h, o)
  {
    var b := h[o..o + 4];
    HostOrderCancels32(host, b);
    Join32Value(b[0], b[1], b[2], b[3]);
    return Le32ToCpu(host, Native32(host, b)) as nat;
  }

  method LoadBe16(host: Endian, h: seq<byte>, o: nat) returns (v: nat)
    requires o + 2 <= |h|
    ensures v == BigU16(h, o)
  {
    var b := h[o..o + 2];
    HostOrderCancels16(host, b);
    Join16Value(b[1], b[0]);
    return Be16ToCpu(host, Native16(host, b)) as nat;
  }
}
