/**
 The radiotap header and the walk over its present bitmap, as values
 (radiotap-parser.c, ieee80211_radiotap.h).  Pointers are offsets from the start
 of the radiotap header.
 */
module Radiotap {
  import opened ByteOrder

  const END := -1
  const EINVAL := 22
  const NULL_ARG := -1

  const RATE := 2
  const CHANNEL := 3
  const DBM_ANTSIGNAL := 5
  const ANTENNA := 11

  // ---------------------------------------------------------------- size table

  const FIELDS: nat := 14

  type FieldIndex = i: nat | i < FIELDS

  /** Upper nybble: alignment of the field; lower nybble: its length. */
  const RT_SIZES: seq<nat> :=
    [0x88, 0x11, 0x11, 0x24, 0x22, 0x11, 0x11, 0x22, 0x22, 0x22, 0x11, 0x11, 0x11, 0x11]

  function Align(i: FieldIndex): (r: nat)
    ensures r == 1 || r == 2 || r == 8
  {
    if i == 0 then 8
    else if i == 3 || i == 4 || 7 <= i <= 9 then 2
    else 1
  }

  function Len(i: FieldIndex): (r: nat)
    ensures 1 <= r <= 8
  {
    if i == 0 then 8
    else if i == 3 then 4
    else if i == 4 || 7 <= i <= 9 then 2
    else 1
  }

  lemma {:induction false} SizesAreTheTable(i: FieldIndex)
    ensures |RT_SIZES| == FIELDS
    ensures Align(i) == RT_SIZES[i] / 16 && Len(i) == RT_SIZES[i] % 16
  {
  }

  /** The data type that ieee80211_radiotap.h gives a field: how many values of how many
      bytes.  TSFT is 64 bits wide, channel is two values of 16 bits, FHSS, lock quality
      and the two attenuations are 16 bits wide, and the other eight are bytes. */
  datatype DataType = DataType(count: nat, size: nat)

  function Documented(i: FieldIndex): DataType {
    if i == 0 then DataType(1, 8)
    else if i == 3 then DataType(2, 2)
    else if i in {4, 7, 8, 9} then DataType(1, 2)
    else DataType(1, 1)
  }

  /** The size table agrees with the documented types. */
  lemma {:induction false} SizesAreDocumented(i: FieldIndex)
    ensures |RT_SIZES| == FIELDS && Documented(i).size > 0
    ensures RT_SIZES[i] / 16 == Documented(i).size && RT_SIZES[i] % 16 == Documented(i).count * Documented(i).size
  {
  }

  /** pos & (Align(i) - 1): how far pos is past the last boundary for field i. */
  function Over(i: FieldIndex, pos: nat): (r: nat)
    ensures r < Align(i)
  {
    if Align(i) == 8 then pos % 8 else if Align(i) == 2 then pos % 2 else 0
  }

  predicate Aligned(i: FieldIndex, pos: nat)
  {
    Over(i, pos) == 0
  }

  function Padding(i: FieldIndex, pos: nat): (r: nat)
    ensures i + r < FIELDS
    ensures Aligned(i, pos + r)
  {
    if Aligned(i, pos) then 0 else Align(i) - Over(i, pos)
  }

  /** Where field i ends when it starts at pos. */
  function EndOf(i: FieldIndex, pos: nat): (r: nat)
    ensures r > pos
  {
    pos + Len(i)
  }

  /** The first position from pos on that suits field i, and the end of the field there. */
  function Place(i: FieldIndex, pos: nat): (r: nat)
    ensures r >= pos && Aligned(i, r)
  {
    pos + Padding(i, pos)
  }

  function After(i: FieldIndex, pos: nat): (r: nat)
    ensures r > pos
  {
    EndOf(i, Place(i, pos))
  }

  /** The index the C code moves on to instead, when it adds the padding to it. */
  function Jump(i: FieldIndex, pos: nat): FieldIndex {
    i + Padding(i, pos)
  }

  /** Over and Padding mean what alignment means: a position is aligned when the
      alignment divides it, and padding leads to the least such position. */
  lemma {:induction false} PaddingIsLeast(i: FieldIndex, pos: nat)
    ensures Over(i, pos) == pos % Align(i)
    ensures Place(i, pos) % Align(i) == 0
    ensures forall p: nat :: pos <= p < Place(i, pos) ==> p % Align(i) != 0
  {
    OverIsRemainder(i, pos);
    OverIsRemainder(i, Place(i, pos));
    forall p: nat | pos <= p < Place(i, pos) ensures p % Align(i) != 0 {
      NotYetAligned(i, pos, p);
      OverIsRemainder(i, p);
    }
  }

  /** p is the padding that brings pos to the next boundary of field i, by the size table. */
  predicate LeastPadding(i: FieldIndex, pos: nat, p: int) {
    SizesAreTheTable(i);
    0 <= p < RT_SIZES[i] / 16 && (pos + p) % (RT_SIZES[i] / 16) == 0
  }

  lemma {:induction false} JumpIsLeastPadding(i: FieldIndex, pos: nat)
    ensures LeastPadding(i, pos, Jump(i, pos) - i)
  {
    SizesAreTheTable(i);
    PaddingIsLeast(i, pos);
  }

  // No other number is, and no smaller one leads to a boundary.
  lemma {:induction false} LeastPaddingIsLeast(i: FieldIndex, pos: nat, p: int, q: nat)
    requires LeastPadding(i, pos, p) && |RT_SIZES| == FIELDS && RT_SIZES[i] / 16 > 0
    requires (pos + q) % (RT_SIZES[i] / 16) == 0
    ensures p <= q
  {
    SizesAreTheTable(i);
    OverIsRemainder(i, pos + q);
    PaddingIsLeast(i, pos);
    OverIsRemainder(i, pos + p);
  }

  lemma {:induction false} OverIsRemainder(i: FieldIndex, pos: nat)
    ensures Over(i, pos) == pos % Align(i)
  {
    if Align(i) == 8 {
      assert pos % Align(i) == pos % 8;
    } else if Align(i) == 2 {
      assert pos % Align(i) == pos % 2;
    } else {
      assert pos % 1 == 0;
    }
  }

  lemma {:induction false} NotYetAligned(i: FieldIndex, pos: nat, p: nat)
    requires pos <= p < Place(i, pos)
    ensures !Aligned(i, p)
  {
  }

  // ---------------------------------------------------------------- the header

  datatype HeaderPtr = Null | Header(bytes: seq<byte>)

  function Version(h: seq<byte>): nat
    requires |h| >= 8
  {
    ByteAt(h, 0)
  }

  function ItLen(h: seq<byte>): nat
    requires |h| >= 8
  {
    LittleU16(h, 2)
  }

  function PresentWord(h: seq<byte>): nat
    requires |h| >= 8
  {
    LittleU32(h, 4)
  }

  function ExtWord(h: seq<byte>, k: nat): nat
    requires 12 + 4 * k <= |h|
  {
    LittleU32(h, 8 + 4 * k)
  }

  /** Bit 31 announces another bitmap word. */
  predicate Extends(word: nat) {
    word >= 0x8000_0000
  }

  /** Exactly the words that init reads from extension word k on are in memory. */
  predicate WordsReadable(h: seq<byte>, k: nat, len: nat)
    decreases |h| - 4 * k
  {
    && 12 + 4 * k <= |h|
    && (Extends(ExtWord(h, k)) && 12 + 4 * k <= len ==> WordsReadable(h, k + 1, len))
  }

  predicate InitReadable(h: seq<byte>, maxLength: int) {
    && |h| >= 8
    && (Version(h) == 0 && ItLen(h) <= maxLength && Extends(PresentWord(h)) ==> WordsReadable(h, 0, ItLen(h)))
  }

  /** The first extension word, from k on, whose bit 31 is clear (or that lies
      outside the memory given). */
  function FirstClear(h: seq<byte>, k: nat): (j: nat)
    ensures j >= k
    ensures forall i :: k <= i < j ==> 12 + 4 * i <= |h| && Extends(ExtWord(h, i))
    ensures 12 + 4 * j <= |h| ==> !Extends(ExtWord(h, j))
    decreases |h| - 4 * k
  {
    if 12 + 4 * k > |h| || !Extends(ExtWord(h, k)) then k else FirstClear(h, k + 1)
  }

  predicate InitSucceeds(h: seq<byte>, maxLength: int)
    requires |h| >= 8
  {
    var j := FirstClear(h, 0);
    && Version(h) == 0
    && ItLen(h) <= maxLength
    && (!Extends(PresentWord(h)) || j == 0 || 8 + 4 * j <= ItLen(h))
  }

  function PayloadStart(h: seq<byte>): nat
    requires |h| >= 8
  {
    if Extends(PresentWord(h)) then 8 + 4 * (FirstClear(h, 0) + 1) else 8
  }

  function Max(a: int, b: int): int {
    if a < b then b else a
  }

  /** All reads of init stay within max(8, it_len) + 4 bytes, and so does the
      payload start it computes. */
  lemma {:induction false} ReadsAreBounded(h: seq<byte>, k: nat, len: nat)
    requires |h| >= Max(8, len) + 4
    requires k == 0 || 8 + 4 * k <= len
    ensures WordsReadable(h, k, len)
    decreases |h| - 4 * k
  {
    if Extends(ExtWord(h, k)) && 12 + 4 * k <= len {
      ReadsAreBounded(h, k + 1, len);
    }
  }

  lemma {:induction false} InitStaysInBounds(h: seq<byte>, maxLength: int)
    requires |h| >= 8
    ensures |h| >= Max(8, ItLen(h)) + 4 ==> InitReadable(h, maxLength)
    ensures InitSucceeds(h, maxLength) ==> 8 <= PayloadStart(h) <= Max(8, ItLen(h)) + 4
    ensures PayloadStart(h) % 4 == 0
  {
    if |h| >= Max(8, ItLen(h)) + 4 {
      ReadsAreBounded(h, 0, ItLen(h));
    }
  }

  // ---------------------------------------------------------------- the bitmap

  // Words are natural numbers here: `& 0x80000000` tests for the upper half of the u32
  // range, `& 1` for oddness, and `>>= 1` is halving.

  /** x shifted right i times by one. */
  function Shr(x: nat, i: nat): nat {
    if i == 0 then x else Shr(x, i - 1) / 2
  }

  predicate Low(x: nat) {
    x % 2 == 1
  }

  predicate Bit(x: nat, i: nat) {
    Low(Shr(x, i))
  }

  // ---------------------------------------------------------------- the iterator

  /** Where alignment padding goes: to the field index, as the C code is written,
      or to the argument position, as its comment asks. */
  datatype PadTarget = PadIndex | PadArg

  datatype Iter = Iter(maxLength: int, argIndex: nat, arg: nat, shifter: nat, thisArg: int, thisArgIndex: int)

  /** One call of next: the new state and the value returned. */
  function Next(pad: PadTarget, s: Iter): (r: (Iter, int))
    requires s.argIndex <= FIELDS
    ensures r.0.argIndex <= FIELDS && r.0.maxLength == s.maxLength
    ensures r.1 == END || r.1 == -EINVAL || 0 <= r.1 < FIELDS
    ensures r.1 >= 0 ==> s.argIndex < r.0.argIndex && s.argIndex <= r.1 < r.0.argIndex
    decreases FIELDS - s.argIndex
  {
    if s.argIndex >= FIELDS then
      (s, END)
    else if !Low(s.shifter) then
      Next(pad, Skip(s))
    else
      var s' := Take(pad, s);
      if s'.arg > s'.maxLength then
        (s', -EINVAL)
      else
        (s'.(argIndex := s'.argIndex + 1, shifter := s.shifter / 2), s'.thisArgIndex)
  }

  function Skip(s: Iter): Iter {
    s.(argIndex := s.argIndex + 1, shifter := s.shifter / 2)
  }

  function Take(pad: PadTarget, s: Iter): Iter
    requires s.argIndex < FIELDS
  {
    var i: FieldIndex := s.argIndex;
    match pad
    case PadIndex =>
      var j := Jump(i, s.arg);
      s.(argIndex := j, thisArgIndex := j, thisArg := s.arg, arg := EndOf(j, s.arg))
    case PadArg =>
      s.(thisArgIndex := i, thisArg := Place(i, s.arg), arg := After(i, s.arg))
  }

  /** What a caller sees of one call: the value returned, this_arg_index, this_arg. */
  datatype Call = Call(ret: int, index: int, offset: int)

  function CallOf(r: (Iter, int)): Call {
    Call(r.1, r.0.thisArgIndex, r.0.thisArg)
  }

  /** The calls up to and including the first that returns a negative value. */
  function Trace(pad: PadTarget, s: Iter): (t: seq<Call>)
    requires s.argIndex <= FIELDS
    ensures |t| > 0
    decreases FIELDS - s.argIndex
  {
    var r := Next(pad, s);
    if r.1 < 0 then [CallOf(r)] else [CallOf(r)] + Trace(pad, r.0)
  }

  function Last(t: seq<Call>): Call
    requires |t| > 0
  {
    t[|t| - 1]
  }

  // ---------------------------------------------------------------- the format

  datatype Field = Field(index: FieldIndex, offset: nat) {
    function End(): nat {
      EndOf(index, offset)
    }
  }

  /** The radiotap layout: each present field, in ascending bit order, at the first
      suitably aligned position after the previous one. */
  function Layout(present: nat, i: nat, pos: nat): seq<Field>
    requires i <= FIELDS
    decreases FIELDS - i
  {
    if i == FIELDS then []
    else if Bit(present, i) then [Field(i, Place(i, pos))] + Layout(present, i + 1, After(i, pos))
    else Layout(present, i + 1, pos)
  }

  /** The same fields laid end to end, without padding. */
  function Packed(present: nat, i: nat, pos: nat): seq<Field>
    requires i <= FIELDS
    decreases FIELDS - i
  {
    if i == FIELDS then []
    else if Bit(present, i) then [Field(i, pos)] + Packed(present, i + 1, EndOf(i, pos))
    else Packed(present, i + 1, pos)
  }

  /** What a reader of a field list should report: every field that ends within len,
      then -EINVAL at the first that does not, or END after the last. */
  function Expected(fs: seq<Field>, len: int, last: Call): (t: seq<Call>)
    ensures |t| > 0
    decreases |fs|
  {
    if fs == [] then [last.(ret := END)]
    else
      var f := fs[0];
      if f.End() > len then [Call(-EINVAL, f.index, f.offset)]
      else
        var c := Call(f.index, f.index, f.offset);
        [c] + Expected(fs[1..], len, c)
  }

  // ---------------------------------------------------------------- init, then next

  /** The state a successful init leaves; this_arg_index is not touched by init. */
  function Start(h: seq<byte>, thisArgIndex: int): Iter
    requires |h| >= 8
  {
    Iter(ItLen(h), 0, PayloadStart(h), PresentWord(h), NULL_ARG, thisArgIndex)
  }
}
