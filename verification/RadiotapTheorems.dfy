/**
 What the walk of radiotap-parser.c reports, against the radiotap layout.
 */
module RadiotapTheorems {
  import opened ByteOrder
  import opened Radiotap

  // ---------------------------------------------------------------- init

  // The top bit of a little-endian word is that of its last byte.
  lemma {:induction false} ExtendsByLastByte(h: seq<byte>, o: nat)
    requires o + 4 <= |h|
    ensures Extends(LittleU32(h, o)) <==> h[o + 3] as nat >= 128
  {
  }

  lemma {:induction false} FirstClearAfterSet(h: seq<byte>, k: nat, j: nat)
    requires k <= j && 8 + 4 * j <= |h| && forall i :: k <= i < j ==> h[11 + 4 * i] as nat >= 128
    ensures FirstClear(h, k) >= j
    ensures 12 + 4 * j <= |h| && h[11 + 4 * j] as nat < 128 ==> FirstClear(h, k) == j
    decreases j - k
  {
    if k < j {
      assert h[11 + 4 * k] as nat >= 128;
      ExtendsByLastByte(h, 8 + 4 * k);
      FirstClearAfterSet(h, k + 1, j);
    } else if 12 + 4 * j <= |h| {
      ExtendsByLastByte(h, 8 + 4 * j);
    }
  }

  /** init in terms of the bytes of the header, where j extension words have bit 31 set
      and the next one has not: what it accepts, and the state it leaves. */
  lemma {:induction false} InitByBytes(h: seq<byte>, maxLength: int, x: int, j: nat)
    requires 12 + 4 * j <= |h| && h[11 + 4 * j] as nat < 128
    requires forall i :: 0 <= i < j ==> h[11 + 4 * i] as nat >= 128
    ensures var len, extended := h[2] as nat + 0x100 * h[3] as nat, h[7] as nat >= 128;
      && (InitSucceeds(h, maxLength)
          <==> h[0] as nat == 0 && len <= maxLength && (extended && j > 0 ==> 8 + 4 * j <= len))
      && Start(h, x).maxLength == len && Start(h, x).argIndex == 0
      && Start(h, x).arg == (if extended then 12 + 4 * j else 8)
      && Start(h, x).shifter
         == h[4] as nat + 0x100 * h[5] as nat + 0x1_0000 * h[6] as nat + 0x100_0000 * h[7] as nat
  {
    ExtendsByLastByte(h, 4);
    FirstClearAfterSet(h, 0, j);
    HeaderBytes(h);
  }

  lemma {:induction false} HeaderBytes(h: seq<byte>)
    requires |h| >= 8
    ensures Version(h) == h[0] as nat && ItLen(h) == h[2] as nat + 0x100 * h[3] as nat
    ensures PresentWord(h) == h[4] as nat + 0x100 * h[5] as nat + 0x1_0000 * h[6] as nat + 0x100_0000 * h[7] as nat
  {
  }

  /** A chain of set words that reaches past it_len is rejected, whatever comes after. */
  lemma {:induction false} InitRejectsLongChain(h: seq<byte>, maxLength: int, j: nat)
    requires 0 < j && 8 + 4 * j <= |h| && h[7] as nat >= 128
    requires forall i :: 0 <= i < j ==> h[11 + 4 * i] as nat >= 128
    requires 8 + 4 * j > h[2] as nat + 0x100 * h[3] as nat
    ensures !InitSucceeds(h, maxLength)
  {
    ExtendsByLastByte(h, 4);
    FirstClearAfterSet(h, 0, j);
  }

  // ---------------------------------------------------------------- the format itself

  lemma {:induction false} LayoutCons(present: nat, i: FieldIndex, pos: nat)
    requires Bit(present, i)
    ensures var fs, rest := Layout(present, i, pos), Layout(present, i + 1, After(i, pos));
      && |fs| == |rest| + 1
      && fs[0] == Field(i, Place(i, pos)) && fs[0].End() == After(i, pos)
      && fs[1..] == rest
      && forall k :: 1 <= k < |fs| ==> fs[k] == rest[k - 1]
  {
  }

  /** Layout lists only present bits, each at an aligned position... */
  lemma {:induction false} LayoutIsSound(present: nat, i: nat, pos: nat, k: nat)
    requires i <= FIELDS && k < |Layout(present, i, pos)|
    ensures var f := Layout(present, i, pos)[k];
      i <= f.index && Bit(present, f.index) && pos <= f.offset && Aligned(f.index, f.offset)
    decreases FIELDS - i
  {
    assert i < FIELDS;
    if !Bit(present, i) {
      LayoutIsSound(present, i + 1, pos, k);
    } else {
      LayoutCons(present, i, pos);
      if k > 0 {
        LayoutIsSound(present, i + 1, After(i, pos), k - 1);
      }
    }
  }

  /** ... every present bit, in ascending order... */
  lemma {:induction false} LayoutIsComplete(present: nat, i: nat, pos: nat, b: nat) returns (k: nat)
    requires i <= b < FIELDS && Bit(present, b)
    ensures k < |Layout(present, i, pos)| && Layout(present, i, pos)[k].index == b
    decreases FIELDS - i
  {
    if !Bit(present, i) {
      k := LayoutIsComplete(present, i + 1, pos, b);
    } else {
      LayoutCons(present, i, pos);
      if b == i {
        k := 0;
      } else {
        k := LayoutIsComplete(present, i + 1, After(i, pos), b);
        k := k + 1;
      }
    }
  }

  /** ... and each field is placed right after the one before it. */
  lemma {:induction false} LayoutIsTight(present: nat, i: nat, pos: nat, k: nat)
    requires i <= FIELDS && k + 1 < |Layout(present, i, pos)|
    ensures var f, g := Layout(present, i, pos)[k], Layout(present, i, pos)[k + 1];
      f.index < g.index && g.offset == Place(g.index, f.End())
    decreases FIELDS - i
  {
    assert i < FIELDS;
    if !Bit(present, i) {
      LayoutIsTight(present, i + 1, pos, k);
    } else {
      LayoutCons(present, i, pos);
      if k > 0 {
        LayoutIsTight(present, i + 1, After(i, pos), k - 1);
      } else {
        FirstField(present, i + 1, After(i, pos));
      }
    }
  }

  lemma {:induction false} FirstField(present: nat, i: nat, pos: nat)
    requires i <= FIELDS && |Layout(present, i, pos)| > 0
    ensures var f := Layout(present, i, pos)[0]; i <= f.index && f.offset == Place(f.index, pos)
    decreases FIELDS - i
  {
    if !Bit(present, i) {
      FirstField(present, i + 1, pos);
    }
  }

  // ---------------------------------------------------------------- the repaired walk

  // One step of each side, so that the inductions below unfold nothing else.
  lemma {:induction false} SkipStep(pad: PadTarget, present: nat, s: Iter)
    requires s.argIndex < FIELDS && s.shifter == Shr(present, s.argIndex) && !Low(s.shifter)
    ensures Skip(s).shifter == Shr(present, Skip(s).argIndex)
    ensures Trace(pad, s) == Trace(pad, Skip(s))
    ensures Layout(present, s.argIndex, s.arg) == Layout(present, Skip(s).argIndex, s.arg)
  {
  }

  lemma {:induction false} TraceStep(pad: PadTarget, s: Iter)
    requires s.argIndex < FIELDS && Low(s.shifter)
    ensures var r := Next(pad, s);
      Trace(pad, s) == if r.1 < 0 then [CallOf(r)] else [CallOf(r)] + Trace(pad, r.0)
  {
  }

  lemma {:induction false} ExpectedStep(present: nat, i: nat, pos: nat, len: int, last: Call)
    requires i < FIELDS && Bit(present, i)
    ensures var c := Call(i, i, Place(i, pos));
      Expected(Layout(present, i, pos), len, last)
      == if After(i, pos) > len then [c.(ret := -EINVAL)]
         else [c] + Expected(Layout(present, i + 1, After(i, pos)), len, c)
  {
    var fs := Layout(present, i, pos);
    assert fs[0] == Field(i, Place(i, pos));
    assert fs[1..] == Layout(present, i + 1, After(i, pos));
  }

  /** With the padding applied to the argument position, init followed by repeated
      next reports the aligned layout, cut at the first field past it_len. */
  lemma {:induction false} RepairedWalkIsLayout(present: nat, s: Iter, last: Call)
    requires s.argIndex <= FIELDS && s.shifter == Shr(present, s.argIndex)
    requires last.index == s.thisArgIndex && last.offset == s.thisArg
    ensures Trace(PadArg, s) == Expected(Layout(present, s.argIndex, s.arg), s.maxLength, last)
    decreases FIELDS - s.argIndex
  {
    if s.argIndex == FIELDS {
    } else if !Low(s.shifter) {
      SkipStep(PadArg, present, s);
      RepairedWalkIsLayout(present, Skip(s), last);
    } else {
      var r := Next(PadArg, s);
      TraceStep(PadArg, s);
      ExpectedStep(present, s.argIndex, s.arg, s.maxLength, last);
      if r.1 >= 0 {
        RepairedWalkIsLayout(present, r.0, CallOf(r));
      }
    }
  }

  // ---------------------------------------------------------------- the walk as written

  /** No field that the walk gets to needs padding: each one, up to and including the
      first that does not fit, falls on an aligned offset when laid end to end. */
  predicate AlignedThrough(present: nat, i: nat, pos: nat, len: int)
    requires i <= FIELDS
    decreases FIELDS - i
  {
    if i == FIELDS then true
    else if Bit(present, i) then
      Aligned(i, pos) && (EndOf(i, pos) > len || AlignedThrough(present, i + 1, EndOf(i, pos), len))
    else AlignedThrough(present, i + 1, pos, len)
  }

  /** How many fields come before the first one that needs padding. */
  function FieldsBeforePadding(present: nat, i: nat, pos: nat, len: int): nat
    requires i <= FIELDS && !AlignedThrough(present, i, pos, len)
    decreases FIELDS - i
  {
    if !Bit(present, i) then FieldsBeforePadding(present, i + 1, pos, len)
    else if !Aligned(i, pos) then 0
    else 1 + FieldsBeforePadding(present, i + 1, EndOf(i, pos), len)
  }

  lemma {:induction false} PlaceAligned(i: FieldIndex, pos: nat)
    requires Aligned(i, pos)
    ensures Jump(i, pos) == i && Place(i, pos) == pos && After(i, pos) == EndOf(i, pos)
  {
  }

  lemma {:induction false} TakeAligned(s: Iter)
    requires s.argIndex < FIELDS && Low(s.shifter) && Aligned(s.argIndex, s.arg)
    ensures Next(PadIndex, s) == Next(PadArg, s)
    ensures Next(PadIndex, s).0.arg == EndOf(s.argIndex, s.arg)
    ensures Next(PadIndex, s).1 >= 0 <==> EndOf(s.argIndex, s.arg) <= s.maxLength
  {
    PlaceAligned(s.argIndex, s.arg);
    assert Take(PadIndex, s) == s.(thisArgIndex := s.argIndex, thisArg := s.arg, arg := EndOf(s.argIndex, s.arg));
    assert Take(PadArg, s) == Take(PadIndex, s);
  }

  lemma {:induction false} TakeMisaligned(s: Iter)
    requires s.argIndex < FIELDS && Low(s.shifter) && !Aligned(s.argIndex, s.arg)
    ensures Next(PadArg, s).0.thisArgIndex == s.argIndex < Next(PadIndex, s).0.thisArgIndex
    ensures Next(PadIndex, s).0.thisArg == s.arg < Next(PadArg, s).0.thisArg
    ensures Next(PadIndex, s).0.thisArgIndex - s.argIndex == Next(PadArg, s).0.thisArg - s.arg
  {
  }

  lemma {:induction false} ShrOfHalf(x: nat, i: nat)
    ensures Shr(x / 2, i) == Shr(x, i + 1)
  {
    if i > 0 {
      ShrOfHalf(x, i - 1);
    }
  }

  /** One call, in terms of the size table and the bitmap alone: it passes the absent
      fields and reports the first present one, say number i, at the unmoved position, but
      with an index moved on by the padding of field i.  The length passed over is that of
      the index reported. */
  lemma {:induction false} NextReportsFirstPresent(s: Iter, k: nat)
    requires s.argIndex + k < FIELDS
    requires Bit(s.shifter, k) && forall j :: 0 <= j < k ==> !Bit(s.shifter, j)
    ensures var (s', ret) := Next(PadIndex, s);
      && LeastPadding(s.argIndex + k, s.arg, s'.thisArgIndex - (s.argIndex + k))
      && s'.thisArg == s.arg && s'.maxLength == s.maxLength
      && s'.thisArgIndex < |RT_SIZES| == FIELDS && s'.arg == s.arg + RT_SIZES[s'.thisArgIndex] % 16
      && (if s'.arg > s.maxLength then
            ret == -22 && s'.argIndex == s'.thisArgIndex && s'.shifter == Shr(s.shifter, k)
          else
            ret == s'.thisArgIndex && s'.argIndex == ret + 1 && s'.shifter == Shr(s.shifter, k + 1))
    decreases k
  {
    if k == 0 {
      NextReportsPresent(s);
    } else {
      SkipAbsent(s, k);
      NextReportsFirstPresent(Skip(s), k - 1);
    }
  }

  lemma {:induction false} NextReportsPresent(s: Iter)
    requires s.argIndex < FIELDS && Low(s.shifter)
    ensures var (s', ret) := Next(PadIndex, s);
      && LeastPadding(s.argIndex, s.arg, s'.thisArgIndex - s.argIndex)
      && s'.thisArg == s.arg && s'.maxLength == s.maxLength
      && s'.thisArgIndex < |RT_SIZES| == FIELDS && s'.arg == s.arg + RT_SIZES[s'.thisArgIndex] % 16
      && (if s'.arg > s.maxLength then ret == -22 && s'.argIndex == s'.thisArgIndex && s'.shifter == s.shifter
          else ret == s'.thisArgIndex && s'.argIndex == ret + 1 && s'.shifter == s.shifter / 2)
  {
    JumpIsLeastPadding(s.argIndex, s.arg);
    SizesAreTheTable(Jump(s.argIndex, s.arg));
  }

  // Past an absent field, bit j + 1 has become bit j.
  lemma {:induction false} SkipAbsent(s: Iter, k: nat)
    requires s.argIndex < FIELDS && k > 0 && forall j :: 0 <= j < k ==> !Bit(s.shifter, j)
    ensures Next(PadIndex, s) == Next(PadIndex, Skip(s))
    ensures forall j :: 0 <= j < k - 1 ==> !Bit(Skip(s).shifter, j)
    ensures Bit(Skip(s).shifter, k - 1) == Bit(s.shifter, k)
    ensures Shr(Skip(s).shifter, k - 1) == Shr(s.shifter, k) && Shr(Skip(s).shifter, k) == Shr(s.shifter, k + 1)
  {
    assert !Bit(s.shifter, 0);
    forall j | 0 <= j <= k ensures Shr(Skip(s).shifter, j) == Shr(s.shifter, j + 1) {
      ShrOfHalf(s.shifter, j);
    }
    forall j | 0 <= j < k - 1 ensures !Bit(Skip(s).shifter, j) {
      assert !Bit(s.shifter, j + 1);
    }
  }

  /** And without a present field left it returns -1 and reports nothing new. */
  lemma {:induction false} NextWithoutPresent(s: Iter)
    requires s.argIndex <= FIELDS && forall j :: 0 <= j < FIELDS - s.argIndex ==> !Bit(s.shifter, j)
    ensures var (s', ret) := Next(PadIndex, s);
      ret == -1 && s'.argIndex == FIELDS && s'.arg == s.arg
      && s'.thisArg == s.thisArg && s'.thisArgIndex == s.thisArgIndex
    decreases FIELDS - s.argIndex
  {
    if s.argIndex < FIELDS {
      SkipAbsent(s, FIELDS - s.argIndex);
      NextWithoutPresent(Skip(s));
    }
  }

  /** While no field needs padding, one call keeps the shifted bitmap in step with the
      field index, and the two walks make the same call. */
  lemma {:induction false} ShifterFollowsIndex(present: nat, s: Iter)
    requires s.argIndex <= FIELDS && s.shifter == Shr(present, s.argIndex)
    requires AlignedThrough(present, s.argIndex, s.arg, s.maxLength)
    ensures var r := Next(PadIndex, s);
      && r == Next(PadArg, s)
      && (r.1 >= 0 ==>
            && r.0.shifter == Shr(present, r.0.argIndex)
            && AlignedThrough(present, r.0.argIndex, r.0.arg, r.0.maxLength))
    decreases FIELDS - s.argIndex
  {
    if s.argIndex < FIELDS {
      if Low(s.shifter) {
        TakeAligned(s);
      } else {
        ShifterFollowsIndex(present, Skip(s));
      }
    }
  }

  lemma {:induction false} AlignedWalksAgree(present: nat, s: Iter)
    requires s.argIndex <= FIELDS && s.shifter == Shr(present, s.argIndex)
    requires AlignedThrough(present, s.argIndex, s.arg, s.maxLength)
    ensures Trace(PadIndex, s) == Trace(PadArg, s)
    decreases FIELDS - s.argIndex
  {
    var r := Next(PadIndex, s);
    ShifterFollowsIndex(present, s);
    if r.1 >= 0 {
      AlignedWalksAgree(present, r.0);
    }
  }

  lemma {:induction false} PrefixCons(c: Call, w: seq<Call>, r: seq<Call>, n: nat)
    requires n < |w| && n < |r| && w[..n] == r[..n]
    ensures ([c] + w)[..n + 1] == ([c] + r)[..n + 1]
    ensures ([c] + w)[n + 1] == w[n] && ([c] + r)[n + 1] == r[n]
  {
    assert ([c] + w)[..n + 1] == [c] + w[..n];
    assert ([c] + r)[..n + 1] == [c] + r[..n];
  }

  /** Otherwise the walks make the same calls up to the first field that needs
      padding, and report different fields there. */
  lemma {:induction false} WalksDivergeAtPadding(present: nat, s: Iter)
    requires s.argIndex <= FIELDS && s.shifter == Shr(present, s.argIndex)
    requires !AlignedThrough(present, s.argIndex, s.arg, s.maxLength)
    ensures var n := FieldsBeforePadding(present, s.argIndex, s.arg, s.maxLength);
      var w, r := Trace(PadIndex, s), Trace(PadArg, s);
      && n < |w| && n < |r| && w[..n] == r[..n]
      && r[n].index < w[n].index && w[n].index - r[n].index == r[n].offset - w[n].offset
    decreases FIELDS - s.argIndex
  {
    if !Low(s.shifter) {
      SkipStep(PadIndex, present, s);
      SkipStep(PadArg, present, s);
      WalksDivergeAtPadding(present, Skip(s));
    } else {
      TraceStep(PadIndex, s);
      TraceStep(PadArg, s);
      if Aligned(s.argIndex, s.arg) {
        var r := Next(PadIndex, s);
        TakeAligned(s);
        WalksDivergeAtPadding(present, r.0);
        var n := FieldsBeforePadding(present, r.0.argIndex, r.0.arg, r.0.maxLength);
        assert FieldsBeforePadding(present, s.argIndex, s.arg, s.maxLength) == n + 1;
        PrefixCons(CallOf(r), Trace(PadIndex, r.0), Trace(PadArg, r.0), n);
      } else {
        TakeMisaligned(s);
      }
    }
  }

  /** The walk as written reports the radiotap layout exactly when no field it gets to
      needs padding. */
  lemma {:induction false} WrittenWalkIsLayoutIff(present: nat, s: Iter, last: Call)
    requires s.argIndex <= FIELDS && s.shifter == Shr(present, s.argIndex)
    requires last.index == s.thisArgIndex && last.offset == s.thisArg
    ensures Trace(PadIndex, s) == Expected(Layout(present, s.argIndex, s.arg), s.maxLength, last)
       <==> AlignedThrough(present, s.argIndex, s.arg, s.maxLength)
  {
    RepairedWalkIsLayout(present, s, last);
    if AlignedThrough(present, s.argIndex, s.arg, s.maxLength) {
      AlignedWalksAgree(present, s);
    } else {
      WalksDivergeAtPadding(present, s);
    }
  }

  /** The same for a whole header, from the state init leaves: the repaired walk is the
      layout of its payload, the walk as written is so exactly when nothing it gets to
      needs padding. */
  lemma {:induction false} WalksOfHeader(h: seq<byte>, x: int)
    requires |h| >= 8
    ensures var layout := Expected(Layout(PresentWord(h), 0, PayloadStart(h)), ItLen(h), Call(0, x, NULL_ARG));
      && Trace(PadArg, Start(h, x)) == layout
      && (Trace(PadIndex, Start(h, x)) == layout
          <==> AlignedThrough(PresentWord(h), 0, PayloadStart(h), ItLen(h)))
  {
    var s, last := Start(h, x), Call(0, x, NULL_ARG);
    RepairedWalkIsLayout(PresentWord(h), s, last);
    WrittenWalkIsLayoutIff(PresentWord(h), s, last);
  }

  /** A header of 25 bytes with TSFT and rate present, after one extension word. */
  predicate PaddedHeader(h: seq<byte>) {
    && |h| >= 12
    && Version(h) == 0 && ItLen(h) == 25 && PresentWord(h) == 0x8000_0005 && ExtWord(h, 0) == 0
  }

  /** On such a header init succeeds and leaves the argument at 12, where TSFT needs four
      bytes of padding.  The code reports FHSS there, four positions further on in the
      table; TSFT is at 16. */
  lemma {:induction false} PaddingGoesWrong(h: seq<byte>, maxLength: int, x: int)
    requires PaddedHeader(h) && maxLength >= 25
    ensures InitReadable(h, maxLength) && InitSucceeds(h, maxLength)
    ensures Trace(PadIndex, Start(h, x))[0] == Call(4, 4, 12)
    ensures Trace(PadArg, Start(h, x))[0] == Call(0, 0, 16)
  {
    assert FirstClear(h, 0) == 0;
    assert Start(h, x) == Iter(25, 0, 12, 0x8000_0005, NULL_ARG, x);
    assert Over(0, 12) == 4;
  }

  /** The bytes of one, zero in the payload. */
  function PaddedHeaderBytes(): (h: seq<byte>)
    ensures |h| == 25 && PaddedHeader(h)
  {
    seq(25, k => if k == 2 then 25 else if k == 4 then 5 else if k == 7 then 0x80 else 0)
  }

  /** When every present field falls on an aligned offset, the present bits are
      reported in order, each at the start plus the lengths of the earlier ones. */
  lemma {:induction false} AlignedHeadersArePacked(present: nat, i: nat, pos: nat, len: int)
    requires i <= FIELDS
    requires forall f <- Packed(present, i, pos) :: Aligned(f.index, f.offset)
    ensures Layout(present, i, pos) == Packed(present, i, pos)
    ensures AlignedThrough(present, i, pos, len)
    decreases FIELDS - i
  {
    if i < FIELDS {
      if Bit(present, i) {
        var rest := Packed(present, i + 1, EndOf(i, pos));
        assert Packed(present, i, pos) == [Field(i, pos)] + rest;
        assert Field(i, pos) in Packed(present, i, pos);
        assert forall f <- rest :: f in Packed(present, i, pos);
        AlignedHeadersArePacked(present, i + 1, EndOf(i, pos), len);
        PlaceAligned(i, pos);
      } else {
        AlignedHeadersArePacked(present, i + 1, pos, len);
      }
    }
  }

  lemma {:induction false} WrittenWalkOfAlignedHeader(present: nat, s: Iter, last: Call)
    requires s.argIndex <= FIELDS && s.shifter == Shr(present, s.argIndex)
    requires last.index == s.thisArgIndex && last.offset == s.thisArg
    requires forall f <- Packed(present, s.argIndex, s.arg) :: Aligned(f.index, f.offset)
    ensures Trace(PadIndex, s) == Expected(Packed(present, s.argIndex, s.arg), s.maxLength, last)
  {
    AlignedHeadersArePacked(present, s.argIndex, s.arg, s.maxLength);
    WrittenWalkIsLayoutIff(present, s, last);
  }

  /** A field list is read to its end exactly when every field fits. */
  lemma {:induction false} ExpectedEndsIff(fs: seq<Field>, len: int, last: Call)
    ensures Last(Expected(fs, len, last)).ret == END <==> forall f <- fs :: f.End() <= len
    decreases |fs|
  {
    if fs != [] && fs[0].End() <= len {
      ExpectedEndsIff(fs[1..], len, Call(fs[0].index, fs[0].index, fs[0].offset));
      assert forall f :: f in fs <==> f == fs[0] || f in fs[1..];
    } else if fs != [] {
      assert fs[0] in fs;
    }
  }

  function CallFor(f: Field): Call {
    Call(f.index, f.index, f.offset)
  }

  // A list that fits is reported field by field.
  lemma {:induction false} ExpectedOfFitting(fs: seq<Field>, len: int, last: Call)
    requires forall f <- fs :: f.End() <= len
    ensures var t := Expected(fs, len, last);
      && |t| == |fs| + 1
      && (forall k :: 0 <= k < |fs| ==> t[k] == CallFor(fs[k]))
      && t[|fs|] == (if fs == [] then last else CallFor(fs[|fs| - 1])).(ret := END)
    decreases |fs|
  {
    if fs != [] {
      assert fs[0] in fs;
      var c := CallFor(fs[0]);
      ExpectedOfFitting(fs[1..], len, c);
      assert Expected(fs, len, last) == [c] + Expected(fs[1..], len, c);
    }
  }

  predicate Names(fs: seq<Field>, i: FieldIndex) {
    exists k :: 0 <= k < |fs| && fs[k].index == i
  }

  lemma {:induction false} HitStep(s: Iter)
    requires s.argIndex <= FIELDS && Next(PadIndex, s).1 >= 0
    ensures var r := Next(PadIndex, s);
      && r.0.thisArgIndex == r.1 >= s.argIndex && r.0.argIndex == r.1 + 1
      && r.0.thisArg == s.arg && r.0.arg == EndOf(r.1, s.arg) <= s.maxLength
    decreases FIELDS - s.argIndex
  {
    if !Low(s.shifter) {
      HitStep(Skip(s));
    }
  }

  /** For every header, the fields the walk as written reports have strictly increasing
      indices, and their ranges tile the payload: the first starts at the payload
      start, each next one where the one before ends, and all end within it_len. */
  lemma {:induction false} WrittenWalkTiles(s: Iter, k: nat)
    requires s.argIndex <= FIELDS && k < |Trace(PadIndex, s)| - 1
    ensures var t := Trace(PadIndex, s);
      && t[k].ret == t[k].index && s.argIndex <= t[k].index < FIELDS && s.arg <= t[k].offset
      && EndOf(t[k].index, t[k].offset) <= s.maxLength
      && (k == 0 ==> t[k].offset == s.arg)
      && (k > 0 ==> 0 <= t[k - 1].index < t[k].index && 0 <= t[k - 1].offset
                    && t[k].offset == EndOf(t[k - 1].index, t[k - 1].offset))
    decreases k
  {
    var r := Next(PadIndex, s);
    HitStep(s);
    assert Trace(PadIndex, s) == [CallOf(r)] + Trace(PadIndex, r.0);
    if k > 0 {
      WrittenWalkTiles(r.0, k - 1);
    }
  }

  lemma {:induction false} AtMostFourteenFields(pad: PadTarget, s: Iter)
    requires s.argIndex <= FIELDS
    ensures |Trace(pad, s)| - 1 <= FIELDS - s.argIndex
    decreases FIELDS - s.argIndex
  {
    var r := Next(pad, s);
    if r.1 >= 0 {
      AtMostFourteenFields(pad, r.0);
    }
  }

  /** Only the low 14 bits, the payload start and it_len matter: the shifted bitmap may
      lag behind the index, but never runs past bit 13. */
  lemma {:induction false} LowBitsDecide(pad: PadTarget, p: nat, q: nat, m: nat, s: Iter, t: Iter)
    requires m <= s.argIndex <= FIELDS && s.shifter == Shr(p, m)
    requires t == s.(shifter := Shr(q, m))
    requires forall b :: 0 <= b < FIELDS ==> Bit(p, b) == Bit(q, b)
    ensures Trace(pad, s) == Trace(pad, t)
    decreases FIELDS - s.argIndex
  {
    if s.argIndex < FIELDS {
      assert Bit(p, m) == Bit(q, m);
      if Low(s.shifter) {
        TraceStep(pad, s);
        TraceStep(pad, t);
        if Next(pad, s).1 >= 0 {
          LowBitsDecide(pad, p, q, m + 1, Next(pad, s).0, Next(pad, t).0);
        }
      } else {
        LowBitsDecide(pad, p, q, m + 1, Skip(s), Skip(t));
      }
    }
  }

  lemma {:induction false} SimilarHeadersWalkAlike(pad: PadTarget, g: seq<byte>, h: seq<byte>, x: int)
    requires |g| >= 8 && |h| >= 8
    requires ItLen(g) == ItLen(h) && PayloadStart(g) == PayloadStart(h)
    requires forall b :: 0 <= b < FIELDS ==> Bit(PresentWord(g), b) == Bit(PresentWord(h), b)
    ensures Trace(pad, Start(g, x)) == Trace(pad, Start(h, x))
  {
    LowBitsDecide(pad, PresentWord(g), PresentWord(h), 0, Start(g, x), Start(h, x));
  }

  /** init leaves this_arg_index as it was; no call depends on it. */
  lemma {:induction false} ThisArgIndexIsNotRead(pad: PadTarget, s: Iter, x: int)
    requires s.argIndex <= FIELDS
    ensures var r, q := Next(pad, s), Next(pad, s.(thisArgIndex := x));
      q.1 == r.1 && q.0 == if r.1 == END then r.0.(thisArgIndex := x) else r.0
    decreases FIELDS - s.argIndex
  {
    if s.argIndex < FIELDS && !Low(s.shifter) {
      ThisArgIndexIsNotRead(pad, Skip(s), x);
    }
  }

  // ---------------------------------------------------------------- overflow and termination

  /** The state after n calls of next. */
  function Iterate(pad: PadTarget, s: Iter, n: nat): (r: Iter)
    requires s.argIndex <= FIELDS
    ensures r.argIndex <= FIELDS
    decreases n
  {
    if n == 0 then s else Iterate(pad, Next(pad, s).0, n - 1)
  }

  /** After -EINVAL the next call returns -EINVAL again, with a larger argument position. */
  lemma {:induction false} OverflowStep(pad: PadTarget, s: Iter)
    requires s.argIndex <= FIELDS && Next(pad, s).1 == -EINVAL
    ensures var s' := Next(pad, s).0;
      Next(pad, s').1 == -EINVAL && Next(pad, s').0.arg > s'.arg > s'.maxLength
    decreases FIELDS - s.argIndex
  {
    if !Low(s.shifter) {
      OverflowStep(pad, Skip(s));
    }
  }

  lemma {:induction false} OverflowIsAbsorbing(pad: PadTarget, s: Iter, n: nat)
    requires s.argIndex <= FIELDS && Next(pad, s).1 == -EINVAL
    ensures var t := Iterate(pad, s, n);
      Next(pad, t).1 == -EINVAL && (n > 0 ==> Next(pad, t).0.arg > t.arg > s.maxLength)
    decreases n
  {
    if n > 0 {
      OverflowStep(pad, s);
      OverflowIsAbsorbing(pad, Next(pad, s).0, n - 1);
    }
  }

  lemma {:induction false} TraceEnding(pad: PadTarget, s: Iter)
    requires s.argIndex <= FIELDS
    ensures Last(Trace(pad, s)).ret == END || Last(Trace(pad, s)).ret == -EINVAL
    decreases FIELDS - s.argIndex
  {
    var r := Next(pad, s);
    if r.1 >= 0 {
      TraceEnding(pad, r.0);
    }
  }

  lemma {:induction false} EndIsReached(pad: PadTarget, s: Iter) returns (n: nat)
    requires s.argIndex <= FIELDS && Last(Trace(pad, s)).ret == END
    ensures Next(pad, Iterate(pad, s, n)).1 == END
    decreases FIELDS - s.argIndex
  {
    var r := Next(pad, s);
    n := 0;
    if r.1 >= 0 {
      n := EndIsReached(pad, r.0);
      n := n + 1;
    }
  }

  lemma {:induction false} EndIsNotReached(pad: PadTarget, s: Iter, n: nat)
    requires s.argIndex <= FIELDS && Last(Trace(pad, s)).ret != END
    ensures Next(pad, Iterate(pad, s, n)).1 != END
    decreases n
  {
    var r := Next(pad, s);
    if r.1 < 0 {
      OverflowIsAbsorbing(pad, s, n);
    } else if n > 0 {
      EndIsNotReached(pad, r.0, n - 1);
    }
  }

  /** The state after a present field that fits. */
  function Taken(s: Iter): Iter
    requires s.argIndex < FIELDS
  {
    var s' := Take(PadIndex, s);
    s'.(argIndex := s'.argIndex + 1, shifter := s.shifter / 2)
  }

  /** The fields the code goes through when it_len is ignored: each set bit takes the
      next index, moved on by the padding, at the end of the field before. */
  function Drift(s: Iter): seq<Field>
    requires s.argIndex <= FIELDS
    decreases FIELDS - s.argIndex
  {
    if s.argIndex == FIELDS then []
    else if Low(s.shifter) then [Field(Jump(s.argIndex, s.arg), s.arg)] + Drift(Taken(s))
    else Drift(Skip(s))
  }

  // Without present bits there is nothing to go through.
  lemma {:induction false} DriftOfNothing(s: Iter)
    requires s.argIndex <= FIELDS && s.shifter == 0
    ensures Drift(s) == []
    decreases FIELDS - s.argIndex
  {
    if s.argIndex < FIELDS {
      DriftOfNothing(Skip(s));
    }
  }

  lemma {:induction false} WrittenWalkIsDrift(s: Iter, last: Call)
    requires s.argIndex <= FIELDS
    requires last.index == s.thisArgIndex && last.offset == s.thisArg
    ensures Trace(PadIndex, s) == Expected(Drift(s), s.maxLength, last)
    decreases FIELDS - s.argIndex
  {
    if s.argIndex == FIELDS {
    } else if Low(s.shifter) {
      var r, fs := Next(PadIndex, s), Drift(s);
      TraceStep(PadIndex, s);
      assert fs[0] == Field(Jump(s.argIndex, s.arg), s.arg);
      assert fs[1..] == Drift(Taken(s));
      if r.1 >= 0 {
        assert r.0 == Taken(s);
        WrittenWalkIsDrift(r.0, CallOf(r));
      }
    } else {
      WrittenWalkIsDrift(Skip(s), last);
      assert Trace(PadIndex, s) == Trace(PadIndex, Skip(s));
    }
  }

  /** parseRadioTap, which stops only on -1, returns exactly when every field the code
      goes through ends within it_len. */
  lemma {:induction false} ParseReturnsIff(s: Iter)
    requires s.argIndex <= FIELDS
    ensures (exists n: nat :: Next(PadIndex, Iterate(PadIndex, s, n)).1 == END)
       <==> forall f <- Drift(s) :: f.End() <= s.maxLength
    ensures Last(Trace(PadIndex, s)).ret == END
       <==> forall f <- Drift(s) :: f.End() <= s.maxLength
  {
    var last := Call(0, s.thisArgIndex, s.thisArg);
    WrittenWalkIsDrift(s, last);
    ExpectedEndsIff(Drift(s), s.maxLength, last);
    if Last(Trace(PadIndex, s)).ret == END {
      var n := EndIsReached(PadIndex, s);
    } else {
      forall n: nat ensures Next(PadIndex, Iterate(PadIndex, s, n)).1 != END {
        EndIsNotReached(PadIndex, s, n);
      }
    }
  }
}
