/**
 The radiotap iterator as the C code has it: one struct, initialised and then
 stepped in place (radiotap-parser.c).
 */
module RadiotapIterator {
  import opened ByteOrder
  import opened Radiotap

  class Iterator {
    const host: Endian
    var rtheader: seq<byte>
    var maxLength: int
    var thisArgIndex: int
    var thisArg: int
    var argIndex: nat
    var arg: nat
    var shifter: nat

    constructor (host: Endian)
      ensures this.host == host
    {
      this.host := host;
    }

    function State(): Iter
      reads this
    {
      Iter(maxLength, argIndex, arg, shifter, thisArg, thisArgIndex)
    }

    /** On success the iterator stands at the payload start.  A chain of extension words
        that runs past it_len fails with arg on the first word boundary beyond it_len;
        every earlier failure leaves the iterator alone. */
    method Init(header: HeaderPtr, maxLength: int) returns (ret: int)
      requires header.Header? ==> InitReadable(header.bytes, maxLength)
      modifies this
      ensures ret == if header.Header? && InitSucceeds(header.bytes, maxLength) then 0 else -EINVAL
      ensures ret == 0 ==> rtheader == header.bytes && State() == Start(header.bytes, old(thisArgIndex))
      ensures header.Null? || Version(header.bytes) != 0 || ItLen(header.bytes) > maxLength
              ==> State() == old(State()) && rtheader == old(rtheader)
      ensures ret != 0 && header.Header? && Version(header.bytes) == 0 && ItLen(header.bytes) <= maxLength ==>
                && rtheader == header.bytes
                && State() == Start(header.bytes, old(thisArgIndex)).(arg := arg)
                && arg % 4 == 0 && 12 <= arg && ItLen(header.bytes) < arg <= Max(8, ItLen(header.bytes)) + 4
    {
      if header.Null? {
        return -EINVAL;
      }
      var h := header.bytes;
      if ByteAt(h, 0) != 0 {
        return -EINVAL;
      }
      var itLen := LoadLe16(host, h, 2);
      if maxLength < itLen {
        return -EINVAL;
      }

      rtheader := h;
      this.maxLength := itLen;
      argIndex := 0;
      var present := LoadLe32(host, h, 4);
      shifter := present;
      arg := 8;
      thisArg := NULL_ARG;
      if Extends(present) {
        var ok := SkipExtensions(h);
        if !ok {
          return -EINVAL;
        }
      }
      return 0;
    }

    /** The loop of init: moves arg past the extension words. */
    method SkipExtensions(h: seq<byte>) returns (ok: bool)
      requires arg == 8 && maxLength >= 0 && WordsReadable(h, 0, maxLength)
      modifies this`arg
      ensures ok <==> FirstClear(h, 0) == 0 || 8 + 4 * FirstClear(h, 0) <= maxLength
      ensures ok ==> arg == 8 + 4 * (FirstClear(h, 0) + 1)
      ensures !ok ==> arg % 4 == 0 && 12 <= arg && maxLength < arg <= Max(8, maxLength) + 4
    {
      ghost var k: nat := 0;
      var word := LoadLe32(host, h, arg);
      while Extends(word)
        invariant arg == 8 + 4 * k
        invariant arg + 4 <= |h| && word == ExtWord(h, k)
        invariant FirstClear(h, 0) == FirstClear(h, k)
        invariant WordsReadable(h, k, maxLength)
        invariant k == 0 || arg <= maxLength
        decreases |h| - arg
      {
        arg := arg + 4;
        k := k + 1;
        if arg > maxLength {
          return false;
        }
        word := LoadLe32(host, h, arg);
      }
      arg := arg + 4;
      return true;
    }

    /** One call of the walk as written. */
    method Next() returns (ret: int)
      requires argIndex <= FIELDS
      modifies this
      ensures argIndex <= FIELDS
      ensures (State(), ret) == Radiotap.Next(PadIndex, old(State()))
      ensures rtheader == old(rtheader)
    {
      ghost var goal := Radiotap.Next(PadIndex, State());
      while argIndex < FIELDS
        invariant argIndex <= FIELDS
        invariant Radiotap.Next(PadIndex, State()) == goal
        invariant rtheader == old(rtheader)
      {
        var hit := false;
        ghost var s := State();
        if shifter % 2 == 1 {
          hit := true;
          TakeField();
          NextOfPresent(s);
          if arg > maxLength {
            return -EINVAL;
          }
        } else {
          NextOfAbsent(s);
        }
        argIndex := argIndex + 1;
        WithinFirstWord(argIndex);
        if argIndex % 32 == 0 {
          // The only place next_bitmap is read; the table ends long before.
          assert false;
        } else {
          shifter := shifter / 2;
        }
        if hit {
          return thisArgIndex;
        }
      }
      return END;
    }

    /** The part of next for a field that is present: pad, report, move on. */
    method TakeField()
      requires argIndex < FIELDS
      modifies this
      ensures State() == Take(PadIndex, old(State()))
      ensures LeastPadding(old(argIndex), old(arg), thisArgIndex - old(argIndex))
      ensures argIndex == thisArgIndex < FIELDS && thisArg == old(arg)
      ensures |RT_SIZES| == FIELDS && arg == old(arg) + RT_SIZES[thisArgIndex] % 16
      ensures rtheader == old(rtheader)
    {
      ghost var i := argIndex;
      if Over(argIndex, arg) != 0 {
        argIndex := argIndex + (Align(argIndex) - Over(argIndex, arg));
      }
      assert argIndex == Jump(i, arg);
      JumpIsLeastPadding(i, arg);
      SizesAreTheTable(argIndex);
      thisArgIndex := argIndex;
      thisArg := arg;
      arg := arg + Len(argIndex);
    }
  }

  lemma {:induction false} NextOfPresent(s: Iter)
    requires s.argIndex < FIELDS && Low(s.shifter)
    ensures var s' := Take(PadIndex, s);
      Radiotap.Next(PadIndex, s) ==
        if s'.arg > s'.maxLength then (s', -EINVAL)
        else (s'.(argIndex := s'.argIndex + 1, shifter := s.shifter / 2), s'.thisArgIndex)
  {
  }

  lemma {:induction false} WithinFirstWord(i: nat)
    requires 0 < i <= FIELDS
    ensures i % 32 != 0
  {
  }

  lemma {:induction false} NextOfAbsent(s: Iter)
    requires s.argIndex < FIELDS && !Low(s.shifter)
    ensures Radiotap.Next(PadIndex, s) == Radiotap.Next(PadIndex, Skip(s))
  {
  }
}
