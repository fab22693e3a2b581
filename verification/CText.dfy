/**
 C strings, the signed decimal of `%i`, and the text of `ether_ntoa`.
 */
module CText {
  import opened Wrappers
  import opened ByteOrder

  const NUL: char := '\0'

  /** The string a char array holds: everything before the first NUL. */
  function CStr(buf: seq<char>): (s: string)
    ensures NUL !in s
    ensures |s| <= |buf|
  {
    if buf == [] || buf[0] == NUL then [] else [buf[0]] + CStr(buf[1..])
  }

  lemma {:induction false} CStrOfTerminated(s: string, rest: seq<char>)
    requires NUL !in s
    ensures CStr(s + [NUL] + rest) == s
  {
    var buf := s + [NUL] + rest;
    if s != [] {
      assert buf[1..] == s[1..] + [NUL] + rest;
      CStrOfTerminated(s[1..], rest);
    }
  }

  lemma {:induction false} CStrOfNulFree(s: string)
    requires NUL !in s
    ensures CStr(s) == s
  {
    if s != [] {
      CStrOfNulFree(s[1..]);
    }
  }

  lemma {:induction false} CStrUpTo(buf: seq<char>, n: nat)
    requires n < |buf| && buf[n] == NUL && NUL !in buf[..n]
    ensures CStr(buf) == buf[..n]
  {
    assert buf == buf[..n] + [NUL] + buf[n + 1..];
    CStrOfTerminated(buf[..n], buf[n + 1..]);
  }

  /** A terminator at n: the string is that of the n characters before it. */
  lemma {:induction false} CStrOfCopied(buf: seq<char>, n: nat)
    requires n < |buf| && buf[n] == NUL
    ensures CStr(buf) == CStr(buf[..n])
  {
    if n > 0 {
      assert buf[..n][1..] == buf[1..][..n - 1];
      CStrOfCopied(buf[1..], n - 1);
    }
  }

  /** Only the part up to the first NUL counts. */
  lemma {:induction false} CStrOfPrefix(buf: seq<char>, n: nat)
    requires n <= |buf| && NUL in buf[..n]
    ensures CStr(buf) == CStr(buf[..n])
  {
    if buf[0] != NUL {
      assert buf[..n][1..] == buf[1..][..n - 1];
      assert buf[..n] == [buf[0]] + buf[1..][..n - 1];
      CStrOfPrefix(buf[1..], n - 1);
    }
  }

  /** Copying n characters and a terminator keeps any string of at most n characters. */
  lemma {:induction false} CopyKeepsCStr(buf: seq<char>, n: nat)
    requires |CStr(buf)| <= n <= |buf|
    ensures CStr(buf[..n] + [NUL]) == CStr(buf)
  {
    if n > 0 {
      assert (buf[..n] + [NUL])[1..] == buf[1..][..n - 1] + [NUL];
      if buf[0] != NUL {
        CopyKeepsCStr(buf[1..], n - 1);
      }
    }
  }

  function CharOf(b: byte): char {
    (b as int) as char
  }

  function CharsOf(bytes: seq<byte>): (s: string)
    ensures |s| == |bytes|
  {
    seq(|bytes|, k requires 0 <= k < |bytes| => CharOf(bytes[k]))
  }

  /** s is the text that the bytes hold: their characters up to the first zero. */
  predicate HoldsText(bytes: seq<byte>, s: string) {
    && |s| <= |bytes|
    && (forall k :: 0 <= k < |s| ==> s[k] as int == bytes[k] as int != 0)
    && (|s| < |bytes| ==> bytes[|s|] as int == 0)
  }

  lemma {:induction false} CStrIsPrefix(buf: seq<char>)
    ensures CStr(buf) == buf[..|CStr(buf)|]
    ensures |CStr(buf)| < |buf| ==> buf[|CStr(buf)|] == NUL
  {
    if buf != [] && buf[0] != NUL {
      CStrIsPrefix(buf[1..]);
    }
  }

  /** Each character has the code of its byte. */
  lemma {:induction false} CStrOfBytes(bytes: seq<byte>)
    ensures HoldsText(bytes, CStr(CharsOf(bytes)))
  {
    var buf := CharsOf(bytes);
    CStrIsPrefix(buf);
    forall k | 0 <= k < |CStr(buf)| ensures CStr(buf)[k] as int == bytes[k] as int != 0 {
      assert CStr(buf)[k] == buf[k] && CStr(buf)[k] in CStr(buf);
    }
  }

  /** Characters that may stand unescaped in a JSON string (section 7 of RFC 8259). */
  predicate Plain(s: string) {
    forall c <- s :: c != '"' && c != '\\' && c >= ' '
  }

  // ---------------------------------------------------------------- decimals

  function Digit(d: nat): char
    requires d < 10
  {
    '0' + d as char
  }

  function Digits(n: nat): (s: string)
    ensures |s| > 0
    ensures forall c <- s :: '0' <= c <= '9'
  {
    if n < 10 then [Digit(n)] else Digits(n / 10) + [Digit(n % 10)]
  }

  /** `%i` */
  function Decimal(n: int): (s: string)
    ensures forall c <- s :: c == '-' || '0' <= c <= '9'
  {
    if n < 0 then "-" + Digits(-n) else Digits(n)
  }

  function ParseDigits(s: string): Option<nat> {
    if s == [] then None
    else
      var c := s[|s| - 1];
      if !('0' <= c <= '9') then None
      else
        var d := (c - '0') as nat;
        if |s| == 1 then Some(d)
        else
          match ParseDigits(s[..|s| - 1])
          case None => None
          case Some(n) => Some(10 * n + d)
  }

  function ParseDecimal(s: string): Option<int> {
    if s != [] && s[0] == '-' then
      match ParseDigits(s[1..])
      case None => None
      case Some(n) => Some(-(n as int))
    else
      match ParseDigits(s)
      case None => None
      case Some(n) => Some(n)
  }

  lemma {:induction false} ParseDigitsInverts(n: nat)
    ensures ParseDigits(Digits(n)) == Some(n)
  {
    if n >= 10 {
      var s := Digits(n);
      assert s[..|s| - 1] == Digits(n / 10);
      ParseDigitsInverts(n / 10);
    }
  }

  lemma {:induction false} ParseDecimalInverts(n: int)
    ensures ParseDecimal(Decimal(n)) == Some(n)
  {
    if n < 0 {
      assert Decimal(n)[1..] == Digits(-n);
      ParseDigitsInverts(-n);
    } else {
      ParseDigitsInverts(n);
      assert Decimal(n)[0] in Decimal(n);
    }
  }

  lemma {:induction false} DecimalWidth(n: int)
    ensures 0 <= n < 10 ==> |Decimal(n)| == 1
    ensures 10 <= n < 100 ==> |Decimal(n)| == 2
    ensures 100 <= n < 1000 ==> |Decimal(n)| == 3
    ensures 1000 <= n < 10000 ==> |Decimal(n)| == 4
    ensures 10000 <= n < 100000 ==> |Decimal(n)| == 5
    ensures 100000 <= n < 1000000 ==> |Decimal(n)| == 6
    ensures -1000 < n < 0 ==> |Decimal(n)| <= 4
  {
    DigitsWidth(if n < 0 then -n else n);
  }

  lemma {:induction false} DigitsWidth(n: nat)
    ensures n < 10 ==> |Digits(n)| == 1
    ensures 10 <= n < 100 ==> |Digits(n)| == 2
    ensures 100 <= n < 1000 ==> |Digits(n)| == 3
    ensures 1000 <= n < 10000 ==> |Digits(n)| == 4
    ensures 10000 <= n < 100000 ==> |Digits(n)| == 5
    ensures 100000 <= n < 1000000 ==> |Digits(n)| == 6
  {
    if n >= 10 {
      DigitsWidth(n / 10);
    }
  }

  // ---------------------------------------------------------------- Ethernet addresses

  function HexDigit(d: nat): char
    requires d < 16
  {
    if d < 10 then '0' + d as char else 'a' + (d - 10) as char
  }

  /** `%x` of a value below 256. */
  function Hex(n: nat): (s: string)
    requires n < 256
    ensures 1 <= |s| <= 2
    ensures forall c <- s :: '0' <= c <= '9' || 'a' <= c <= 'f'
  {
    if n < 16 then [HexDigit(n)] else [HexDigit(n / 16), HexDigit(n % 16)]
  }

  function HexByte(b: byte): (s: string)
    ensures 1 <= |s| <= 2
    ensures forall c <- s :: '0' <= c <= '9' || 'a' <= c <= 'f'
  {
    Hex(b as nat)
  }

  /** The text of ether_ntoa: the bytes in unpadded lower-case hex, separated by colons. */
  function MacText(m: seq<byte>): (s: string)
    requires |m| > 0
    ensures 2 * |m| - 1 <= |s| <= 3 * |m| - 1
    ensures forall c <- s :: '0' <= c <= '9' || 'a' <= c <= 'f' || c == ':'
    decreases |m|, 0
  {
    if |m| == 1 then HexByte(m[0]) else HexByte(m[0]) + MacRest(m[1..])
  }

  function MacRest(m: seq<byte>): (s: string)
    requires |m| > 0
    ensures 2 * |m| <= |s| <= 3 * |m|
    ensures forall c <- s :: '0' <= c <= '9' || 'a' <= c <= 'f' || c == ':'
    decreases |m|, 1
  {
    ":" + MacText(m)
  }

  /** Bytes of two digits each. */
  lemma {:induction false} MacTextWidth(m: seq<byte>)
    requires |m| > 0 && forall k :: 0 <= k < |m| ==> m[k] as nat >= 16
    ensures |MacText(m)| == 3 * |m| - 1
    decreases |m|
  {
    assert |HexByte(m[0])| == 2;
    if |m| > 1 {
      MacTextWidth(m[1..]);
    }
  }

  lemma {:induction false} HexIsInjective(a: nat, b: nat)
    requires a < 256 && b < 256 && Hex(a) == Hex(b)
    ensures a == b
  {
  }

  lemma {:induction false} HexByteIsInjective(a: byte, b: byte)
    requires HexByte(a) == HexByte(b)
    ensures a == b
  {
    HexIsInjective(a as nat, b as nat);
    assert (a as nat) as byte == (b as nat) as byte;
  }

  lemma {:induction false} LongerHasColon(s: string, t: string, x: string, y: string)
    requires |s| < |t| && s + x == t + y && (x == "" || x[0] == ':')
    ensures ':' in t
  {
    assert |s + x| == |t + y|;
    assert t[|s|] == (t + y)[|s|] == (s + x)[|s|] == x[0];
  }

  // Texts without colons, up to the first colon or the end.
  lemma {:induction false} SplitAtColon(s: string, t: string, x: string, y: string)
    requires ':' !in s && ':' !in t
    requires s + x == t + y
    requires (x == "" || x[0] == ':') && (y == "" || y[0] == ':')
    ensures s == t && x == y
  {
    if |s| < |t| {
      LongerHasColon(s, t, x, y);
    } else if |t| < |s| {
      LongerHasColon(t, s, y, x);
    }
    assert s == (s + x)[..|s|] == (t + y)[..|t|] == t;
    assert x == (s + x)[|s|..] == (t + y)[|t|..] == y;
  }

  /** Two addresses of the same length have the same text only if they are the same. */
  lemma {:induction false} MacTextIsInjective(m: seq<byte>, n: seq<byte>)
    requires |m| == |n| > 0
    ensures MacText(m) == MacText(n) <==> m == n
    decreases |m|
  {
    if MacText(m) == MacText(n) {
      if |m| == 1 {
        HexByteIsInjective(m[0], n[0]);
      } else {
        SplitAtColon(HexByte(m[0]), HexByte(n[0]), MacRest(m[1..]), MacRest(n[1..]));
        HexByteIsInjective(m[0], n[0]);
        assert MacText(m[1..]) == MacRest(m[1..])[1..];
        assert MacText(n[1..]) == MacRest(n[1..])[1..];
        MacTextIsInjective(m[1..], n[1..]);
        assert m == [m[0]] + m[1..] && n == [n[0]] + n[1..];
      }
    }
  }

  // ---------------------------------------------------------------- reading them

  function HexValue(c: char): (v: int)
    ensures -1 <= v < 16
  {
    if '0' <= c <= '9' then (c - '0') as int
    else if 'a' <= c <= 'f' then (c - 'a') as int + 10
    else if 'A' <= c <= 'F' then (c - 'A') as int + 10
    else -1
  }

  /** One hex digit, or two of which the first is not zero, the higher first. */
  function ReadPart(s: string): Option<nat> {
    if |s| == 1 && HexValue(s[0]) >= 0 then Some(HexValue(s[0]))
    else if |s| == 2 && HexValue(s[0]) >= 1 && HexValue(s[1]) >= 0 then Some(16 * HexValue(s[0]) + HexValue(s[1]))
    else None
  }

  function FirstColon(s: string): (n: nat)
    ensures n <= |s| && ':' !in s[..n]
    ensures n < |s| ==> s[n] == ':'
  {
    if s == "" || s[0] == ':' then 0 else 1 + FirstColon(s[1..])
  }

  /** The numbers of a text of parts separated by colons. */
  function ReadMac(s: string): Option<seq<nat>>
    decreases |s|
  {
    var n := FirstColon(s);
    match ReadPart(s[..n])
    case None => None
    case Some(b) =>
      if n == |s| then Some([b])
      else
        match ReadMac(s[n + 1..])
        case None => None
        case Some(bs) => Some([b] + bs)
  }

  function Numbers(m: seq<byte>): (v: seq<nat>)
    ensures |v| == |m| && forall k :: 0 <= k < |m| ==> v[k] == m[k] as nat
  {
    seq(|m|, k requires 0 <= k < |m| => m[k] as nat)
  }

  lemma {:induction false} ReadPartInverts(n: nat)
    requires n < 256
    ensures ReadPart(Hex(n)) == Some(n)
  {
  }

  lemma {:induction false} FirstColonAt(s: string, t: string)
    requires ':' !in s && (t == "" || t[0] == ':')
    ensures FirstColon(s + t) == |s| && (s + t)[..|s|] == s && (s + t)[|s|..] == t
  {
    assert (s + t)[..|s|] == s;
    FirstColonIs(s + t, |s|);
  }

  lemma {:induction false} FirstColonIs(s: string, n: nat)
    requires n <= |s| && ':' !in s[..n] && (n < |s| ==> s[n] == ':')
    ensures FirstColon(s) == n
  {
    if n > 0 {
      assert s[..n][0] == s[0] && s[1..][..n - 1] == s[..n][1..];
      FirstColonIs(s[1..], n - 1);
    }
  }

  lemma {:induction false} ReadMacStep(s: string, b: nat, t: string)
    requires ':' !in s && ReadPart(s) == Some(b)
    ensures ReadMac(s) == Some([b])
    ensures ReadMac(s + (":" + t)) == match ReadMac(t) case None => None case Some(bs) => Some([b] + bs)
  {
    FirstColonAt(s, "");
    assert s + "" == s;
    FirstColonAt(s, ":" + t);
    assert (s + (":" + t))[|s| + 1..] == t;
  }

  /** The text of an address reads back as its bytes, in order. */
  lemma {:induction false} ReadMacInverts(m: seq<byte>)
    requires |m| > 0
    ensures ReadMac(MacText(m)) == Some(Numbers(m))
    decreases |m|
  {
    var s := HexByte(m[0]);
    ReadPartInverts(m[0] as nat);
    if |m| == 1 {
      ReadMacStep(s, m[0] as nat, "");
      assert [m[0] as nat] == Numbers(m);
    } else {
      ReadMacStep(s, m[0] as nat, MacText(m[1..]));
      ReadMacInverts(m[1..]);
      assert [m[0] as nat] + Numbers(m[1..]) == Numbers(m);
    }
  }
}
