/**
 The capture table of client_main.c as values: what one callback does to it, and
 what a run of callbacks leaves.  Strings are C strings here; CaptureServer
 holds the char arrays.
 */
module Capture {
  import opened Wrappers
  import opened ByteOrder
  import opened CText
  import opened Radiotap
  import opened RadiotapTheorems

  /** What the behaviour depends on besides the frame: the byte order of the host and
      whether plain `char` is signed. */
  datatype Platform = Platform(host: Endian, charSigned: bool)

  datatype Rec = Rec(
    etherType: int, dataRateKbps: int, antenna: int, channel: int, power: int,
    ssid: string, src: string, dst: string, bssid: string)

  const MAX_PACKET_INFO_COUNT: nat := 50

  /** slots is the whole packet_info_array; only the first cur entries are visible. */
  datatype Table = Table(slots: seq<Rec>, cur: nat, infoCount: int, dups: nat, sameSsid: nat)

  predicate Valid(t: Table) {
    t.cur <= |t.slots|
  }

  function Saved(t: Table): (s: seq<Rec>)
    requires Valid(t)
    ensures |s| == t.cur
  {
    t.slots[..t.cur]
  }

  // ---------------------------------------------------------------- frames

  const BEACON := 0x8000
  const TAG_LENGTH_AT := 55
  const SSID_AT := 56
  const MAX_SSID := 14

  predicate FrameOk(f: seq<byte>) {
    && |f| >= 20
    && (EtherTypeOf(f) == BEACON ==>
          |f| >= SSID_AT && ByteAt(f, TAG_LENGTH_AT) <= MAX_SSID && |f| >= SSID_AT + ByteAt(f, TAG_LENGTH_AT))
  }

  function EtherTypeOf(f: seq<byte>): int
    requires |f| >= 20
  {
    BigU16(f, 18)
  }

  /** A captured frame: long enough for what the parser reads, and with an SSID of at
      most 14 bytes. */
  type Frame = f: seq<byte> | FrameOk(f) witness WitnessFrame()

  function WitnessFrame(): (f: seq<byte>)
    ensures FrameOk(f)
  {
    var f := seq(70, _ => 0 as byte);
    f
  }

  predicate IsBeacon(f: Frame) {
    EtherTypeOf(f) == BEACON
  }

  /** The advertised network name: the tag's bytes, as a C string. */
  function SsidOf(f: Frame): (s: string)
    requires IsBeacon(f)
    ensures |s| <= MAX_SSID
  {
    CStr(CharsOf(f[SSID_AT..SSID_AT + ByteAt(f, TAG_LENGTH_AT)]))
  }

  const DST_AT := 22
  const SRC_AT := 28
  const BSSID_AT := 34

  function AddressAt(f: Frame, o: nat): (s: string)
    requires o + 6 <= |f|
    ensures |s| <= 17
  {
    MacText(f[o..o + 6])
  }

  // ---------------------------------------------------------------- the radiotap part

  const BUFSIZ := 8192

  /** The header of a frame on which parseRadioTap is defined and returns: its memory is
      there, init succeeds, and the walk ends. */
  predicate HeaderOk(f: seq<byte>) {
    && InitReadable(f, BUFSIZ)
    && InitSucceeds(f, BUFSIZ)
    && ItLen(f) <= |f|
    && Last(Walk(f)).ret == END
  }

  function Walk(f: seq<byte>): (t: seq<Call>)
    requires |f| >= 8
    ensures |t| > 0
  {
    Trace(PadIndex, Start(f, 0))
  }

  predicate CallInBounds(f: seq<byte>, c: Call) {
    c.ret >= 0 ==> c.ret < FIELDS && c.offset >= 0 && EndOf(c.ret, c.offset) <= |f|
  }

  /** Every reported field lies in the frame. */
  predicate InBounds(f: seq<byte>, t: seq<Call>) {
    forall k :: 0 <= k < |t| ==> CallInBounds(f, t[k])
  }

  lemma {:induction false} WalkInBounds(f: seq<byte>)
    requires |f| >= 8 && ItLen(f) <= |f|
    ensures InBounds(f, Walk(f))
  {
    var s := Start(f, 0);
    var t := Walk(f);
    TraceEnding(PadIndex, s);
    forall k | 0 <= k < |t| ensures CallInBounds(f, t[k]) {
      if k < |t| - 1 {
        WrittenWalkTiles(s, k);
        assert t[k].offset >= 0;
      } else {
        assert t[k] == Last(t);
      }
    }
  }

  /** Where field i was last reported among the first n calls. */
  function Reported(f: seq<byte>, t: seq<Call>, n: nat, i: FieldIndex): (o: Option<nat>)
    requires n <= |t| && InBounds(f, t)
    ensures o.Some? ==> EndOf(i, o.value) <= |f|
  {
    if n == 0 then None
    else if t[n - 1].ret == i then Some(t[n - 1].offset)
    else Reported(f, t, n - 1, i)
  }

  function CharAt(p: Platform, f: seq<byte>, o: nat): (v: int)
    requires o < |f|
    ensures -128 <= v < 256
  {
    if p.charSigned && ByteAt(f, o) >= 128 then ByteAt(f, o) - 256 else ByteAt(f, o)
  }

  // The channel is read without conversion, in the byte order of the host.
  function ShortAt(p: Platform, f: seq<byte>, o: nat): (v: int)
    requires o + 2 <= |f|
    ensures 0 <= v < 65536
  {
    NativeU16(p.host, f, o)
  }

  /** The value of a plain `char` that holds b. */
  predicate IsChar(p: Platform, b: byte, v: int) {
    v % 256 == b as int && if p.charSigned then -128 <= v <= 127 else 0 <= v <= 255
  }

  lemma {:induction false} CharIsByte(p: Platform, f: seq<byte>, o: nat)
    requires o < |f|
    ensures IsChar(p, f[o], CharAt(p, f, o))
  {
  }

  lemma {:induction false} ShortIsLoad(p: Platform, f: seq<byte>, o: nat)
    requires o + 2 <= |f|
    ensures ShortAt(p, f, o) == Native16(p.host, f[o..o + 2]) as int
  {
    var b := f[o..o + 2];
    Join16Value(b[0], b[1]);
    Join16Value(b[1], b[0]);
  }

  /** The record after the first n calls of the walk have been handled. */
  function WithFields(p: Platform, f: seq<byte>, r: Rec, t: seq<Call>, n: nat): Rec
    requires n <= |t| && InBounds(f, t)
  {
    r.(
      dataRateKbps := (match Reported(f, t, n, RATE) case None => r.dataRateKbps case Some(o) => 500 * ByteAt(f, o)),
      antenna := (match Reported(f, t, n, ANTENNA) case None => r.antenna case Some(o) => ByteAt(f, o)),
      power := (match Reported(f, t, n, DBM_ANTSIGNAL) case None => r.power case Some(o) => CharAt(p, f, o)),
      channel := (match Reported(f, t, n, CHANNEL) case None => r.channel case Some(o) => ShortAt(p, f, o)))
  }

  /** The record after one field has been handled. */
  function Handled(p: Platform, f: seq<byte>, r: Rec, i: FieldIndex, o: nat): Rec
    requires EndOf(i, o) <= |f|
  {
    if i == RATE then r.(dataRateKbps := 500 * ByteAt(f, o))
    else if i == ANTENNA then r.(antenna := ByteAt(f, o))
    else if i == DBM_ANTSIGNAL then r.(power := CharAt(p, f, o))
    else if i == CHANNEL then r.(channel := ShortAt(p, f, o))
    else r
  }

  /** Field i of the header, if it is one of the four, stands in the record by its bytes. */
  predicate FieldStored(p: Platform, f: seq<byte>, i: FieldIndex, o: nat, q: Rec)
    requires EndOf(i, o) <= |f|
  {
    if i == 2 then q.dataRateKbps == 500 * (f[o] as int)
    else if i == 11 then q.antenna == f[o] as int
    else if i == 5 then IsChar(p, f[o], q.power)
    else if i == 3 then q.channel == Native16(p.host, f[o..o + 2]) as int
    else true
  }

  lemma {:induction false} StoredIfSo(p: Platform, f: seq<byte>, i: FieldIndex, o: nat, q: Rec)
    requires EndOf(i, o) <= |f|
    requires i == RATE ==> q.dataRateKbps == 500 * ByteAt(f, o)
    requires i == ANTENNA ==> q.antenna == ByteAt(f, o)
    requires i == DBM_ANTSIGNAL ==> q.power == CharAt(p, f, o)
    requires i == CHANNEL ==> o + 2 <= |f| && q.channel == ShortAt(p, f, o)
    ensures FieldStored(p, f, i, o, q)
  {
    if i == 5 {
      CharIsByte(p, f, o);
    } else if i == 3 {
      ShortIsLoad(p, f, o);
    }
  }

  /** Handling a field stores it so, and changes nothing else. */
  lemma {:induction false} HandledByBytes(p: Platform, f: seq<byte>, r: Rec, i: FieldIndex, o: nat)
    requires EndOf(i, o) <= |f|
    ensures FieldStored(p, f, i, o, Handled(p, f, r, i, o))
    ensures var q := Handled(p, f, r, i, o);
      q == r.(dataRateKbps := if i == 2 then q.dataRateKbps else r.dataRateKbps,
              antenna := if i == 11 then q.antenna else r.antenna,
              power := if i == 5 then q.power else r.power,
              channel := if i == 3 then q.channel else r.channel)
  {
    StoredIfSo(p, f, i, o, Handled(p, f, r, i, o));
  }

  lemma {:induction false} WithFieldsStep(p: Platform, f: seq<byte>, r: Rec, t: seq<Call>, n: nat)
    requires n < |t| && InBounds(f, t) && t[n].ret >= 0
    ensures WithFields(p, f, r, t, n + 1) == Handled(p, f, WithFields(p, f, r, t, n), t[n].ret, t[n].offset)
  {
    assert CallInBounds(f, t[n]);
  }

  // The last call of a walk reports nothing.
  lemma {:induction false} WithFieldsEnd(p: Platform, f: seq<byte>, r: Rec, t: seq<Call>)
    requires |t| > 0 && InBounds(f, t) && t[|t| - 1].ret < 0
    ensures WithFields(p, f, r, t, |t|) == WithFields(p, f, r, t, |t| - 1)
  {
  }

  function WithRadiotap(p: Platform, f: seq<byte>, r: Rec): Rec {
    if HeaderOk(f) then
      WalkInBounds(f);
      WithFields(p, f, r, Walk(f), |Walk(f)|)
    else r
  }

  // ---------------------------------------------------------------- one callback

  /** The index of the first record with this SSID and BSSID, or |s|. */
  function FirstMatch(s: seq<Rec>, ssid: string, bssid: string): (k: nat)
    ensures k <= |s|
    ensures k < |s| ==> s[k].ssid == ssid && s[k].bssid == bssid
    ensures forall j :: 0 <= j < k ==> s[j].ssid != ssid || s[j].bssid != bssid
  {
    if s == [] || (s[0].ssid == ssid && s[0].bssid == bssid) then 0
    else 1 + FirstMatch(s[1..], ssid, bssid)
  }

  function CountSsid(s: seq<Rec>, ssid: string): (n: nat)
    ensures n <= |s|
  {
    if s == [] then 0
    else CountSsid(s[..|s| - 1], ssid) + if s[|s| - 1].ssid == ssid then 1 else 0
  }

  /** What the search adds to packets_same_ssid_diff_bssid while passing over s. */
  function CountOther(s: seq<Rec>, ssid: string, bssid: string): nat {
    if s == [] then 0
    else
      var r := s[|s| - 1];
      CountOther(s[..|s| - 1], ssid, bssid) + if r.ssid == ssid && r.bssid != bssid then 1 else 0
  }

  function WithKey(f: Frame, r: Rec): Rec
    requires IsBeacon(f)
  {
    r.(etherType := BEACON, ssid := SsidOf(f), bssid := AddressAt(f, BSSID_AT))
  }

  function WithAddresses(f: Frame, r: Rec): Rec
    requires IsBeacon(f)
  {
    r.(dst := AddressAt(f, DST_AT), src := AddressAt(f, SRC_AT))
  }

  /** A saved beacon written over whatever its slot held. */
  function Fill(p: Platform, f: Frame, r: Rec): Rec
    requires IsBeacon(f)
  {
    WithRadiotap(p, f, WithAddresses(f, WithKey(f, r)))
  }

  function Put(t: Table, r: Rec): Table
    requires Valid(t) && t.cur < |t.slots|
  {
    t.(slots := t.slots[t.cur := r])
  }

  lemma {:induction false} PutPut(t: Table, a: Rec, b: Rec)
    requires Valid(t) && t.cur < |t.slots|
    ensures Put(Put(t, a), b) == Put(t, b) && Saved(Put(t, a)) == Saved(t)
    ensures Put(t, a).slots[t.cur] == a
  {
    assert t.slots[t.cur := a][t.cur := b] == t.slots[t.cur := b];
  }

  function Keep(t: Table, r: Rec): Table
    requires Valid(t) && t.cur < |t.slots|
  {
    Put(t, r).(cur := t.cur + 1, infoCount := t.infoCount + 1)
  }

  /** Where the search for the key of beacon f stops. */
  function MatchOf(t: Table, f: Frame): (m: nat)
    requires Valid(t) && IsBeacon(f)
    ensures m <= t.cur
  {
    FirstMatch(Saved(t), SsidOf(f), AddressAt(f, BSSID_AT))
  }

  function Searched(t: Table, f: Frame): Table
    requires Valid(t) && IsBeacon(f)
  {
    var passed := Saved(t)[..MatchOf(t, f)];
    t.(sameSsid := t.sameSsid + CountOther(passed, SsidOf(f), AddressAt(f, BSSID_AT)),
       dups := t.dups + if MatchOf(t, f) < t.cur then 1 else 0)
  }

  // The search does not look at the slot being filled.
  lemma {:induction false} SearchedPut(t: Table, f: Frame, a: Rec, b: Rec)
    requires Valid(t) && t.cur < |t.slots| && IsBeacon(f)
    ensures MatchOf(Put(t, a), f) == MatchOf(t, f)
    ensures Searched(Put(t, a), f) == Put(Searched(t, f), a)
    ensures Put(Searched(Put(t, a), f), b) == Put(Searched(t, f), b)
  {
    PutPut(t, a, b);
    PutPut(Searched(t, f), a, b);
  }

  datatype Outcome = Kept | Duplicate | ZeroType | Skipped

  function OutcomeOf(t: Table, f: Frame): Outcome
    requires Valid(t)
  {
    if t.cur >= |t.slots| then Skipped
    else if IsBeacon(f) then (if MatchOf(t, f) < t.cur then Duplicate else Kept)
    else if EtherTypeOf(f) == 0 then ZeroType
    else Kept
  }

  /** packet_capture_callback. */
  function Deliver(p: Platform, t: Table, f: Frame): (t': Table)
    requires Valid(t)
    ensures Valid(t') && |t'.slots| == |t.slots|
  {
    var o := OutcomeOf(t, f);
    if o == Skipped then t
    else
      var r := t.slots[t.cur];
      if IsBeacon(f) then
        if o == Duplicate then Put(Searched(t, f), WithKey(f, r)) else Keep(Searched(t, f), Fill(p, f, r))
      else
        var r' := r.(etherType := EtherTypeOf(f));
        if o == ZeroType then Put(t, r') else Keep(t, r')
  }

  /** parse_ethernet: the table it leaves and the value it returns. */
  function EthernetPart(t: Table, f: Frame): (t': Table)
    requires Valid(t) && t.cur < |t.slots|
    ensures Valid(t') && t'.cur == t.cur && |t'.slots| == |t.slots|
  {
    var r := t.slots[t.cur];
    if !IsBeacon(f) then Put(t, r.(etherType := EtherTypeOf(f)))
    else if MatchOf(t, f) < t.cur then Put(Searched(t, f), WithKey(f, r))
    else Put(Searched(t, f), WithAddresses(f, WithKey(f, r)))
  }

  function EthernetResult(t: Table, f: Frame): int
    requires Valid(t)
  {
    if !IsBeacon(f) then EtherTypeOf(f)
    else if MatchOf(t, f) < t.cur then 0
    else BEACON
  }

  // Storing the frame type first makes no difference for a beacon.
  lemma {:induction false} BeaconTypeFirst(t: Table, f: Frame)
    requires Valid(t) && t.cur < |t.slots| && IsBeacon(f)
    ensures var u := Put(t, t.slots[t.cur].(etherType := BEACON));
      EthernetPart(u, f) == EthernetPart(t, f) && EthernetResult(u, f) == EthernetResult(t, f)
  {
    var r := t.slots[t.cur].(etherType := BEACON);
    PutPut(t, r, r);
    SearchedPut(t, f, r, WithKey(f, r));
    SearchedPut(t, f, r, WithAddresses(f, WithKey(f, r)));
  }

  // The callback in terms of parse_ethernet and parseRadioTap.
  lemma {:induction false} DeliverParts(p: Platform, t: Table, f: Frame)
    requires Valid(t) && t.cur < |t.slots|
    ensures var t1, ret := EthernetPart(t, f), EthernetResult(t, f);
      var r1 := t1.slots[t.cur];
      && (ret == 0 ==> Deliver(p, t, f) == t1)
      && (ret != 0 ==> r1.etherType == ret
                       && Deliver(p, t, f) == Keep(t1, if ret == BEACON then WithRadiotap(p, f, r1) else r1))
      && (ret == BEACON <==> IsBeacon(f) && OutcomeOf(t, f) == Kept)
  {
    var t1 := EthernetPart(t, f);
    assert t1.slots[t.cur := t1.slots[t.cur]] == t1.slots;
  }

  /** What the callback needs of its frame: a beacon that is going to be kept has a
      header on which parseRadioTap returns. */
  predicate Legal(t: Table, f: Frame)
    requires Valid(t)
  {
    IsBeacon(f) && OutcomeOf(t, f) == Kept ==> HeaderOk(f)
  }

  // ---------------------------------------------------------------- runs

  function Run(p: Platform, t: Table, fs: seq<Frame>): (t': Table)
    requires Valid(t)
    ensures Valid(t') && |t'.slots| == |t.slots|
  {
    if fs == [] then t else Deliver(p, Run(p, t, fs[..|fs| - 1]), fs[|fs| - 1])
  }

  predicate LegalRun(p: Platform, t: Table, fs: seq<Frame>)
    requires Valid(t)
  {
    fs == [] || (LegalRun(p, t, fs[..|fs| - 1]) && Legal(Run(p, t, fs[..|fs| - 1]), fs[|fs| - 1]))
  }

  /** The resets at the start of capture_packets. */
  function Reset(t: Table): (t': Table)
    requires Valid(t)
    ensures Valid(t')
  {
    t.(cur := 0, infoCount := 0, dups := 0, sameSsid := 0)
  }
}
