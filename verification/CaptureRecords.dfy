/**
 What the saved records hold, in terms of the frames that arrived, and some frames
 that show where the limits are.
 */
module CaptureRecords {
  import opened ByteOrder
  import opened CText
  import opened Radiotap
  import opened RadiotapTheorems
  import opened Capture
  import opened CaptureTheorems
  import opened Json

  // ---------------------------------------------------------------- the first frame of each key

  /** The beacons that were the first with their key. */
  function FirstFrames(fs: seq<Frame>): (ff: seq<Frame>)
    requires AllBeacons(fs)
    ensures AllBeacons(ff) && |ff| <= |fs|
  {
    if fs == [] then []
    else
      var front, f := fs[..|fs| - 1], fs[|fs| - 1];
      var ff := FirstFrames(front);
      if KeyOf(f) in ArrivalKeys(front) then ff else Snoc(ff, f)
  }

  function Snoc(fs: seq<Frame>, f: Frame): (r: seq<Frame>)
    requires AllBeacons(fs) && IsBeacon(f)
    ensures |r| == |fs| + 1 && AllBeacons(r) && r[..|fs|] == fs && r[|fs|] == f
  {
    fs + [f]
  }

  lemma {:induction false} ArrivalKeysAt(fs: seq<Frame>, k: nat)
    requires AllBeacons(fs) && k < |fs|
    ensures IsBeacon(fs[k]) && ArrivalKeys(fs)[k] == KeyOf(fs[k])
    decreases |fs|
  {
    if k < |fs| - 1 {
      ArrivalKeysAt(fs[..|fs| - 1], k);
    }
  }

  /** Their keys are the distinct keys of all arrivals. */
  lemma {:induction false} FirstFramesHaveDistinctKeys(fs: seq<Frame>)
    requires AllBeacons(fs)
    ensures ArrivalKeys(FirstFrames(fs)) == Distinct(ArrivalKeys(fs))
    decreases |fs|
  {
    if fs != [] {
      var front := fs[..|fs| - 1];
      FirstFramesHaveDistinctKeys(front);
      assert ArrivalKeys(fs)[..|fs| - 1] == ArrivalKeys(front);
    }
  }

  lemma {:induction false} FirstFrameArrived(fs: seq<Frame>, k: nat)
    requires AllBeacons(fs) && k < |FirstFrames(fs)|
    ensures IsBeacon(FirstFrames(fs)[k]) && exists j :: 0 <= j < |fs| && fs[j] == FirstFrames(fs)[k]
    decreases |fs|
  {
    var front := fs[..|fs| - 1];
    if k < |FirstFrames(front)| {
      FirstFrameArrived(front, k);
      var j :| 0 <= j < |front| && front[j] == FirstFrames(front)[k];
      assert fs[j] == FirstFrames(fs)[k];
    } else {
      assert fs[|fs| - 1] == FirstFrames(fs)[k];
    }
  }

  predicate KeysDiffer(fs: seq<Frame>)
    requires AllBeacons(fs)
  {
    fs == [] || (KeysDiffer(fs[..|fs| - 1]) && KeyOf(fs[|fs| - 1]) !in ArrivalKeys(fs[..|fs| - 1]))
  }

  lemma {:induction false} KeysDifferMeans(fs: seq<Frame>)
    requires AllBeacons(fs) && forall k :: 0 <= k < |fs| ==> IsBeacon(fs[k])
    requires forall j, k :: 0 <= j < k < |fs| ==> KeyOf(fs[j]) != KeyOf(fs[k])
    ensures KeysDiffer(fs)
    decreases |fs|
  {
    if fs != [] {
      var n := |fs| - 1;
      var front := fs[..n];
      assert forall k :: 0 <= k < n ==> front[k] == fs[k];
      KeysDifferMeans(front);
      forall j | 0 <= j < n ensures ArrivalKeys(front)[j] != KeyOf(fs[n]) {
        ArrivalKeysAt(front, j);
      }
    }
  }

  lemma {:induction false} FirstFramesOfDistinct(fs: seq<Frame>)
    requires AllBeacons(fs) && KeysDiffer(fs)
    ensures FirstFrames(fs) == fs
    decreases |fs|
  {
    if fs != [] {
      FirstFramesOfDistinct(fs[..|fs| - 1]);
      assert Snoc(fs[..|fs| - 1], fs[|fs| - 1]) == fs;
    }
  }

  // One more arrival.
  lemma {:induction false} FirstFramesStep(fs: seq<Frame>)
    requires AllBeacons(fs) && fs != []
    ensures var front, f := fs[..|fs| - 1], fs[|fs| - 1];
      var ff, gg := FirstFrames(front), FirstFrames(fs);
      && |gg| == |ff| + (if KeyOf(f) in ArrivalKeys(front) then 0 else 1)
      && (forall k :: 0 <= k < |ff| ==> gg[k] == ff[k])
      && (|gg| > |ff| ==> gg[|ff|] == f)
  {
  }

  lemma {:induction false} WithFieldsTwice(p: Platform, f: seq<byte>, r: Rec, t: seq<Call>, n: nat, q: Rec)
    requires n <= |t| && InBounds(f, t)
    requires q.(dataRateKbps := 0, antenna := 0, channel := 0, power := 0)
          == r.(dataRateKbps := 0, antenna := 0, channel := 0, power := 0)
    requires q == WithFields(p, f, r, t, n)
    ensures WithFields(p, f, q, t, n) == q
  {
  }

  /** Filling a slot again with the same frame changes nothing, so `Fill(p, f, r) == r`
      says that r is a record filled from f. */
  lemma {:induction false} FillTwice(p: Platform, f: Frame, r: Rec)
    requires IsBeacon(f)
    ensures Fill(p, f, Fill(p, f, r)) == Fill(p, f, r)
  {
    var r1, q := WithAddresses(f, WithKey(f, r)), Fill(p, f, r);
    assert WithAddresses(f, WithKey(f, q)) == q;
    if HeaderOk(f) {
      WalkInBounds(f);
      WithFieldsTwice(p, f, r1, Walk(f), |Walk(f)|, q);
    }
  }

  predicate FilledFrom(p: Platform, rs: seq<Rec>, fs: seq<Frame>)
    requires AllBeacons(fs)
  {
    |rs| <= |fs| && forall k :: 0 <= k < |rs| ==> IsBeacon(fs[k]) && Fill(p, fs[k], rs[k]) == rs[k]
  }

  lemma {:induction false} KeptIffNewKey(p: Platform, t: Table, front: seq<Frame>, f: Frame)
    requires Valid(t) && t.cur == 0 && AllBeacons(front) && IsBeacon(f)
    ensures var u := Run(p, t, front);
      && u.cur == |AtMost(Distinct(ArrivalKeys(front)), |t.slots|)|
      && (u.cur < |t.slots| ==> (OutcomeOf(u, f) == Kept <==> KeyOf(f) !in ArrivalKeys(front)))
      && (u.cur == |t.slots| ==> OutcomeOf(u, f) == Skipped)
  {
    var u := Run(p, t, front);
    SavedAreFirstOccurrences(p, t, front);
    MatchIffKeySaved(u, f);
  }

  /** Every saved record was filled from the first beacon that carried its key, and they
      are in order of arrival: one for each distinct key, as far as there are slots. */
  lemma {:induction false} SavedAreFirstFrames(p: Platform, t: Table, fs: seq<Frame>)
    requires Valid(t) && t.cur == 0 && AllBeacons(fs) && LegalRun(p, t, fs)
    ensures var s, ff := Saved(Run(p, t, fs)), FirstFrames(fs);
      FilledFrom(p, s, ff) && |s| == if |ff| <= |t.slots| then |ff| else |t.slots|
    decreases |fs|
  {
    if fs != [] {
      var front, f := fs[..|fs| - 1], fs[|fs| - 1];
      var u, ff := Run(p, t, front), FirstFrames(front);
      SavedAreFirstFrames(p, t, front);
      KeptIffNewKey(p, t, front, f);
      if OutcomeOf(u, f) == Kept {
        KeptBeacon(p, u, f);
        FillTwice(p, f, u.slots[u.cur]);
        FilledFromSnoc(p, Saved(u), ff, Fill(p, f, u.slots[u.cur]), f);
      } else {
        OthersKeepSaved(p, u, f);
        if KeyOf(f) !in ArrivalKeys(front) {
          FilledFromMore(p, Saved(u), ff, f);
        }
      }
    }
  }

  lemma {:induction false} FilledFromSnoc(p: Platform, rs: seq<Rec>, fs: seq<Frame>, r: Rec, f: Frame)
    requires AllBeacons(fs) && FilledFrom(p, rs, fs) && |rs| == |fs|
    requires IsBeacon(f) && Fill(p, f, r) == r
    ensures FilledFrom(p, rs + [r], Snoc(fs, f))
  {
    assert forall k :: 0 <= k < |fs| ==> Snoc(fs, f)[k] == fs[k];
  }

  lemma {:induction false} FilledFromMore(p: Platform, rs: seq<Rec>, fs: seq<Frame>, f: Frame)
    requires AllBeacons(fs) && FilledFrom(p, rs, fs) && IsBeacon(f)
    ensures FilledFrom(p, rs, Snoc(fs, f))
  {
    assert forall k :: 0 <= k < |fs| ==> Snoc(fs, f)[k] == fs[k];
  }

  /** When the kept beacons report all four radio fields, so do the first frames that
      found a slot. */
  lemma {:induction false} FirstFramesReport(p: Platform, t: Table, fs: seq<Frame>, k: nat)
    requires Valid(t) && t.cur == 0 && AllBeacons(fs) && KeepsReportAll(p, t, fs)
    requires k < |FirstFrames(fs)| && k < Run(p, t, fs).cur
    ensures ReportsAll(FirstFrames(fs)[k])
    decreases |fs|
  {
    var front, f := fs[..|fs| - 1], fs[|fs| - 1];
    var u, n := Run(p, t, front), |FirstFrames(front)|;
    FirstFramesStep(fs);
    FirstFramesHaveDistinctKeys(front);
    KeptIffNewKey(p, t, front, f);
    DeliverCounts(p, u, f);
    if k < n && k < u.cur {
      FirstFramesReport(p, t, front, k);
    } else {
      assert OutcomeOf(u, f) == Kept && k == u.cur == n;
    }
  }

  /** So the record is that frame's alone. */
  lemma {:induction false} SavedAreOfTheirFrames(p: Platform, t: Table, fs: seq<Frame>, k: nat, r: Rec)
    requires Valid(t) && t.cur == 0 && AllBeacons(fs) && KeepsReportAll(p, t, fs)
    requires k < |Saved(Run(p, t, fs))|
    ensures k < |FirstFrames(fs)| && IsBeacon(FirstFrames(fs)[k])
    ensures Saved(Run(p, t, fs))[k] == Fill(p, FirstFrames(fs)[k], r)
  {
    ReportingRunsAreLegal(p, t, fs);
    SavedAreFirstFrames(p, t, fs);
    FirstFramesReport(p, t, fs, k);
    FillForgetsIff(p, FirstFrames(fs)[k]);
  }

  // ---------------------------------------------------------------- the longest records

  /** A byte of a beacon behind a standard header whose radio fields are as large as they
      can be, and whose signal byte is 0x80.  Addresses consist of 0x11, up to the last
      two bytes of the BSSID, and the SSID repeats one byte. */
  function ExampleByte(k: nat, a: byte, b: byte, length: byte, c: byte): byte {
    if k == 2 then 18
    else if k == 4 then 0x2e
    else if k == 5 then 0x48
    else if k == 9 || k == 10 || k == 11 || k == 15 then 0xff
    else if k == 14 || k == 18 then 0x80
    else if 22 <= k < 38 then 0x11
    else if k == 38 then a
    else if k == 39 then b
    else if k == TAG_LENGTH_AT then length
    else if k >= SSID_AT then c
    else 0
  }

  predicate IsExample(f: seq<byte>, a: byte, b: byte, length: byte, c: byte) {
    |f| == 70 && forall k :: 0 <= k < 70 ==> f[k] == ExampleByte(k, a, b, length, c)
  }

  lemma {:induction false} ExampleIsBeacon(f: seq<byte>, a: byte, b: byte, length: byte, c: byte)
    requires IsExample(f, a, b, length, c) && length as nat <= MAX_SSID
    ensures FrameOk(f) && IsBeacon(f) && StandardHeader(f)
  {
    assert ByteAt(f, 2) == 18 && ByteAt(f, 3) == 0;
    assert ByteAt(f, 4) == 0x2e && ByteAt(f, 5) == 0x48 && ByteAt(f, 6) == 0 && ByteAt(f, 7) == 0;
    assert ByteAt(f, 18) == 0x80 && ByteAt(f, 19) == 0;
  }

  function Example(a: byte, b: byte, length: byte, c: byte): (f: Frame)
    requires length as nat <= MAX_SSID
    ensures IsExample(f, a, b, length, c)
  {
    var f := seq(70, k requires k >= 0 => ExampleByte(k, a, b, length, c));
    ExampleIsBeacon(f, a, b, length, c);
    f
  }

  /** Fourteen times the character 0x78, and addresses of twelve digits. */
  predicate IsLong(f: Frame, a: byte, b: byte) {
    IsExample(f, a, b, 14, 0x78) && a as nat >= 16 && b as nat >= 16
  }

  lemma {:induction false} LongSsid(f: Frame, a: byte, b: byte)
    requires IsLong(f, a, b) && IsBeacon(f)
    ensures |SsidOf(f)| == 14
  {
    assert ByteAt(f, TAG_LENGTH_AT) == 14;
    var chars := CharsOf(f[SSID_AT..SSID_AT + 14]);
    assert forall k :: 0 <= k < 14 ==> chars[k] == CharOf(0x78);
    CStrOfNulFree(chars);
  }

  lemma {:induction false} LongAddress(f: Frame, a: byte, b: byte, o: nat)
    requires IsLong(f, a, b) && DST_AT <= o <= BSSID_AT
    ensures |AddressAt(f, o)| == 17
  {
    MacTextWidth(f[o..o + 6]);
  }

  lemma {:induction false} LongFields(p: Platform, f: Frame, a: byte, b: byte)
    requires IsLong(f, a, b)
    ensures ByteAt(f, 9) == 255 && ByteAt(f, 15) == 255 && ShortAt(p, f, 10) == 65535
    ensures CharAt(p, f, 14) == if p.charSigned then -128 else 128
  {
    assert ByteAt(f, 10) == 255 && ByteAt(f, 11) == 255 && ByteAt(f, 14) == 128;
  }

  lemma {:induction false} LongIsLargest(p: Platform, f: Frame, a: byte, b: byte, r: Rec)
    requires IsLong(f, a, b) && IsBeacon(f) && StandardHeader(f)
    ensures Largest(p, Fill(p, f, r))
  {
    StandardBeaconRecord(p, f, r);
    LongSsid(f, a, b);
    LongAddress(f, a, b, DST_AT);
    LongAddress(f, a, b, SRC_AT);
    LongAddress(f, a, b, BSSID_AT);
    LongFields(p, f, a, b);
  }

  /** Sixteen plus a digit. */
  function DigitByte(d: nat): (b: byte)
    requires d < 10
    ensures b as nat == 16 + d
  {
    if d == 0 then 16 else if d == 1 then 17 else if d == 2 then 18 else if d == 3 then 19 else if d == 4 then 20
    else if d == 5 then 21 else if d == 6 then 22 else if d == 7 then 23 else if d == 8 then 24 else 25
  }

  /** The k-th of a family of long beacons, each with a BSSID of its own. */
  function LongFrame(k: nat): (f: Frame)
    requires k < MAX_PACKET_INFO_COUNT
    ensures IsLong(f, DigitByte(k / 10), DigitByte(k % 10))
  {
    Example(DigitByte(k / 10), DigitByte(k % 10), 14, 0x78)
  }

  lemma {:induction false} LongFrameIsBeacon(k: nat)
    requires k < MAX_PACKET_INFO_COUNT
    ensures IsBeacon(LongFrame(k)) && StandardHeader(LongFrame(k))
    ensures LongFrame(k)[38] as nat == 16 + k / 10 && LongFrame(k)[39] as nat == 16 + k % 10
  {
    ExampleIsBeacon(LongFrame(k), DigitByte(k / 10), DigitByte(k % 10), 14, 0x78);
  }

  /** The first n of them. */
  function LongAir(n: nat): (fs: seq<Frame>)
    requires n <= MAX_PACKET_INFO_COUNT
    ensures |fs| == n && forall k :: 0 <= k < n ==> fs[k] == LongFrame(k)
  {
    seq(n, k requires 0 <= k < n => LongFrame(k))
  }

  lemma {:induction false} OtherBssidOtherKey(f: Frame, g: Frame)
    requires IsBeacon(f) && IsBeacon(g) && (f[38] != g[38] || f[39] != g[39])
    ensures KeyOf(f) != KeyOf(g)
  {
    var m, n := f[BSSID_AT..BSSID_AT + 6], g[BSSID_AT..BSSID_AT + 6];
    assert m[4] == f[38] && n[4] == g[38] && m[5] == f[39] && n[5] == g[39];
    KeysCompareAddresses(f, g);
  }

  lemma {:induction false} LongFramesDiffer(j: nat, k: nat)
    requires j < k < MAX_PACKET_INFO_COUNT
    ensures IsBeacon(LongFrame(j)) && IsBeacon(LongFrame(k)) && KeyOf(LongFrame(j)) != KeyOf(LongFrame(k))
  {
    LongFrameIsBeacon(j);
    LongFrameIsBeacon(k);
    OtherBssidOtherKey(LongFrame(j), LongFrame(k));
  }

  lemma {:induction false} LongAirDiffers(n: nat)
    requires n <= MAX_PACKET_INFO_COUNT
    ensures AllBeacons(LongAir(n)) && KeysDiffer(LongAir(n))
    ensures forall k :: 0 <= k < n ==> StandardHeader(LongAir(n)[k])
  {
    var fs := LongAir(n);
    forall k | 0 <= k < n ensures IsBeacon(fs[k]) && StandardHeader(fs[k]) {
      LongFrameIsBeacon(k);
    }
    forall j, k | 0 <= j < k < n ensures KeyOf(fs[j]) != KeyOf(fs[k]) {
      LongFramesDiffer(j, k);
    }
    AllBeaconsMeans(fs);
    KeysDifferMeans(fs);
  }

  /** All of them are kept, and every record prints at its greatest length. */
  lemma {:induction false} LongRun(p: Platform, t: Table, n: nat)
    requires Valid(t) && t.cur == 0 && |t.slots| == MAX_PACKET_INFO_COUNT && n <= MAX_PACKET_INFO_COUNT
    ensures LegalRun(p, t, LongAir(n))
    ensures var s := Saved(Run(p, t, LongAir(n))); |s| == n && forall k :: 0 <= k < n ==> Largest(p, s[k])
  {
    var fs := LongAir(n);
    LongAirDiffers(n);
    StandardRuns(p, t, fs);
    FirstFramesOfDistinct(fs);
    SavedAreFirstFrames(p, t, fs);
    var s := Saved(Run(p, t, fs));
    forall k | 0 <= k < n ensures Largest(p, s[k]) {
      assert Fill(p, fs[k], s[k]) == s[k] && IsBeacon(fs[k]) && StandardHeader(fs[k]);
      LongIsLargest(p, fs[k], DigitByte(k / 10), DigitByte(k % 10), s[k]);
    }
  }

  // ---------------------------------------------------------------- a network named by a quote

  predicate IsQuote(f: Frame) {
    IsBeacon(f) && StandardHeader(f) && SsidOf(f) == "\""
  }

  lemma {:induction false} ExampleOfQuote(f: Frame, a: byte, b: byte)
    requires IsExample(f, a, b, 1, 0x22)
    ensures IsQuote(f)
  {
    ExampleIsBeacon(f, a, b, 1, 0x22);
    assert ByteAt(f, TAG_LENGTH_AT) == 1;
    var chars := CharsOf(f[SSID_AT..SSID_AT + 1]);
    assert chars[0] == CharOf(0x22) == '"';
    CStrOfNulFree(chars);
  }

  function QuoteFrame(a: byte, b: byte): (f: Frame)
    ensures IsQuote(f)
  {
    var f := Example(a, b, 1, 0x22);
    ExampleOfQuote(f, a, b);
    f
  }

  lemma {:induction false} RunOfOne(p: Platform, t: Table, f: Frame)
    requires Valid(t) && t.cur == 0 < |t.slots| && IsBeacon(f) && HeaderOk(f)
    ensures LegalRun(p, t, [f]) && Saved(Run(p, t, [f])) == [Fill(p, f, t.slots[0])]
  {
    assert [f][..0] == [] && Run(p, t, [f]) == Deliver(p, t, f);
    KeptBeacon(p, t, f);
  }

  lemma {:induction false} QuoteRun(p: Platform, t: Table, f: Frame)
    requires Valid(t) && t.cur == 0 < |t.slots| && IsQuote(f)
    ensures var s := Saved(Run(p, t, [f]));
      LegalRun(p, t, [f]) && |s| == 1 && s[0].ssid == "\"" && PlainAddresses(s[0])
  {
    StandardHeaderReportsAll(f);
    RunOfOne(p, t, f);
    StandardBeaconRecord(p, f, t.slots[0]);
    AddressIsPlain(f, BSSID_AT);
    AddressIsPlain(f, SRC_AT);
    AddressIsPlain(f, DST_AT);
  }

  // ---------------------------------------------------------------- a beacon that shows its slot

  /** A beacon whose 8-byte header has an empty bitmap. */
  predicate IsBare(f: Frame) {
    IsBeacon(f) && Version(f) == 0 && ItLen(f) == 8 && PresentWord(f) == 0
  }

  function BareFrame(): (f: Frame)
    ensures IsBare(f)
  {
    var f: seq<byte> := seq(56, k => if k == 2 then 8 else if k == 18 then 0x80 else 0);
    assert ByteAt(f, 18) == 0x80 && ByteAt(f, 19) == 0 && ByteAt(f, TAG_LENGTH_AT) == 0;
    f
  }

  lemma {:induction false} BareNamesNothing(f: Frame)
    requires IsBare(f)
    ensures HeaderOk(f) && FieldsOf(f) == [] && !NamesAll(f)
  {
    DriftOfNothing(Start(f, 0));
    HeaderOkIff(f);
  }

  lemma {:induction false} NothingNamedNothingStored(p: Platform, f: Frame, r: Rec)
    requires HeaderOk(f) && FieldsOf(f) == []
    ensures WithRadiotap(p, f, r) == r
  {
    WalkInBounds(f);
    ReportedIffNamed(f, RATE);
    ReportedIffNamed(f, CHANNEL);
    ReportedIffNamed(f, DBM_ANTSIGNAL);
    ReportedIffNamed(f, ANTENNA);
  }

  /** Captured first, it is saved with the rate, antenna, channel and power that its slot
      was left with. */
  lemma {:induction false} BareShowsItsSlot(p: Platform, t: Table, f: Frame)
    requires Valid(t) && t.cur == 0 < |t.slots| && IsBare(f)
    ensures LegalRun(p, t, [f])
    ensures Saved(Run(p, t, [f])) == [WithAddresses(f, WithKey(f, t.slots[0]))]
  {
    BareNamesNothing(f);
    RunOfOne(p, t, f);
    NothingNamedNothingStored(p, f, WithAddresses(f, WithKey(f, t.slots[0])));
  }
}
