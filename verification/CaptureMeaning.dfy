/**
 The callback and the records in plain terms: by the bytes of the frames, by counting
 and by comparing strings, without the functions of the model that compute them.
 */
module CaptureMeaning {
  import opened Wrappers
  import opened ByteOrder
  import opened CText
  import opened Radiotap
  import opened RadiotapTheorems
  import opened Capture
  import opened CaptureTheorems
  import opened Json

  /** The frame control field, high byte first; a beacon has 0x80 0x00. */
  lemma {:induction false} ControlByBytes(f: Frame, a: int, b: int)
    requires a == f[18] as int && b == f[19] as int
    ensures EtherTypeOf(f) == 0x100 * a + b
    ensures IsBeacon(f) <==> a == 0x80 && b == 0
    ensures EtherTypeOf(f) == 0 <==> a == 0 && b == 0
  {
  }

  // ---------------------------------------------------------------- the callback

  /** A full table ignores the frame. */
  lemma {:induction false} FullTableIgnores(p: Platform, t: Table, f: Frame)
    requires Valid(t) && t.cur == |t.slots|
    ensures Deliver(p, t, f) == t
  {
  }

  /** A frame that is not a beacon leaves its frame control field in the slot, and nothing
      else; the slot is kept unless that field is zero. */
  lemma {:induction false} OtherFrameByBytes(p: Platform, t: Table, f: Frame, a: int, b: int)
    requires Valid(t) && t.cur < |t.slots|
    requires a == f[18] as int && b == f[19] as int && !(a == 0x80 && b == 0)
    ensures var t', kept := Deliver(p, t, f), if a == 0 && b == 0 then 0 else 1;
      && t'.slots == t.slots[t.cur := t.slots[t.cur].(etherType := 0x100 * a + b)]
      && t'.cur == t.cur + kept && t'.infoCount == t.infoCount + kept
      && t'.dups == t.dups && t'.sameSsid == t.sameSsid
  {
    ControlByBytes(f, a, b);
    OtherFrame(p, t, f);
  }

  lemma {:induction false} OtherFrame(p: Platform, t: Table, f: Frame)
    requires Valid(t) && t.cur < |t.slots| && !IsBeacon(f)
    ensures var t', kept := Deliver(p, t, f), if EtherTypeOf(f) == 0 then 0 else 1;
      t' == t.(slots := t.slots[t.cur := t.slots[t.cur].(etherType := EtherTypeOf(f))],
               cur := t.cur + kept, infoCount := t.infoCount + kept)
  {
  }

  /** The strings of a saved record are those of the beacon. */
  predicate SameNetwork(r: Rec, f: Frame)
    requires IsBeacon(f)
  {
    r.ssid == SsidOf(f) && r.bssid == AddressAt(f, BSSID_AT)
  }

  /** m saved records are passed over: up to the first with both strings of the beacon. */
  predicate Passes(t: Table, f: Frame, m: nat)
    requires Valid(t) && IsBeacon(f)
  {
    && m <= t.cur
    && (forall k :: 0 <= k < m ==> !SameNetwork(t.slots[k], f))
    && (m < t.cur ==> SameNetwork(t.slots[m], f))
  }

  lemma {:induction false} PassesUpToMatch(t: Table, f: Frame, m: nat)
    requires Valid(t) && IsBeacon(f) && Passes(t, f, m)
    ensures MatchOf(t, f) == m
  {
    var k := MatchOf(t, f);
    assert forall j :: 0 <= j < t.cur ==> Saved(t)[j] == t.slots[j];
  }

  function WithSsid(s: seq<Rec>, ssid: string): set<int> {
    set k | 0 <= k < |s| && s[k].ssid == ssid
  }

  lemma {:induction false} WithSsidStep(s: seq<Rec>, ssid: string)
    requires s != []
    ensures var n, front := |s| - 1, WithSsid(s[..|s| - 1], ssid);
      n !in front && WithSsid(s, ssid) == if s[n].ssid == ssid then front + {n} else front
  {
    var n := |s| - 1;
    assert forall k :: 0 <= k < n ==> s[..n][k] == s[k];
  }

  /** CountSsid counts. */
  lemma {:induction false} CountSsidIsCardinality(s: seq<Rec>, ssid: string)
    ensures CountSsid(s, ssid) == |WithSsid(s, ssid)|
    decreases |s|
  {
    if s == [] {
      assert WithSsid(s, ssid) == {};
    } else {
      CountSsidIsCardinality(s[..|s| - 1], ssid);
      WithSsidStep(s, ssid);
    }
  }

  /** A beacon of a network already saved changes the counters and nothing that is saved;
      any other is appended.  Either way the records of the same SSID that were passed
      over are counted. */
  lemma {:induction false} BeaconByNetwork(p: Platform, t: Table, f: Frame, m: nat)
    requires Valid(t) && t.cur < |t.slots| && IsBeacon(f) && Passes(t, f, m)
    ensures var t', known := Deliver(p, t, f), m < t.cur;
      && t'.dups == t.dups + (if known then 1 else 0)
      && t'.cur == t.cur + (if known then 0 else 1) && t'.infoCount == t.infoCount + (if known then 0 else 1)
      && Saved(t') == Saved(t) + (if known then [] else [Fill(p, f, t.slots[t.cur])])
      && t'.sameSsid == t.sameSsid + |set k | 0 <= k < m && t.slots[k].ssid == SsidOf(f)|
  {
    PassesUpToMatch(t, f, m);
    DeliverCounts(p, t, f);
    if OutcomeOf(t, f) == Kept {
      KeptBeacon(p, t, f);
    } else {
      OthersKeepSaved(p, t, f);
    }
    SameSsidOf(p, t, f, m);
  }

  lemma {:induction false} SameSsidOf(p: Platform, t: Table, f: Frame, m: nat)
    requires Valid(t) && t.cur < |t.slots| && IsBeacon(f) && Passes(t, f, m) && MatchOf(t, f) == m
    ensures Deliver(p, t, f).sameSsid == t.sameSsid + |set k | 0 <= k < m && t.slots[k].ssid == SsidOf(f)|
  {
    var passed := Saved(t)[..m];
    OthersAreAllWithSsid(passed, SsidOf(f), AddressAt(f, BSSID_AT));
    CountSsidIsCardinality(passed, SsidOf(f));
    assert WithSsid(passed, SsidOf(f)) == (set k | 0 <= k < m && t.slots[k].ssid == SsidOf(f));
  }

  // ---------------------------------------------------------------- the record of a beacon

  /** A text denotes an address: its parts are the six bytes, in order. */
  predicate IsAddress(bytes: seq<byte>, text: string) {
    ReadMac(text) == Some(Numbers(bytes))
  }

  /** SSID and addresses of a saved beacon, from its bytes. */
  lemma {:induction false} FillTextsByBytes(p: Platform, f: Frame, r: Rec)
    requires IsBeacon(f)
    ensures var q := Fill(p, f, r);
      && q.etherType == 0x8000
      && HoldsText(f[56..56 + f[55] as int], q.ssid)
      && IsAddress(f[22..28], q.dst) && IsAddress(f[28..34], q.src) && IsAddress(f[34..40], q.bssid)
  {
    CStrOfBytes(f[56..56 + f[55] as int]);
    ReadMacInverts(f[22..28]);
    ReadMacInverts(f[28..34]);
    ReadMacInverts(f[34..40]);
  }

  predicate RadioByBytes(p: Platform, f: Frame, q: Rec)
    requires |f| >= 18
  {
    && q.dataRateKbps == 500 * (f[9] as int) && q.antenna == f[15] as int
    && q.channel == Native16(p.host, f[10..12]) as int
    && q.power % 256 == f[14] as int
    && (if p.charSigned then -128 <= q.power <= 127 else 0 <= q.power <= 255)
  }

  lemma {:induction false} RadioOfBytes(p: Platform, f: Frame, q: Rec)
    requires |f| >= 18 && q.dataRateKbps == 500 * ByteAt(f, 9) && q.antenna == ByteAt(f, 15)
    requires q.channel == ShortAt(p, f, 10) && q.power == CharAt(p, f, 14)
    ensures RadioByBytes(p, f, q)
  {
    CharIsByte(p, f, 14);
    ShortIsLoad(p, f, 10);
  }

  /** The radio fields of a saved beacon with the standard header, from its bytes. */
  lemma {:induction false} FillRadioByBytes(p: Platform, f: Frame, r: Rec)
    requires IsBeacon(f) && StandardHeader(f)
    ensures RadioByBytes(p, f, Fill(p, f, r))
  {
    StandardBeaconRecord(p, f, r);
    RadioOfBytes(p, f, Fill(p, f, r));
  }

  /** The slots after a beacon: the current one holds the record, or, for a known network,
      only its type, SSID and BSSID over what was there.  The others do not change. */
  lemma {:induction false} SlotsAfterBeacon(p: Platform, t: Table, f: Frame, m: nat)
    requires Valid(t) && t.cur < |t.slots| && IsBeacon(f) && Passes(t, f, m)
    ensures var q, r := Deliver(p, t, f).slots[t.cur], t.slots[t.cur];
      && Deliver(p, t, f).slots == t.slots[t.cur := q]
      && (m == t.cur ==> q == Fill(p, f, r))
      && (m < t.cur ==>
            && q == r.(etherType := 0x8000, ssid := q.ssid, bssid := q.bssid)
            && HoldsText(f[56..56 + f[55] as int], q.ssid) && IsAddress(f[34..40], q.bssid))
  {
    PassesUpToMatch(t, f, m);
    CStrOfBytes(f[56..56 + f[55] as int]);
    ReadMacInverts(f[34..40]);
    var q := Deliver(p, t, f).slots[t.cur];
    assert Deliver(p, t, f).slots == t.slots[t.cur := q];
  }

  // ---------------------------------------------------------------- any header

  lemma {:induction false} IndicesIncrease(s: Iter, j: nat, k: nat)
    requires s.argIndex <= FIELDS && j < k < |Trace(PadIndex, s)| - 1
    ensures 0 <= Trace(PadIndex, s)[j].ret < Trace(PadIndex, s)[k].ret
    decreases k
  {
    WrittenWalkTiles(s, j);
    WrittenWalkTiles(s, k);
    WrittenWalkTiles(s, k - 1);
    if j < k - 1 {
      IndicesIncrease(s, j, k - 1);
    }
  }

  lemma {:induction false} ReportedLast(f: seq<byte>, t: seq<Call>, n: nat, k: nat, i: FieldIndex)
    requires k < n <= |t| && InBounds(f, t) && t[k].ret == i
    requires forall j :: k < j < n ==> t[j].ret != i
    ensures t[k].offset >= 0 && Reported(f, t, n, i) == Some(t[k].offset)
    decreases n
  {
    if n == k + 1 {
      ReportedHit(f, t, k, i);
    } else {
      ReportedLast(f, t, n - 1, k, i);
      ReportedSkip(f, t, n - 1, i);
    }
  }

  predicate RetsIncrease(t: seq<Call>) {
    |t| > 0 && t[|t| - 1].ret < 0 && forall j, k :: 0 <= j < k < |t| - 1 ==> t[j].ret < t[k].ret
  }

  lemma {:induction false} TraceIncreases(s: Iter)
    requires s.argIndex <= FIELDS
    ensures RetsIncrease(Trace(PadIndex, s))
  {
    var t := Trace(PadIndex, s);
    TraceEnding(PadIndex, s);
    forall j, k | 0 <= j < k < |t| - 1 ensures t[j].ret < t[k].ret {
      IndicesIncrease(s, j, k);
    }
  }

  lemma {:induction false} ReportedOnce(f: seq<byte>, t: seq<Call>, k: nat, i: FieldIndex)
    requires InBounds(f, t) && RetsIncrease(t) && k < |t| && t[k].ret == i
    ensures t[k].offset >= 0 && Reported(f, t, |t|, i) == Some(t[k].offset)
  {
    ReportedLast(f, t, |t|, k, i);
  }

  /** Each field gone through is reported where it is. */
  lemma {:induction false} ReportedIsField(f: seq<byte>, k: nat)
    requires HeaderOk(f) && k < |FieldsOf(f)| && InBounds(f, Walk(f))
    ensures Reported(f, Walk(f), |Walk(f)|, FieldsOf(f)[k].index) == Some(FieldsOf(f)[k].offset)
  {
    WalkOfOkHeader(f);
    TraceIncreases(Start(f, 0));
    ReportedOnce(f, Walk(f), k, FieldsOf(f)[k].index);
  }

  lemma {:induction false} WithFieldsStores(p: Platform, f: seq<byte>, r: Rec, t: seq<Call>, n: nat,
                                            i: FieldIndex, o: nat)
    requires n <= |t| && InBounds(f, t) && Reported(f, t, n, i) == Some(o)
    ensures EndOf(i, o) <= |f| && FieldStored(p, f, i, o, WithFields(p, f, r, t, n))
  {
    StoredIfSo(p, f, i, o, WithFields(p, f, r, t, n));
  }

  /** On every header on which parseRadioTap returns, each of the four fields that is gone
      through is stored from its bytes. */
  lemma {:induction false} FillFieldByBytes(p: Platform, f: Frame, r: Rec, k: nat)
    requires IsBeacon(f) && HeaderOk(f) && k < |FieldsOf(f)|
    ensures FieldsOf(f)[k].End() <= |f|
    ensures FieldStored(p, f, FieldsOf(f)[k].index, FieldsOf(f)[k].offset, Fill(p, f, r))
  {
    var x, r' := FieldsOf(f)[k], WithAddresses(f, WithKey(f, r));
    WalkInBounds(f);
    ReportedIsField(f, k);
    WithFieldsStores(p, f, r', Walk(f), |Walk(f)|, x.index, x.offset);
  }

  /** And those not gone through keep what the slot held. */
  lemma {:induction false} FillKeepsOthers(p: Platform, f: Frame, r: Rec)
    requires IsBeacon(f) && HeaderOk(f)
    ensures var q, fs := Fill(p, f, r), FieldsOf(f);
      && (!Names(fs, 2) ==> q.dataRateKbps == r.dataRateKbps) && (!Names(fs, 11) ==> q.antenna == r.antenna)
      && (!Names(fs, 5) ==> q.power == r.power) && (!Names(fs, 3) ==> q.channel == r.channel)
  {
    WalkInBounds(f);
    ReportedIffNamed(f, RATE);
    ReportedIffNamed(f, CHANNEL);
    ReportedIffNamed(f, DBM_ANTSIGNAL);
    ReportedIffNamed(f, ANTENNA);
  }

  // ---------------------------------------------------------------- documented values

  lemma {:induction false} SignedIff(p: Platform, b: byte, v: int, n: int)
    requires IsChar(p, b, v) && n == b as int
    ensures v == (if n < 128 then n else n - 256) <==> p.charSigned || n < 128
  {
  }

  lemma {:induction false} LittleIff(host: Endian, m: seq<byte>, v: int, a: int, b: int)
    requires |m| == 2 && v == Native16(host, m) as int && a == m[0] as int && b == m[1] as int
    ensures v == a + 0x100 * b <==> host.Little? || a == b
  {
    Join16Value(m[0], m[1]);
    Join16Value(m[1], m[0]);
  }

  /** The signal power is documented as a signed byte.  It is saved as such exactly when
      plain `char` is signed or the byte is below 128. */
  lemma {:induction false} PowerIsDocumentedIff(p: Platform, f: Frame, r: Rec, k: nat, n: int)
    requires IsBeacon(f) && HeaderOk(f) && k < |FieldsOf(f)| && FieldsOf(f)[k].index == 5
    requires FieldsOf(f)[k].offset < |f| && n == f[FieldsOf(f)[k].offset] as int
    ensures Fill(p, f, r).power == (if n < 128 then n else n - 256) <==> p.charSigned || n < 128
  {
    var q := Fill(p, f, r);
    FillFieldByBytes(p, f, r, k);
    SignedIff(p, f[FieldsOf(f)[k].offset], q.power, n);
  }

  /** The channel is documented as little-endian.  It is saved as such exactly when the host
      is little-endian or the two bytes are the same. */
  lemma {:induction false} ChannelIsDocumentedIff(p: Platform, f: Frame, r: Rec, k: nat, a: int, b: int)
    requires IsBeacon(f) && HeaderOk(f) && k < |FieldsOf(f)| && FieldsOf(f)[k].index == 3
    requires var o := FieldsOf(f)[k].offset; o + 2 <= |f| && a == f[o] as int && b == f[o + 1] as int
    ensures Fill(p, f, r).channel == a + 0x100 * b <==> p.host.Little? || a == b
  {
    var q, o := Fill(p, f, r), FieldsOf(f)[k].offset;
    FillFieldByBytes(p, f, r, k);
    LittleIff(p.host, f[o..o + 2], q.channel, a, b);
  }

  // ---------------------------------------------------------------- what a client reads

  /** What a client reads for a network, against the bytes of one of its beacons. */
  predicate ShowsBeacon(p: Platform, f: Frame, d: Shown)
    requires IsBeacon(f)
  {
    && d.dataRateKbps == 500 * (f[9] as int) && d.antenna == f[15] as int
    && d.channel == Native16(p.host, f[10..12]) as int
    && d.power % 256 == f[14] as int && (if p.charSigned then -128 <= d.power <= 127 else 0 <= d.power <= 255)
    && HoldsText(f[56..56 + f[55] as int], d.ssid)
    && IsAddress(f[22..28], d.dst) && IsAddress(f[28..34], d.src) && IsAddress(f[34..40], d.bssid)
  }

  lemma {:induction false} FillShowsBeacon(p: Platform, f: Frame, r: Rec)
    requires IsBeacon(f) && StandardHeader(f)
    ensures ShowsBeacon(p, f, ShownOf(Fill(p, f, r)))
  {
    FillTextsByBytes(p, f, r);
    FillRadioByBytes(p, f, r);
  }
}
