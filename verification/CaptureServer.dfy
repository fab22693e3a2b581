/**
 The capture server with the state client_main.c keeps: the array of packet_info
 structs with their char arrays, the three counters, the static buffer of
 ether_ntoa, and the output buffer with its moving pointer.  Every method is
 proved against the value-level model of Capture, Json and Server.
 */
module CaptureServer {
  import opened ByteOrder
  import opened CText
  import opened Radiotap
  import opened RadiotapTheorems
  import opened Capture
  import opened CaptureTheorems
  import opened Json
  import Server
  import RadiotapIterator

  const MAX_SSID_CHAR_COUNT: nat := 15
  const ADDRESS_CHARS: nat := 17

  /** struct packet_info. */
  datatype Slot = Slot(
    etherType: int, dataRateKbps: int, antenna: int, channel: int, power: int,
    ssid: seq<char>, src: seq<char>, dst: seq<char>, bssid: seq<char>)

  predicate SlotOk(s: Slot) {
    && |s.ssid| == MAX_SSID_CHAR_COUNT && NUL in s.ssid
    && |s.src| == |s.dst| == |s.bssid| == ADDRESS_CHARS + 1
  }

  function Shows(s: Slot): Rec {
    Rec(s.etherType, s.dataRateKbps, s.antenna, s.channel, s.power,
        CStr(s.ssid), CStr(s.src), CStr(s.dst), CStr(s.bssid))
  }

  function ShowsAll(s: seq<Slot>): (r: seq<Rec>)
    ensures |r| == |s|
  {
    seq(|s|, k requires 0 <= k < |s| => Shows(s[k]))
  }

  /** The 17-character copy out of ether_ntoa's buffer, with its terminator. */
  method CopyAddress(addr: seq<char>, into: seq<char>) returns (buf: seq<char>)
    requires |addr| >= ADDRESS_CHARS && |CStr(addr)| <= ADDRESS_CHARS
    requires |into| == ADDRESS_CHARS + 1
    ensures |buf| == ADDRESS_CHARS + 1 && CStr(buf) == CStr(addr)
  {
    buf := into;
    var charCount: nat := 0;
    while charCount < ADDRESS_CHARS
      invariant charCount <= ADDRESS_CHARS && |buf| == ADDRESS_CHARS + 1
      invariant buf[..charCount] == addr[..charCount]
    {
      buf := buf[charCount := addr[charCount]];
      charCount := charCount + 1;
    }
    buf := buf[charCount := NUL];
    assert buf == addr[..ADDRESS_CHARS] + [NUL];
    CopyKeepsCStr(addr, ADDRESS_CHARS);
  }

  class Capturer {
    const platform: Platform
    const slots: array<Slot>
    const outputBuff: array<char>
    var curPacketCount: nat
    var packetInfoCount: nat
    var dupPacketsDiscarded: nat
    var packetsSameSsidDiffBssid: nat
    var ntoa: seq<char>
    var buffPtr: nat

    predicate Valid()
      reads this, slots, outputBuff
    {
      && slots.Length == MAX_PACKET_INFO_COUNT
      && outputBuff.Length == MAX_OUTPUT_BUFFER_SIZE
      && curPacketCount == packetInfoCount <= MAX_PACKET_INFO_COUNT
      && |ntoa| == ADDRESS_CHARS + 1
      && (forall k :: 0 <= k < slots.Length ==> SlotOk(slots[k]))
      && NUL in outputBuff[..]
    }

    function View(): Table
      reads this, slots
    {
      Table(ShowsAll(slots[..]), curPacketCount, packetInfoCount, dupPacketsDiscarded, packetsSameSsidDiffBssid)
    }

    function Response(): string
      reads this, outputBuff
    {
      CStr(outputBuff[..])
    }

    /** Zeroed globals. */
    constructor (platform: Platform)
      ensures this.platform == platform && Valid()
      ensures Server.State(View(), Response(), true) == Server.Initial()
    {
      this.platform := platform;
      var zeros := seq(ADDRESS_CHARS + 1, _ => NUL);
      var empty := Slot(0, 0, 0, 0, 0, zeros[..MAX_SSID_CHAR_COUNT], zeros, zeros, zeros);
      slots := new Slot[MAX_PACKET_INFO_COUNT](_ => empty);
      outputBuff := new char[MAX_OUTPUT_BUFFER_SIZE](_ => NUL);
      curPacketCount, packetInfoCount, dupPacketsDiscarded, packetsSameSsidDiffBssid := 0, 0, 0, 0;
      ntoa := zeros;
      buffPtr := 0;
      new;
      assert outputBuff[0] == NUL && outputBuff[..][0] == NUL;
      assert zeros[..MAX_SSID_CHAR_COUNT][0] == NUL;
      assert Shows(empty) == Server.BLANK;
      assert View().slots == Server.Initial().table.slots;
    }

    /** ether_ntoa: the text and a terminator, over the start of its static buffer. */
    method EtherNtoa(m: seq<byte>)
      requires |m| == 6 && |ntoa| == ADDRESS_CHARS + 1
      modifies this`ntoa
      ensures |ntoa| == ADDRESS_CHARS + 1 && CStr(ntoa) == MacText(m)
    {
      var text := MacText(m);
      ntoa := text + [NUL] + ntoa[|text| + 1..];
      CStrOfTerminated(text, ntoa[|text| + 1..]);
    }

    /** pkt_with_ssid_bssid_exists. */
    method PktWithSsidBssidExists(newSsid: seq<char>, newBssid: seq<char>) returns (r: int)
      requires curPacketCount <= slots.Length
      modifies this`dupPacketsDiscarded, this`packetsSameSsidDiffBssid
      ensures var saved := ShowsAll(slots[..curPacketCount]);
        var m := FirstMatch(saved, CStr(newSsid), CStr(newBssid));
        && r == (if m < curPacketCount then 1 else 0)
        && dupPacketsDiscarded == old(dupPacketsDiscarded) + r
        && packetsSameSsidDiffBssid
           == old(packetsSameSsidDiffBssid) + CountOther(saved[..m], CStr(newSsid), CStr(newBssid))
    {
      ghost var saved := ShowsAll(slots[..curPacketCount]);
      ghost var ssid, bssid := CStr(newSsid), CStr(newBssid);
      var count: nat := 0;
      while count < curPacketCount
        invariant count <= curPacketCount
        invariant dupPacketsDiscarded == old(dupPacketsDiscarded)
        invariant packetsSameSsidDiffBssid == old(packetsSameSsidDiffBssid) + CountOther(saved[..count], ssid, bssid)
        invariant forall j :: 0 <= j < count ==> saved[j].ssid != ssid || saved[j].bssid != bssid
      {
        assert saved[count] == Shows(slots[count]);
        CountOtherNext(saved, ssid, bssid, count);
        var sameSsid := CStr(slots[count].ssid) == CStr(newSsid);
        var sameBssid := CStr(slots[count].bssid) == CStr(newBssid);
        if sameSsid && !sameBssid {
          packetsSameSsidDiffBssid := packetsSameSsidDiffBssid + 1;
        }
        if sameSsid && sameBssid {
          FirstMatchIs(saved, ssid, bssid, count);
          dupPacketsDiscarded := dupPacketsDiscarded + 1;
          return 1;
        }
        count := count + 1;
      }
      FirstMatchIs(saved, ssid, bssid, count);
      return 0;
    }

    /** The loop that copies the SSID of a beacon into a local buffer and into the slot. */
    method CopySsid(packet: Frame) returns (ssidBuff: seq<char>)
      requires Valid() && IsBeacon(packet) && curPacketCount < MAX_PACKET_INFO_COUNT
      modifies slots
      ensures Valid()
      ensures CStr(ssidBuff) == SsidOf(packet)
      ensures slots[..] == old(slots[..])[curPacketCount := slots[curPacketCount]]
      ensures Shows(slots[curPacketCount]) == Shows(old(slots[curPacketCount])).(ssid := SsidOf(packet))
      ensures SlotOk(slots[curPacketCount])
    {
      var cur := curPacketCount;
      ghost var s0 := slots[cur];
      var ssidLength := ByteAt(packet, TAG_LENGTH_AT);
      ghost var chars := CharsOf(packet[SSID_AT..SSID_AT + ssidLength]);
      ssidBuff := seq(MAX_SSID_CHAR_COUNT, _ => '?');
      var charCount: nat := 0;
      while charCount < ssidLength
        invariant charCount <= ssidLength && |ssidBuff| == MAX_SSID_CHAR_COUNT
        invariant |slots[cur].ssid| == MAX_SSID_CHAR_COUNT
        invariant slots[cur] == s0.(ssid := slots[cur].ssid)
        invariant slots[..] == old(slots[..])[cur := slots[cur]]
        invariant ssidBuff[..charCount] == chars[..charCount] == slots[cur].ssid[..charCount]
      {
        var c := CharOf(packet[SSID_AT + charCount]);
        assert chars[charCount] == c;
        PrefixUpdate(ssidBuff, chars, charCount);
        PrefixUpdate(slots[cur].ssid, chars, charCount);
        ssidBuff := ssidBuff[charCount := c];
        slots[cur] := slots[cur].(ssid := slots[cur].ssid[charCount := c]);
        charCount := charCount + 1;
      }
      assert ssidBuff[charCount := NUL][..charCount] == ssidBuff[..charCount];
      ssidBuff := ssidBuff[charCount := NUL];
      assert slots[cur].ssid[charCount := NUL][..charCount] == slots[cur].ssid[..charCount];
      slots[cur] := slots[cur].(ssid := slots[cur].ssid[charCount := NUL]);
      assert ssidBuff[charCount] == slots[cur].ssid[charCount] == NUL;
      assert chars[..charCount] == chars;
      CStrOfCopied(ssidBuff, charCount);
      CStrOfCopied(slots[cur].ssid, charCount);
    }

    // The three places where an address is formatted and copied into the slot.

    method StoreBssid(packet: Frame)
      requires Valid() && curPacketCount < MAX_PACKET_INFO_COUNT && IsBeacon(packet)
      modifies slots, this`ntoa
      ensures Valid()
      ensures slots[..] == old(slots[..])[curPacketCount := slots[curPacketCount]]
      ensures Shows(slots[curPacketCount]) == Shows(old(slots[curPacketCount])).(bssid := AddressAt(packet, BSSID_AT))
    {
      EtherNtoa(packet[BSSID_AT..BSSID_AT + 6]);
      var addr := CopyAddress(ntoa, slots[curPacketCount].bssid);
      slots[curPacketCount] := slots[curPacketCount].(bssid := addr);
    }

    method StoreDst(packet: Frame)
      requires Valid() && curPacketCount < MAX_PACKET_INFO_COUNT && IsBeacon(packet)
      modifies slots, this`ntoa
      ensures Valid()
      ensures slots[..] == old(slots[..])[curPacketCount := slots[curPacketCount]]
      ensures Shows(slots[curPacketCount]) == Shows(old(slots[curPacketCount])).(dst := AddressAt(packet, DST_AT))
    {
      EtherNtoa(packet[DST_AT..DST_AT + 6]);
      var addr := CopyAddress(ntoa, slots[curPacketCount].dst);
      slots[curPacketCount] := slots[curPacketCount].(dst := addr);
    }

    method StoreSrc(packet: Frame)
      requires Valid() && curPacketCount < MAX_PACKET_INFO_COUNT && IsBeacon(packet)
      modifies slots, this`ntoa
      ensures Valid()
      ensures slots[..] == old(slots[..])[curPacketCount := slots[curPacketCount]]
      ensures Shows(slots[curPacketCount]) == Shows(old(slots[curPacketCount])).(src := AddressAt(packet, SRC_AT))
    {
      EtherNtoa(packet[SRC_AT..SRC_AT + 6]);
      var addr := CopyAddress(ntoa, slots[curPacketCount].src);
      slots[curPacketCount] := slots[curPacketCount].(src := addr);
    }

    /** The view after nothing but the current slot has changed. */
    lemma {:induction false} ViewOfPut(before: seq<Slot>, r: Rec)
      requires Valid() && curPacketCount < MAX_PACKET_INFO_COUNT && |before| == slots.Length
      requires slots[..] == before[curPacketCount := slots[curPacketCount]]
      requires Shows(slots[curPacketCount]) == r
      ensures View().slots == ShowsAll(before)[curPacketCount := r]
      ensures Saved(View()) == ShowsAll(before)[..curPacketCount]
    {
      ShowsAllUpdate(before, curPacketCount, slots[curPacketCount]);
    }

    /** SSID and BSSID of a beacon, into the slot and the local buffer. */
    method CopyKey(packet: Frame) returns (ssidBuff: seq<char>)
      requires Valid() && curPacketCount < MAX_PACKET_INFO_COUNT && IsBeacon(packet)
      requires slots[curPacketCount].etherType == BEACON
      modifies slots, this`ntoa
      ensures Valid()
      ensures CStr(ssidBuff) == SsidOf(packet)
      ensures CStr(slots[curPacketCount].bssid) == AddressAt(packet, BSSID_AT)
      ensures Shows(slots[curPacketCount]) == WithKey(packet, Shows(old(slots[curPacketCount])))
      ensures View() == Put(old(View()), WithKey(packet, Shows(old(slots[curPacketCount]))))
    {
      ghost var before, r := slots[..], Shows(slots[curPacketCount]);
      ssidBuff := CopySsid(packet);
      StoreBssid(packet);
      ViewOfPut(before, WithKey(packet, r));
    }

    /** Destination and source of a beacon. */
    method CopyOtherAddresses(packet: Frame)
      requires Valid() && curPacketCount < MAX_PACKET_INFO_COUNT && IsBeacon(packet)
      modifies slots, this`ntoa
      ensures Valid()
      ensures View() == Put(old(View()), WithAddresses(packet, Shows(old(slots[curPacketCount]))))
    {
      ghost var before, r := slots[..], Shows(slots[curPacketCount]);
      StoreDst(packet);
      StoreSrc(packet);
      ViewOfPut(before, WithAddresses(packet, r));
    }

    /** The beacon case of parse_ethernet. */
    method ParseBeacon(packet: Frame) returns (result: int)
      requires Valid() && curPacketCount < MAX_PACKET_INFO_COUNT && IsBeacon(packet)
      requires slots[curPacketCount].etherType == BEACON
      modifies slots, this`ntoa, this`dupPacketsDiscarded, this`packetsSameSsidDiffBssid
      ensures Valid()
      ensures result == EthernetResult(old(View()), packet)
      ensures View() == EthernetPart(old(View()), packet)
    {
      ghost var t, r := View(), WithKey(packet, Shows(slots[curPacketCount]));
      var ssidBuff := CopyKey(packet);
      SearchedPut(t, packet, r, WithAddresses(packet, r));
      var foundDupPkt := Search(packet, ssidBuff);
      assert View() == Put(Searched(t, packet), r);
      if foundDupPkt == 1 {
        return 0;
      }
      CopyOtherAddresses(packet);
      assert View() == Put(Put(Searched(t, packet), r), WithAddresses(packet, r));
      PutPut(Searched(t, packet), r, WithAddresses(packet, r));
      return BEACON;
    }

    /** The call of pkt_with_ssid_bssid_exists with the strings just copied. */
    method Search(packet: Frame, ssidBuff: seq<char>) returns (foundDupPkt: int)
      requires Valid() && curPacketCount < MAX_PACKET_INFO_COUNT && IsBeacon(packet)
      requires CStr(ssidBuff) == SsidOf(packet)
      requires CStr(slots[curPacketCount].bssid) == AddressAt(packet, BSSID_AT)
      modifies this`dupPacketsDiscarded, this`packetsSameSsidDiffBssid
      ensures Valid()
      ensures foundDupPkt == if MatchOf(old(View()), packet) < curPacketCount then 1 else 0
      ensures View() == Searched(old(View()), packet)
    {
      assert ShowsAll(slots[..curPacketCount]) == Saved(View());
      foundDupPkt := PktWithSsidBssidExists(ssidBuff, slots[curPacketCount].bssid);
    }

    /** parse_ethernet: everything but the radiotap part. */
    method ParseEthernet(packet: Frame) returns (etherFrameType: int)
      requires Valid() && curPacketCount < MAX_PACKET_INFO_COUNT
      modifies slots, this`ntoa, this`dupPacketsDiscarded, this`packetsSameSsidDiffBssid
      ensures Valid()
      ensures etherFrameType == EthernetResult(old(View()), packet)
      ensures View() == EthernetPart(old(View()), packet)
    {
      ghost var t, before := View(), slots[..];
      etherFrameType := LoadBe16(platform.host, packet, 18);
      slots[curPacketCount] := slots[curPacketCount].(etherType := etherFrameType);
      ViewOfPut(before, Shows(slots[curPacketCount]));
      assert View() == Put(t, t.slots[t.cur].(etherType := etherFrameType));
      if etherFrameType == BEACON {
        BeaconTypeFirst(t, packet);
        etherFrameType := ParseBeacon(packet);
      }
    }

    /** The switch on the field just reported. */
    method HandleField(it: RadiotapIterator.Iterator, packet: Frame)
      requires Valid() && curPacketCount < MAX_PACKET_INFO_COUNT
      requires 0 <= it.thisArgIndex < FIELDS && it.thisArg >= 0
      requires EndOf(it.thisArgIndex, it.thisArg) <= |packet|
      modifies slots
      ensures slots[..] == old(slots[..])[curPacketCount := slots[curPacketCount]]
      ensures SlotOk(slots[curPacketCount])
      ensures Shows(slots[curPacketCount])
           == Handled(platform, packet, Shows(old(slots[curPacketCount])), it.thisArgIndex, it.thisArg)
      ensures FieldStored(platform, packet, it.thisArgIndex, it.thisArg, Shows(slots[curPacketCount]))
    {
      HandledByBytes(platform, packet, Shows(slots[curPacketCount]), it.thisArgIndex, it.thisArg);
      var cur, at := curPacketCount, it.thisArg;
      if it.thisArgIndex == RATE {
        slots[cur] := slots[cur].(dataRateKbps := ByteAt(packet, at) * 500);
      } else if it.thisArgIndex == ANTENNA {
        slots[cur] := slots[cur].(antenna := ByteAt(packet, at));
      } else if it.thisArgIndex == DBM_ANTSIGNAL {
        slots[cur] := slots[cur].(power := CharAt(platform, packet, at));
      } else if it.thisArgIndex == CHANNEL {
        var channel := LoadNative16(platform.host, packet, at);
        slots[cur] := slots[cur].(channel := channel);
      }
    }

    /** The iterator stands before call n of the walk, and the slot holds the fields of
        the calls before. */
    ghost predicate Walking(it: RadiotapIterator.Iterator, packet: Frame, rec: Rec, g: Iter, n: nat)
      requires HeaderOk(packet)
      reads this, slots, outputBuff, it
    {
      WalkInBounds(packet);
      && Valid() && curPacketCount < MAX_PACKET_INFO_COUNT
      && g.argIndex <= FIELDS && it.State() == g.(thisArgIndex := it.thisArgIndex)
      && n < |Walk(packet)| && Trace(PadIndex, g) == Walk(packet)[n..]
      && it.rtheader == packet
      && Shows(slots[curPacketCount]) == WithFields(platform, packet, rec, Walk(packet), n)
    }

    /** One turn of the loop of parseRadioTap. */
    method RadioTapTurn(it: RadiotapIterator.Iterator, packet: Frame, ghost rec: Rec, ghost g: Iter, ghost n: nat)
      returns (ret: int)
      requires HeaderOk(packet) && Walking(it, packet, rec, g, n)
      modifies it, slots
      ensures ret == Next(PadIndex, g).1 && (ret == -1 <==> n + 1 == |Walk(packet)|)
      ensures ret == -1 ==> Valid() && slots[..] == old(slots[..])
      ensures ret != -1 ==>
                && g.argIndex < Next(PadIndex, g).0.argIndex
                && Walking(it, packet, rec, Next(PadIndex, g).0, n + 1)
                && slots[..] == old(slots[..])[curPacketCount := slots[curPacketCount]]
    {
      ghost var t := Walk(packet);
      WalkInBounds(packet);
      ThisArgIndexIsNotRead(PadIndex, g, it.thisArgIndex);
      TraceHead(g, t, n);
      ret := it.Next();
      if ret != -1 {
        assert it.State() == Next(PadIndex, g).0;
        WithFieldsStep(platform, packet, rec, t, n);
        assert CallInBounds(packet, t[n]);
        HandleField(it, packet);
      }
    }

    /** parseRadioTap, on a header on which it returns. */
    method ParseRadioTap(packet: Frame, packetBufLen: int) returns (r: int)
      requires Valid() && curPacketCount < MAX_PACKET_INFO_COUNT
      requires packetBufLen == BUFSIZ && HeaderOk(packet)
      modifies slots
      ensures Valid() && r == 0
      ensures slots[..] == old(slots[..])[curPacketCount := slots[curPacketCount]]
      ensures Shows(slots[curPacketCount]) == WithRadiotap(platform, packet, Shows(old(slots[curPacketCount])))
    {
      ghost var rec := Shows(slots[curPacketCount]);
      WalkInBounds(packet);
      var it := new RadiotapIterator.Iterator(platform.host);
      var ret := it.Init(Header(packet), packetBufLen);
      r := 0;
      ghost var g, n := Start(packet, 0), 0;
      assert Walk(packet)[0..] == Walk(packet);
      while ret != -1
        invariant ret != -1 && n >= 0
        invariant Walking(it, packet, rec, g, n)
        invariant fresh(it)
        invariant slots[..] == old(slots[..])[curPacketCount := slots[curPacketCount]]
        decreases FIELDS - g.argIndex
      {
        ret := RadioTapTurn(it, packet, rec, g, n);
        if ret == -1 {
          WithFieldsEnd(platform, packet, rec, Walk(packet));
          return 0;
        }
        g, n := Next(PadIndex, g).0, n + 1;
      }
      // The code after the loop is never reached: inside it every -1 returns.
      assert false;
    }

    /** packet_capture_callback. */
    method PacketCaptureCallback(packet: Frame)
      requires Valid() && Legal(View(), packet)
      modifies slots, this`ntoa, this`dupPacketsDiscarded, this`packetsSameSsidDiffBssid
      modifies this`curPacketCount, this`packetInfoCount
      ensures Valid()
      ensures View() == Deliver(platform, old(View()), packet)
    {
      if curPacketCount >= MAX_PACKET_INFO_COUNT {
        return;
      }
      DeliverParts(platform, View(), packet);
      var ethernetType := ParseEthernet(packet);
      if ethernetType == 0 {
        return;
      }
      ghost var before, t1 := slots[..], View();
      assert t1.slots[curPacketCount] == Shows(slots[curPacketCount]);
      if slots[curPacketCount].etherType == BEACON {
        var retVal := ParseRadioTap(packet, BUFSIZ);
      }
      ViewOfPut(before, Shows(slots[curPacketCount]));
      curPacketCount := curPacketCount + 1;
      packetInfoCount := packetInfoCount + 1;
    }

    /** pcap_loop: the callback on each frame in turn. */
    method PcapLoop(frames: seq<Frame>)
      requires Valid() && LegalRun(platform, View(), frames)
      modifies slots, this`ntoa, this`dupPacketsDiscarded, this`packetsSameSsidDiffBssid
      modifies this`curPacketCount, this`packetInfoCount
      ensures Valid() && View() == Run(platform, old(View()), frames)
    {
      ghost var t0, t := View(), View();
      var k: nat := 0;
      while k < |frames|
        invariant k <= |frames| && Valid() && View() == t
        invariant t == Run(platform, t0, frames[..k])
      {
        RunNext(platform, t0, frames, k);
        PacketCaptureCallback(frames[k]);
        t := Deliver(platform, t, frames[k]);
        k := k + 1;
      }
      assert frames[..k] == frames;
    }

    /** capture_packets, once the device is open: the resets and the capture loop. */
    method CapturePackets(numOfPackets: nat, air: seq<Frame>)
      requires Valid() && numOfPackets == Server.MAX_PACKET_CAPTURE_COUNT
      requires LegalRun(platform, Reset(View()), Server.Delivered(air))
      modifies slots, this`ntoa, this`dupPacketsDiscarded, this`packetsSameSsidDiffBssid
      modifies this`curPacketCount, this`packetInfoCount
      ensures Valid()
      ensures View() == Server.Captured(platform, old(View()), air)
    {
      ghost var t0 := Reset(View());
      curPacketCount := 0;
      dupPacketsDiscarded := 0;
      packetsSameSsidDiffBssid := 0;
      packetInfoCount := 0;
      assert View() == t0;
      PcapLoop(if |air| <= numOfPackets then air else air[..numOfPackets]);
    }

    // ---------------------------------------------------------------- the output buffer

    /** sprintf to buff_ptr: the text and a terminator. */
    method Sprintf(text: string) returns (cnt: nat)
      requires Valid() && buffPtr + |text| < MAX_OUTPUT_BUFFER_SIZE
      modifies outputBuff
      ensures Valid() && cnt == |text|
      ensures outputBuff[..buffPtr + cnt] == old(outputBuff[..buffPtr]) + text
      ensures outputBuff[buffPtr + cnt] == NUL
    {
      forall i | 0 <= i < |text| {
        outputBuff[buffPtr + i] := text[i];
      }
      outputBuff[buffPtr + |text|] := NUL;
      assert outputBuff[..][buffPtr + |text|] == NUL;
      return |text|;
    }

    method WritePacket(curPacketNum: nat)
      requires Valid() && curPacketNum < MAX_PACKET_INFO_COUNT
      requires buffPtr + |PacketText(View().slots[curPacketNum])| < MAX_OUTPUT_BUFFER_SIZE
      modifies this`buffPtr, outputBuff
      ensures Valid()
      ensures buffPtr == old(buffPtr) + |PacketText(View().slots[curPacketNum])| < outputBuff.Length
      ensures outputBuff[..buffPtr] == old(outputBuff[..buffPtr]) + PacketText(View().slots[curPacketNum])
      ensures outputBuff[buffPtr] == NUL
    {
      var cnt := Sprintf(PacketText(Shows(slots[curPacketNum])));
      buffPtr := buffPtr + cnt;
    }

    /** The body of the loop of generateJson: a packet, and a comma unless it is the last. */
    method WriteEntry(pktCount: nat)
      requires Valid() && pktCount < packetInfoCount
      requires Fits(Saved(View()))
      requires buffPtr < outputBuff.Length && outputBuff[..buffPtr] == Progress(Saved(View()), pktCount)
      modifies this`buffPtr, outputBuff
      ensures Valid()
      ensures buffPtr < outputBuff.Length && outputBuff[..buffPtr] == Progress(Saved(View()), pktCount + 1)
    {
      ghost var rs := Saved(View());
      ProgressStep(rs, pktCount);
      ProgressGrows(rs, pktCount + 1);
      WritePacket(pktCount);
      if pktCount < packetInfoCount - 1 {
        var cnt := Sprintf(",");
        buffPtr := buffPtr + cnt;
      }
    }

    /** The JSON of the table, its end under buff_ptr. */
    method GenerateJson()
      requires Valid() && Fits(Saved(View()))
      modifies this`buffPtr, outputBuff
      ensures Valid()
      ensures buffPtr < outputBuff.Length && outputBuff[buffPtr] == NUL
      ensures outputBuff[..buffPtr] == Text(Saved(View()))
      ensures Response() == Text(Saved(View()))
    {
      ghost var rs := Saved(View());
      WriteHead();
      var pktCount: nat := 0;
      while pktCount < packetInfoCount
        invariant pktCount <= packetInfoCount && Valid()
        invariant buffPtr < outputBuff.Length && outputBuff[..buffPtr] == Progress(rs, pktCount)
      {
        WriteEntry(pktCount);
        pktCount := pktCount + 1;
      }
      WriteTail();
    }

    method WriteHead()
      requires Valid() && Fits(Saved(View()))
      modifies this`buffPtr, outputBuff
      ensures Valid()
      ensures buffPtr < outputBuff.Length && outputBuff[..buffPtr] == Progress(Saved(View()), 0)
    {
      ghost var rs := Saved(View());
      ProgressGrows(rs, 0);
      EmptyProgress(rs);
      buffPtr := 0;
      var cnt := Sprintf(HEAD);
      buffPtr := buffPtr + cnt;
      assert outputBuff[..buffPtr] == HEAD;
    }

    method WriteTail()
      requires Valid() && Fits(Saved(View()))
      requires buffPtr < outputBuff.Length && outputBuff[..buffPtr] == Progress(Saved(View()), packetInfoCount)
      modifies this`buffPtr, outputBuff
      ensures Valid()
      ensures buffPtr < outputBuff.Length && outputBuff[buffPtr] == NUL
      ensures outputBuff[..buffPtr] == Text(Saved(View()))
      ensures Response() == Text(Saved(View()))
    {
      ghost var rs := Saved(View());
      ProgressGrows(rs, |rs|);
      var cnt := Sprintf(TAIL);
      buffPtr := buffPtr + cnt;
      TextHasNoNul(rs);
      CStrUpTo(outputBuff[..], buffPtr);
    }

    /** process_client_command; running is false when the process exits. */
    method ProcessClientCommand(command: string, opens: bool, air: seq<Frame>) returns (running: bool)
      requires Valid()
      requires Server.CommandOk(platform, Server.State(View(), Response(), true), Server.Input(command, opens, air))
      modifies this, slots, outputBuff
      ensures Valid()
      ensures Server.State(View(), Response(), running)
           == Server.Step(platform, Server.State(old(View()), old(Response()), true),
                          Server.Input(command, opens, air))
    {
      if command == "exit\r\n" {
        return false;
      } else if command == "exit" {
        return false;
      } else if command == "capture\r\n" {
        if !opens {
          return false;
        }
        CapturePackets(Server.MAX_PACKET_CAPTURE_COUNT, air);
        GenerateJson();
      } else if command == "capture" {
        if !opens {
          return false;
        }
        CapturePackets(Server.MAX_PACKET_CAPTURE_COUNT, air);
        GenerateJson();
      }
      return true;
    }
  }

  lemma {:induction false} TraceHead(g: Iter, t: seq<Call>, n: nat)
    requires g.argIndex <= FIELDS && n < |t| && Trace(PadIndex, g) == t[n..] && Last(t).ret == END
    ensures var r := Next(PadIndex, g);
      && t[n] == CallOf(r)
      && (n + 1 == |t| <==> r.1 == END)
      && (r.1 != END ==> r.1 == r.0.thisArgIndex >= 0 && Trace(PadIndex, r.0) == t[n + 1..])
  {
    var r := Next(PadIndex, g);
    assert t[n] == t[n..][0];
    assert t[n + 1..] == t[n..][1..];
    if r.1 >= 0 {
      HitStep(g);
    }
  }

  lemma {:induction false} ShowsAllUpdate(s: seq<Slot>, k: nat, x: Slot)
    requires k < |s|
    ensures ShowsAll(s[k := x]) == ShowsAll(s)[k := Shows(x)]
  {
  }

  lemma {:induction false} PrefixUpdate(s: seq<char>, chars: seq<char>, k: nat)
    requires k < |s| && k < |chars| && s[..k] == chars[..k]
    ensures s[k := chars[k]][..k + 1] == chars[..k + 1]
  {
    assert chars[..k + 1] == chars[..k] + [chars[k]];
    assert s[k := chars[k]][..k + 1] == s[..k] + [chars[k]];
  }

  lemma {:induction false} CountOtherNext(s: seq<Rec>, ssid: string, bssid: string, k: nat)
    requires k < |s|
    ensures CountOther(s[..k + 1], ssid, bssid)
         == CountOther(s[..k], ssid, bssid) + if s[k].ssid == ssid && s[k].bssid != bssid then 1 else 0
  {
    assert s[..k + 1][..k] == s[..k];
  }

  lemma {:induction false} FirstMatchIs(s: seq<Rec>, ssid: string, bssid: string, m: nat)
    requires m <= |s|
    requires forall j :: 0 <= j < m ==> s[j].ssid != ssid || s[j].bssid != bssid
    requires m < |s| ==> s[m].ssid == ssid && s[m].bssid == bssid
    ensures FirstMatch(s, ssid, bssid) == m
  {
  }

  // The k-th step of a legal run.
  lemma {:induction false} RunNext(p: Platform, t: Table, fs: seq<Frame>, k: nat)
    requires Capture.Valid(t) && LegalRun(p, t, fs) && k < |fs|
    ensures Legal(Run(p, t, fs[..k]), fs[k])
    ensures Run(p, t, fs[..k + 1]) == Deliver(p, Run(p, t, fs[..k]), fs[k])
    decreases |fs|
  {
    var front := fs[..|fs| - 1];
    if k < |fs| - 1 {
      RunNext(p, t, front, k);
      assert front[..k] == fs[..k] && front[..k + 1] == fs[..k + 1];
    } else {
      assert fs[..k + 1] == fs;
    }
  }
}
