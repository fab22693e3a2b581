/**
 The command loop of the capture server as a state machine: what a sequence of
 client commands does to the table and to the text sent back.
 */
module Server {
  import opened Wrappers
  import opened ByteOrder
  import opened CText
  import opened Capture
  import opened CaptureTheorems
  import opened CaptureMeaning
  import opened CaptureRecords
  import opened Json

  const MAX_PACKET_CAPTURE_COUNT: nat := 100

  /** response is what write sends: output_buff up to its terminator. */
  datatype State = State(table: Table, response: string, running: bool)

  /** A command with what a capture would meet: whether the device opens and takes the
      filter, and the frames that then arrive. */
  datatype Input = Input(command: string, opens: bool, air: seq<Frame>)

  predicate IsExit(c: string) {
    c == "exit\r\n" || c == "exit"
  }

  predicate IsCapture(c: string) {
    c == "capture\r\n" || c == "capture"
  }

  /** pcap_loop stops after the requested number of packets. */
  function Delivered(air: seq<Frame>): (d: seq<Frame>)
    ensures |d| <= MAX_PACKET_CAPTURE_COUNT
  {
    if |air| <= MAX_PACKET_CAPTURE_COUNT then air else air[..MAX_PACKET_CAPTURE_COUNT]
  }

  function Captured(p: Platform, t: Table, air: seq<Frame>): (t': Table)
    requires Valid(t)
    ensures Valid(t') && |t'.slots| == |t.slots|
  {
    Run(p, Reset(t), Delivered(air))
  }

  /** process_client_command, then the write of main. */
  function Step(p: Platform, s: State, i: Input): (s': State)
    requires Valid(s.table)
    ensures Valid(s'.table)
  {
    if !s.running then s
    else if IsExit(i.command) || (IsCapture(i.command) && !i.opens) then s.(running := false)
    else if IsCapture(i.command) then
      var t := Captured(p, s.table, i.air);
      s.(table := t, response := Text(Saved(t)))
    else s
  }

  function Serve(p: Platform, s: State, ins: seq<Input>): (s': State)
    requires Valid(s.table)
    ensures Valid(s'.table)
  {
    if ins == [] then s else Step(p, Serve(p, s, ins[..|ins| - 1]), ins[|ins| - 1])
  }

  predicate Captures(s: State, i: Input) {
    s.running && IsCapture(i.command) && i.opens
  }

  /** How many captures have been completed. */
  function Completed(p: Platform, s: State, ins: seq<Input>): nat
    requires Valid(s.table)
  {
    if ins == [] then 0
    else
      var front := ins[..|ins| - 1];
      Completed(p, s, front) + if Captures(Serve(p, s, front), ins[|ins| - 1]) then 1 else 0
  }

  // ---------------------------------------------------------------- commands, spelled out

  /** What each command does to a running server. */
  lemma {:induction false} CommandsSpelled(p: Platform, s: State, i: Input)
    requires Valid(s.table) && s.running
    ensures (i.command == "capture" || i.command == "capture\r\n") && i.opens ==>
      var t := Captured(p, s.table, i.air); Step(p, s, i) == State(t, Text(Saved(t)), true)
    ensures (i.command == "capture" || i.command == "capture\r\n") && !i.opens ==>
      Step(p, s, i) == State(s.table, s.response, false)
    ensures i.command == "exit" || i.command == "exit\r\n" ==> Step(p, s, i) == State(s.table, s.response, false)
    ensures (i.command != "capture" && i.command != "capture\r\n" && i.command != "exit" && i.command != "exit\r\n") ==>
      Step(p, s, i) == s
  {
    assert "exit"[0] != 'c' && "exit\r\n"[0] != 'c' && "capture"[0] == 'c' && "capture\r\n"[0] == 'c';
  }

  /** A server that has exited does nothing more. */
  lemma {:induction false} ExitIsFinal(p: Platform, s: State, ins: seq<Input>)
    requires Valid(s.table) && !s.running
    ensures Serve(p, s, ins) == s
    decreases |ins|
  {
    if ins != [] {
      ExitIsFinal(p, s, ins[..|ins| - 1]);
    }
  }

  /** A capture delivers a prefix of what is in the air: all of it, or the first hundred. */
  lemma {:induction false} DeliveredIsLongestPrefix(air: seq<Frame>)
    ensures Delivered(air) <= air && |Delivered(air)| <= 100
    ensures forall n: nat :: n <= |air| && n <= 100 ==> air[..n] <= Delivered(air)
  {
  }

  /** The counters of a capture count from zero, whatever the state before: kept beacons,
      discarded duplicates, and the same-SSID counter with its bound. */
  lemma {:induction false} CaptureCountsFromZero(p: Platform, t: Table, air: seq<Frame>)
    requires Valid(t) && |t.slots| == MAX_PACKET_INFO_COUNT && AllBeacons(Delivered(air))
    ensures var t0, fs := t.(cur := 0, infoCount := 0, dups := 0, sameSsid := 0), Delivered(air);
      var t' := Captured(p, t, air);
      && t'.cur == t'.infoCount == Count(p, t0, fs, Kept) && t'.dups == Count(p, t0, fs, Duplicate)
      && t'.sameSsid == Pairs(Saved(t')) + DuplicateWork(p, t0, fs) <= 3625
  {
    var t0 := Reset(t);
    CallbacksAreConserved(p, t0, Delivered(air));
    SameSsidCounter(p, t0, Delivered(air));
    SameSsidCounterBoundOfProgram(p, t0, Delivered(air));
  }

  // ---------------------------------------------------------------- which runs the program survives

  const BLANK := Rec(0, 0, 0, 0, 0, "", "", "", "")

  /** The zeroed globals. */
  function Initial(): (s: State)
    ensures Valid(s.table) && |s.table.slots| == MAX_PACKET_INFO_COUNT && s.table.cur == 0
  {
    State(Table(seq(MAX_PACKET_INFO_COUNT, _ => BLANK), 0, 0, 0, 0), "", true)
  }

  /** What a command needs: a capture has a kept header on which parseRadioTap returns,
      every time, and leaves a table whose text fits the output buffer. */
  predicate CommandOk(p: Platform, s: State, i: Input)
    requires Valid(s.table)
  {
    Captures(s, i) ==>
      && LegalRun(p, Reset(s.table), Delivered(i.air))
      && Fits(Saved(Captured(p, s.table, i.air)))
  }

  predicate ServeOk(p: Platform, s: State, ins: seq<Input>)
    requires Valid(s.table)
  {
    ins == []
    || (ServeOk(p, s, ins[..|ins| - 1]) && CommandOk(p, Serve(p, s, ins[..|ins| - 1]), ins[|ins| - 1]))
  }

  lemma {:induction false} ServeOkSnoc(p: Platform, s: State, ins: seq<Input>, i: Input)
    requires Valid(s.table)
    ensures ServeOk(p, s, ins + [i]) <==> ServeOk(p, s, ins) && CommandOk(p, Serve(p, s, ins), i)
    ensures Serve(p, s, ins + [i]) == Step(p, Serve(p, s, ins), i)
  {
    assert (ins + [i])[..|ins + [i]| - 1] == ins;
  }

  lemma {:induction false} ServeKeepsSlotsOk(p: Platform, s: State, ins: seq<Input>)
    requires Valid(s.table) && SlotsOk(p, s.table)
    ensures SlotsOk(p, Serve(p, s, ins).table)
    ensures |Serve(p, s, ins).table.slots| == |s.table.slots|
    decreases |ins|
  {
    if ins != [] {
      var s', i := Serve(p, s, ins[..|ins| - 1]), ins[|ins| - 1];
      ServeKeepsSlotsOk(p, s, ins[..|ins| - 1]);
      RunKeepsSlotsOk(p, Reset(s'.table), Delivered(i.air));
    }
  }

  /** After any commands, a capture that keeps few enough records fits the buffer. */
  lemma {:induction false} SmallCaptureFits(p: Platform, ins: seq<Input>, i: Input)
    requires var t := Captured(p, Serve(p, Initial(), ins).table, i.air); t.cur <= Capacity(p)
    ensures Fits(Saved(Captured(p, Serve(p, Initial(), ins).table, i.air)))
  {
    var s := Serve(p, Initial(), ins);
    ServeKeepsSlotsOk(p, Initial(), ins);
    RunKeepsSlotsOk(p, Reset(s.table), Delivered(i.air));
    FewRecordsFit(p, Saved(Captured(p, s.table, i.air)));
  }

  /** After some commands, a capture in which parseRadioTap always returns keeps n records. */
  predicate CaptureKeeps(p: Platform, ins: seq<Input>, i: Input, n: nat) {
    && ServeOk(p, Initial(), ins)
    && (var s := Serve(p, Initial(), ins);
        && Captures(s, i) && LegalRun(p, Reset(s.table), Delivered(i.air))
        && Captured(p, s.table, i.air).cur == n)
  }

  /** A capture of n different networks with the longest records. */
  function LongInput(n: nat): (i: Input)
    requires n <= MAX_PACKET_INFO_COUNT
    ensures IsCapture(i.command) && i.opens && Delivered(i.air) == LongAir(n)
  {
    Input("capture", true, LongAir(n))
  }

  lemma {:induction false} LongCapture(p: Platform, t: Table, n: nat)
    requires Valid(t) && t.cur == 0 && |t.slots| == MAX_PACKET_INFO_COUNT && n <= MAX_PACKET_INFO_COUNT
    ensures var t' := Run(p, t, LongAir(n));
      LegalRun(p, t, LongAir(n)) && t'.cur == n && (Fits(Saved(t')) <==> n <= Capacity(p))
  {
    var s := Saved(Run(p, t, LongAir(n)));
    LongRun(p, t, n);
    forall k | 0 <= k < n ensures |PacketText(s[k])| == LongestPacket(p) {
      LargestIsLongest(p, s[k]);
    }
    LongestRecordsFitIff(p, s);
  }

  /** As the first command it stays within the limits exactly for n up to the capacity. */
  lemma {:induction false} LongCommand(p: Platform, n: nat)
    requires n <= MAX_PACKET_INFO_COUNT
    ensures CaptureKeeps(p, [], LongInput(n), n)
    ensures CommandOk(p, Serve(p, Initial(), []), LongInput(n)) <==> n <= Capacity(p)
  {
    var s, t := Initial(), Reset(Initial().table);
    assert Serve(p, s, []) == s && ServeOk(p, s, []);
    assert Captured(p, s.table, LongInput(n).air) == Run(p, t, LongAir(n));
    LongCapture(p, t, n);
  }

  lemma {:induction false} SmallCaptureIsOk(p: Platform, ins: seq<Input>, i: Input, n: nat)
    requires n <= Capacity(p) && CaptureKeeps(p, ins, i, n)
    ensures CommandOk(p, Serve(p, Initial(), ins), i)
  {
    SmallCaptureFits(p, ins, i);
  }

  /** From the zeroed globals and over every command sequence: whatever else arrives, a
      capture that keeps n records fits the output buffer exactly when n is at most 43, or
      44 where plain `char` is unsigned.  The table keeps up to 50. */
  lemma {:induction false} CaptureFitsIff(p: Platform, n: nat)
    requires n <= MAX_PACKET_INFO_COUNT
    ensures (forall ins, i :: CaptureKeeps(p, ins, i, n) ==> CommandOk(p, Serve(p, Initial(), ins), i))
       <==> n <= Capacity(p)
  {
    if n <= Capacity(p) {
      forall ins, i | CaptureKeeps(p, ins, i, n) ensures CommandOk(p, Serve(p, Initial(), ins), i) {
        SmallCaptureIsOk(p, ins, i, n);
      }
    } else {
      LongCommand(p, n);
    }
  }

  /** So a capture of beacons with the standard header is within the program's limits
      when at most that many networks answer. */
  lemma {:induction false} StandardCaptureIsOk(p: Platform, ins: seq<Input>, i: Input)
    requires ServeOk(p, Initial(), ins)
    requires AllBeacons(Delivered(i.air)) && |Distinct(ArrivalKeys(Delivered(i.air)))| <= Capacity(p)
    requires forall k :: 0 <= k < |Delivered(i.air)| ==> StandardHeader(Delivered(i.air)[k])
    ensures CommandOk(p, Serve(p, Initial(), ins), i) && ServeOk(p, Initial(), ins + [i])
  {
    ServeOkSnoc(p, Initial(), ins, i);
    var t := Reset(Serve(p, Initial(), ins).table);
    StandardRuns(p, t, Delivered(i.air));
    SavedAreFirstOccurrences(p, t, Delivered(i.air));
    SmallCaptureFits(p, ins, i);
  }

  // ---------------------------------------------------------------- what is sent back

  /** Over every command sequence that stays within those limits: from the first completed
      capture on, the response is the JSON of the current table; until then neither has
      changed. */
  lemma {:induction false} ResponseIsTableJson(p: Platform, s: State, ins: seq<Input>)
    requires Valid(s.table) && ServeOk(p, s, ins)
    ensures var s' := Serve(p, s, ins);
      if Completed(p, s, ins) > 0 then s'.response == Text(Saved(s'.table))
      else s'.table == s.table && s'.response == s.response
    decreases |ins|
  {
    if ins != [] {
      ResponseIsTableJson(p, s, ins[..|ins| - 1]);
    }
  }

  lemma {:induction false} CaptureStep(p: Platform, s: State, i: Input)
    requires Valid(s.table) && Captures(s, i)
    ensures var t := Captured(p, s.table, i.air); Step(p, s, i) == s.(table := t, response := Text(Saved(t)))
  {
    assert "exit"[0] != 'c' && "exit\r\n"[0] != 'c' && "capture"[0] == 'c' && "capture\r\n"[0] == 'c';
  }

  predicate PlainKeys(ks: seq<Key>) {
    forall k <- ks :: Plain(k.ssid)
  }

  // Addresses of a record saved in this capture come from its frame.
  lemma {:induction false} SavedAddressesArePlain(p: Platform, t: Table, fs: seq<Frame>, k: nat)
    requires Valid(t) && t.cur == 0 && AllBeacons(fs) && LegalRun(p, t, fs) && k < |Saved(Run(p, t, fs))|
    ensures PlainAddresses(Saved(Run(p, t, fs))[k])
  {
    SavedAreFirstFrames(p, t, fs);
    var f := FirstFrames(fs)[k];
    AddressIsPlain(f, BSSID_AT);
    AddressIsPlain(f, SRC_AT);
    AddressIsPlain(f, DST_AT);
    FillAddresses(p, f, Saved(Run(p, t, fs))[k]);
  }

  lemma {:induction false} FillAddresses(p: Platform, f: Frame, r: Rec)
    requires IsBeacon(f)
    ensures var q := Fill(p, f, r);
      q.src == AddressAt(f, SRC_AT) && q.dst == AddressAt(f, DST_AT) && q.bssid == AddressAt(f, BSSID_AT)
  {
  }

  lemma {:induction false} PlainSavedKeys(s: seq<Rec>)
    ensures PlainKeys(SavedKeys(s)) <==> PlainSsids(s)
  {
    assert forall k :: 0 <= k < |s| ==> SavedKeys(s)[k].ssid == s[k].ssid && SavedKeys(s)[k] in SavedKeys(s);
  }

  /** Whatever came before, a capture of beacons saves the first distinct keys that
      arrived, at most one per slot, and the text sent reads back as the saved records
      exactly when all those keys have a plain SSID. */
  lemma {:induction false} CaptureReportsFirstOccurrences(p: Platform, s: State, i: Input)
    requires Valid(s.table) && Captures(s, i) && CommandOk(p, s, i) && AllBeacons(Delivered(i.air))
    ensures var s', first := Step(p, s, i), AtMost(Distinct(ArrivalKeys(Delivered(i.air))), |s.table.slots|);
      && SavedKeys(Saved(s'.table)) == first
      && (Decode(s'.response) == Some(ShownAll(Saved(s'.table))) <==> PlainKeys(first))
  {
    var t, air := Reset(s.table), Delivered(i.air);
    var saved := Saved(Run(p, t, air));
    CaptureStep(p, s, i);
    SavedAreFirstOccurrences(p, t, air);
    forall k | 0 <= k < |saved| ensures PlainAddresses(saved[k]) {
      SavedAddressesArePlain(p, t, air, k);
    }
    PlainSavedKeys(saved);
    DecodePrintedIff(saved);
  }

  /** The record of a frame, by its own bytes. */
  function ShownFrame(p: Platform, f: Frame): Shown
    requires IsBeacon(f)
  {
    ShownOf(Fill(p, f, BLANK))
  }

  lemma {:induction false} ShownAllAt(rs: seq<Rec>, k: nat)
    requires k < |rs|
    ensures ShownAll(rs)[k] == ShownOf(rs[k])
  {
    if k > 0 {
      ShownAllAt(rs[1..], k - 1);
    }
  }

  /** What the client gets to read, when the beacons report their radio fields and the
      keys saved have plain SSIDs: one record for each network in the order of their first
      beacons, as far as there are slots, with the eight fields of that first beacon. */
  lemma {:induction false} CaptureReportsFirstFrames(p: Platform, s: State, i: Input)
    requires Valid(s.table) && Captures(s, i) && CommandOk(p, s, i) && AllBeacons(Delivered(i.air))
    requires KeepsReportAll(p, Reset(s.table), Delivered(i.air))
    requires PlainKeys(AtMost(Distinct(ArrivalKeys(Delivered(i.air))), |s.table.slots|))
    ensures var ff, d := FirstFrames(Delivered(i.air)), Decode(Step(p, s, i).response);
      && d.Some? && |d.value| == (if |ff| <= |s.table.slots| then |ff| else |s.table.slots|)
      && forall k :: 0 <= k < |d.value| ==> IsBeacon(ff[k]) && d.value[k] == ShownFrame(p, ff[k])
  {
    var t, air := Reset(s.table), Delivered(i.air);
    CaptureReportsFirstOccurrences(p, s, i);
    CaptureStep(p, s, i);
    SavedAreFirstFrames(p, t, air);
    var ff, v := FirstFrames(air), ShownAll(Saved(Run(p, t, air)));
    forall k | 0 <= k < |v| ensures IsBeacon(ff[k]) && v[k] == ShownFrame(p, ff[k]) {
      ShownIsOfItsFrame(p, t, air, k);
    }
  }

  lemma {:induction false} ShownIsOfItsFrame(p: Platform, t: Table, fs: seq<Frame>, k: nat)
    requires Valid(t) && t.cur == 0 && AllBeacons(fs) && KeepsReportAll(p, t, fs)
    requires k < |Saved(Run(p, t, fs))|
    ensures k < |FirstFrames(fs)| && IsBeacon(FirstFrames(fs)[k])
    ensures ShownAll(Saved(Run(p, t, fs)))[k] == ShownFrame(p, FirstFrames(fs)[k])
  {
    SavedAreOfTheirFrames(p, t, fs, k, BLANK);
    ShownAllAt(Saved(Run(p, t, fs)), k);
  }

  /** End to end: after any commands, a capture of beacons with the standard header and
      plain SSIDs, from at most 43 networks (44 where plain `char` is unsigned), is answered
      with a text that reads back as exactly these networks, in order of arrival, each
      with the bytes of its first beacon. */
  lemma {:induction false} StandardCaptureReadsBack(p: Platform, ins: seq<Input>, i: Input)
    requires ServeOk(p, Initial(), ins) && Captures(Serve(p, Initial(), ins), i)
    requires AllBeacons(Delivered(i.air)) && |FirstFrames(Delivered(i.air))| <= Capacity(p)
    requires forall k :: 0 <= k < |Delivered(i.air)| ==> StandardHeader(Delivered(i.air)[k])
    requires PlainKeys(ArrivalKeys(Delivered(i.air)))
    ensures var ff, d := FirstFrames(Delivered(i.air)), Decode(Step(p, Serve(p, Initial(), ins), i).response);
      && d.Some? && |d.value| == |ff|
      && forall k :: 0 <= k < |ff| ==>
            IsBeacon(ff[k]) && StandardHeader(ff[k]) && ShowsBeacon(p, ff[k], d.value[k])
  {
    ServeKeepsSlots(p, Initial(), ins);
    FirstFramesHaveDistinctKeys(Delivered(i.air));
    StandardCaptureIsOk(p, ins, i);
    StandardCaptureReports(p, Serve(p, Initial(), ins), i);
  }

  lemma {:induction false} StandardCaptureReports(p: Platform, s: State, i: Input)
    requires Valid(s.table) && Captures(s, i) && CommandOk(p, s, i) && AllBeacons(Delivered(i.air))
    requires forall k :: 0 <= k < |Delivered(i.air)| ==> StandardHeader(Delivered(i.air)[k])
    requires PlainKeys(ArrivalKeys(Delivered(i.air)))
    ensures var ff, d := FirstFrames(Delivered(i.air)), Decode(Step(p, s, i).response);
      && d.Some? && |d.value| == (if |ff| <= |s.table.slots| then |ff| else |s.table.slots|)
      && forall k :: 0 <= k < |d.value| ==>
            IsBeacon(ff[k]) && StandardHeader(ff[k]) && ShowsBeacon(p, ff[k], d.value[k])
  {
    var air := Delivered(i.air);
    var ff, d := FirstFrames(air), Decode(Step(p, s, i).response);
    StandardRuns(p, Reset(s.table), air);
    CaptureReportsFirstFrames(p, s, i);
    forall k | 0 <= k < |d.value|
      ensures IsBeacon(ff[k]) && StandardHeader(ff[k]) && ShowsBeacon(p, ff[k], d.value[k])
    {
      FirstFrameIsStandard(p, air, k);
    }
  }

  lemma {:induction false} FirstFrameIsStandard(p: Platform, fs: seq<Frame>, k: nat)
    requires AllBeacons(fs) && k < |FirstFrames(fs)|
    requires forall j :: 0 <= j < |fs| ==> StandardHeader(fs[j])
    ensures var f := FirstFrames(fs)[k];
      IsBeacon(f) && StandardHeader(f) && ShowsBeacon(p, f, ShownFrame(p, f))
  {
    FirstFrameArrived(fs, k);
    var j :| 0 <= j < |fs| && fs[j] == FirstFrames(fs)[k];
    assert StandardHeader(fs[j]);
    FillShowsBeacon(p, fs[j], BLANK);
  }

  lemma {:induction false} ServeKeepsSlots(p: Platform, s: State, ins: seq<Input>)
    requires Valid(s.table)
    ensures |Serve(p, s, ins).table.slots| == |s.table.slots|
    decreases |ins|
  {
    if ins != [] {
      ServeKeepsSlots(p, s, ins[..|ins| - 1]);
    }
  }

  /** A capture of beacons shows nothing of what came before: from any two states with
      tables of the same size it leaves the same counters, records and response, when
      the walk of every beacon kept reports the four radio fields. */
  lemma {:induction false} CaptureForgetsHistory(p: Platform, s: State, u: State, i: Input)
    requires Valid(s.table) && Valid(u.table) && |s.table.slots| == |u.table.slots|
    requires Captures(s, i) && Captures(u, i) && CommandOk(p, s, i)
    requires AllBeacons(Delivered(i.air)) && KeepsReportAll(p, Reset(s.table), Delivered(i.air))
    ensures SameView(Step(p, s, i).table, Step(p, u, i).table)
    ensures Step(p, s, i).response == Step(p, u, i).response
    ensures CommandOk(p, u, i)
  {
    CaptureStep(p, s, i);
    CaptureStep(p, u, i);
    HistoryDoesNotShow(p, Reset(s.table), Reset(u.table), Delivered(i.air));
    ReportingRunsAreLegal(p, Reset(u.table), Delivered(i.air));
  }

  // ---------------------------------------------------------------- captures that go wrong

  /** One network named by a quote is enough for a response that does not read back. */
  lemma {:induction false} QuoteCaptureIsUnreadable(p: Platform, ins: seq<Input>, i: Input, f: Frame)
    requires ServeOk(p, Initial(), ins) && Captures(Serve(p, Initial(), ins), i)
    requires Delivered(i.air) == [f] && IsQuote(f)
    ensures ServeOk(p, Initial(), ins + [i])
    ensures Decode(Step(p, Serve(p, Initial(), ins), i).response) == None
  {
    var s := Serve(p, Initial(), ins);
    ServeOkSnoc(p, Initial(), ins, i);
    ServeKeepsSlots(p, Initial(), ins);
    QuoteRun(p, Reset(s.table), f);
    SmallCaptureFits(p, ins, i);
    CaptureStep(p, s, i);
    QuoteBreaksText(Saved(Captured(p, s.table, i.air)));
  }

  // One bare beacon, captured after some commands.
  lemma {:induction false} BareCapture(p: Platform, ins: seq<Input>, i: Input, f: Frame)
    requires ServeOk(p, Initial(), ins) && Captures(Serve(p, Initial(), ins), i)
    requires Delivered(i.air) == [f] && IsBare(f)
    ensures ServeOk(p, Initial(), ins + [i])
    ensures var s, t := Serve(p, Initial(), ins).table, Serve(p, Initial(), ins + [i]).table;
      |s.slots| > 0 && t.cur == 1 && Saved(t)[0].dataRateKbps == s.slots[0].dataRateKbps
  {
    var s := Serve(p, Initial(), ins);
    ServeOkSnoc(p, Initial(), ins, i);
    ServeKeepsSlots(p, Initial(), ins);
    CaptureStep(p, s, i);
    BareShowsItsSlot(p, Reset(s.table), f);
    SmallCaptureFits(p, ins, i);
  }

  lemma {:induction false} AfterLong(p: Platform)
    ensures ServeOk(p, Initial(), [] + [LongInput(1)])
    ensures var s := Serve(p, Initial(), [] + [LongInput(1)]);
      s.running && |s.table.slots| > 0 && s.table.slots[0].dataRateKbps == 127500
  {
    var t := Reset(Initial().table);
    ServeOkSnoc(p, Initial(), [], LongInput(1));
    LongCommand(p, 1);
    CaptureStep(p, Initial(), LongInput(1));
    LongRun(p, t, 1);
    assert Largest(p, Saved(Run(p, t, LongAir(1)))[0]);
  }

  /** A beacon without radio fields is sent with the rate of the network captured before
      it; as the first one, with 0. */
  lemma {:induction false} BareCaptureShowsTheOneBefore(p: Platform, i: Input, f: Frame)
    requires IsCapture(i.command) && i.opens && Delivered(i.air) == [f] && IsBare(f)
    ensures ServeOk(p, Initial(), [i]) && ServeOk(p, Initial(), [LongInput(1), i])
    ensures var t, u := Serve(p, Initial(), [i]).table, Serve(p, Initial(), [LongInput(1), i]).table;
      && t.cur == 1 && Saved(t)[0].dataRateKbps == 0
      && u.cur == 1 && Saved(u)[0].dataRateKbps == 127500
  {
    assert [] + [i] == [i] && [] + [LongInput(1)] + [i] == [LongInput(1), i];
    BareCapture(p, [], i, f);
    AfterLong(p);
    BareCapture(p, [] + [LongInput(1)], i, f);
  }
}
