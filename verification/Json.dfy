/**
 The JSON text that generateJson and writePacket print, a reader for it, and
 what the two have to do with each other.
 */
module Json {
  import opened Wrappers
  import opened CText
  import opened Capture
  import opened CaptureTheorems
  import opened JsonValue

  // ---------------------------------------------------------------- printing

  // The pieces of the format of writePacket: what stands before each value.
  const LABELS: seq<string> := [
    "{\"packet\":{\"datarate\":\"", ",\"antenna\":\"", ",\"channel\":\"", ",\"power\":\"",
    ",\"ssid\":\"", ",\"src\":\"", ",\"dst\":\"", ",\"bssid\":\""]

  const HEAD := "{\"packets\":["
  const CLOSE := "}}"
  const TAIL := "]}"

  function Values(r: Rec): (v: seq<string>)
    ensures |v| == |LABELS|
  {
    [Decimal(r.dataRateKbps), Decimal(r.antenna), Decimal(r.channel), Decimal(r.power),
     r.ssid, r.src, r.dst, r.bssid]
  }

  function Emit(labels: seq<string>, values: seq<string>): string
    requires |labels| == |values|
  {
    if labels == [] then ""
    else labels[0] + values[0] + "\"" + Emit(labels[1..], values[1..])
  }

  function PacketText(r: Rec): string {
    Emit(LABELS, Values(r)) + CLOSE
  }

  /** The packets, with a comma after all but the last. */
  function Body(rs: seq<Rec>): string {
    if rs == [] then ""
    else if |rs| == 1 then PacketText(rs[0])
    else PacketText(rs[0]) + "," + Body(rs[1..])
  }

  function Text(rs: seq<Rec>): string {
    HEAD + Body(rs) + TAIL
  }

  // ---------------------------------------------------------------- what the text says

  const NAMES: seq<string> := ["datarate", "antenna", "channel", "power", "ssid", "src", "dst", "bssid"]

  lemma {:induction false} EightNames()
    ensures |NAMES| == 8 && |LABELS| == 8
    ensures forall k :: 0 <= k < 8 ==> Plain(NAMES[k])
  {
  }

  lemma {:induction false} NamesDiffer(j: nat, k: nat)
    requires j < k < |NAMES|
    ensures NAMES[j] != NAMES[k]
  {
    assert |NAMES[0]| == 8 && |NAMES[1]| == 7 && |NAMES[2]| == 7 && |NAMES[3]| == 5;
    assert |NAMES[4]| == 4 && |NAMES[5]| == 3 && |NAMES[6]| == 3 && |NAMES[7]| == 5;
    assert NAMES[1][0] == 'a' && NAMES[2][0] == 'c' && NAMES[3][0] == 'p' && NAMES[7][0] == 'b';
    assert NAMES[5][0] == 's' && NAMES[6][0] == 'd';
  }

  /** The members of a packet, and the table as a JSON value. */
  function PacketMembers(r: Rec): (ms: seq<Member>)
    ensures |ms| == |NAMES| == |LABELS|
    ensures forall k :: 0 <= k < |ms| ==> ms[k] == Member(NAMES[k], Str(Values(r)[k]))
  {
    EightNames();
    seq(|NAMES|, k requires 0 <= k < |NAMES| => Member(NAMES[k], Str(Values(r)[k])))
  }

  function PacketValue(r: Rec): Value {
    Obj([Member("packet", Obj(PacketMembers(r)))])
  }

  function PacketValues(rs: seq<Rec>): (vs: seq<Value>)
    ensures |vs| == |rs|
  {
    if rs == [] then [] else [PacketValue(rs[0])] + PacketValues(rs[1..])
  }

  function TableValue(rs: seq<Rec>): Value {
    Obj([Member("packets", Arr(PacketValues(rs)))])
  }

  // What stands between two values.
  function Tag(open: string, name: string): string {
    open + Quoted(name) + ":\""
  }

  lemma {:induction false} EmitMembers(open: string, labels: seq<string>, values: seq<string>, ms: seq<Member>)
    requires |labels| == |values| == |ms| > 0
    requires forall k :: 0 <= k < |ms| ==> ms[k].value == Str(values[k])
    requires labels[0] == Tag(open, ms[0].name)
    requires forall k :: 1 <= k < |ms| ==> labels[k] == Tag(",", ms[k].name)
    ensures Emit(labels, values) == open + PrintMembers(ms)
    decreases |ms|
  {
    assert labels[0] + values[0] + "\"" == open + PrintMember(ms[0]);
    if |ms| > 1 {
      EmitMembers(",", labels[1..], values[1..], ms[1..]);
      Assoc(open + PrintMember(ms[0]), ",", PrintMembers(ms[1..]));
      Assoc(open, PrintMember(ms[0]) + ",", PrintMembers(ms[1..]));
      Assoc(open, PrintMember(ms[0]), ",");
    } else {
      assert Emit(labels[1..], values[1..]) == "";
    }
  }

  const OPEN := "{\"packet\":{"

  lemma {:induction false} LabelsSpell()
    ensures |LABELS| == |NAMES| == 8
    ensures LABELS[0] == Tag(OPEN, NAMES[0])
    ensures forall k :: 1 <= k < 8 ==> LABELS[k] == Tag(",", NAMES[k])
  {
    assert LABELS[1] == Tag(",", NAMES[1]);
    assert LABELS[2] == Tag(",", NAMES[2]);
    assert LABELS[3] == Tag(",", NAMES[3]);
    assert LABELS[4] == Tag(",", NAMES[4]);
    assert LABELS[5] == Tag(",", NAMES[5]);
    assert LABELS[6] == Tag(",", NAMES[6]);
    assert LABELS[7] == Tag(",", NAMES[7]);
  }

  lemma {:induction false} OuterLiterals()
    ensures OPEN == "{" + (Quoted("packet") + ":") + "{" && CLOSE == "}" + "}"
    ensures HEAD == "{" + (Quoted("packets") + ":") + "[" && TAIL == "]" + "}"
  {
  }

  lemma {:induction false} PrintSingle(m: Member)
    ensures Print(Obj([m])) == "{" + (Quoted(m.name) + ":" + Print(m.value)) + "}"
  {
    assert PrintMembers([m]) == PrintMember(m);
  }

  lemma {:induction false} Nest(a: string, t: string, b: string, x: string, c: string, d: string)
    ensures a + t + b + x + (c + d) == a + (t + (b + x + c)) + d
  {
  }

  lemma {:induction false} PacketIsPrinted(r: Rec)
    ensures PacketText(r) == Print(PacketValue(r))
  {
    var ms := PacketMembers(r);
    LabelsSpell();
    EmitMembers(OPEN, LABELS, Values(r), ms);
    OuterLiterals();
    PrintSingle(Member("packet", Obj(ms)));
    Nest("{", Quoted("packet") + ":", "{", PrintMembers(ms), "}", "}");
  }

  lemma {:induction false} BodyIsPrinted(rs: seq<Rec>)
    ensures Body(rs) == PrintItems(PacketValues(rs))
    decreases |rs|
  {
    if rs != [] {
      PacketIsPrinted(rs[0]);
      BodyIsPrinted(rs[1..]);
      assert PacketValues(rs)[1..] == PacketValues(rs[1..]);
    }
  }

  /** The text is the JSON of the table. */
  lemma {:induction false} TextIsPrinted(rs: seq<Rec>)
    ensures Text(rs) == Print(TableValue(rs))
  {
    BodyIsPrinted(rs);
    OuterLiterals();
    PrintSingle(Member("packets", Arr(PacketValues(rs))));
    Nest("{", Quoted("packets") + ":", "[", Body(rs), "]", "}");
  }

  // ---------------------------------------------------------------- reading

  /** The eight printed fields of a record. */
  datatype Shown = Shown(
    dataRateKbps: int, antenna: int, channel: int, power: int,
    ssid: string, src: string, dst: string, bssid: string)

  function ShownOf(r: Rec): Shown {
    Shown(r.dataRateKbps, r.antenna, r.channel, r.power, r.ssid, r.src, r.dst, r.bssid)
  }

  function ShownAll(rs: seq<Rec>): (v: seq<Shown>)
    ensures |v| == |rs|
  {
    if rs == [] then [] else [ShownOf(rs[0])] + ShownAll(rs[1..])
  }

  function GetText(v: Value, name: string): Option<string> {
    match Get(v, name)
    case Some(Str(text)) => Some(text)
    case _ => None
  }

  function GetNumber(v: Value, name: string): Option<int> {
    match GetText(v, name)
    case Some(text) => ParseDecimal(text)
    case None => None
  }

  /** The fields of one element, by name. */
  function ReadShown(item: Value): Option<Shown> {
    match Get(item, "packet")
    case None => None
    case Some(q) =>
      var rate, antenna, channel, power :=
        GetNumber(q, "datarate"), GetNumber(q, "antenna"), GetNumber(q, "channel"), GetNumber(q, "power");
      var ssid, src, dst, bssid := GetText(q, "ssid"), GetText(q, "src"), GetText(q, "dst"), GetText(q, "bssid");
      if rate.Some? && antenna.Some? && channel.Some? && power.Some?
         && ssid.Some? && src.Some? && dst.Some? && bssid.Some? then
        Some(Shown(rate.value, antenna.value, channel.value, power.value,
                   ssid.value, src.value, dst.value, bssid.value))
      else None
  }

  function ReadShownAll(items: seq<Value>): Option<seq<Shown>> {
    if items == [] then Some([])
    else
      match (ReadShown(items[0]), ReadShownAll(items[1..]))
      case (Some(shown), Some(rest)) => Some([shown] + rest)
      case _ => None
  }

  /** What a client makes of the text: the member "packets", element by element. */
  function Decode(s: string): Option<seq<Shown>> {
    match ReadValue(s)
    case Fail => None
    case Got(v, rest) =>
      match Get(v, "packets")
      case Some(Arr(items)) => if rest == "" then ReadShownAll(items) else None
      case _ => None
  }

  // ---------------------------------------------------------------- reading what was printed

  lemma {:induction false} GetPrinted(r: Rec, k: nat)
    requires k < |NAMES|
    ensures |NAMES| == 8 && Get(Obj(PacketMembers(r)), NAMES[k]) == Some(Str(Values(r)[k]))
  {
    EightNames();
    forall j | 0 <= j < k ensures NAMES[j] != NAMES[k] {
      NamesDiffer(j, k);
    }
    FindAt(PacketMembers(r), k);
  }

  /** By name, the members of a packet are the eight fields of its record. */
  lemma {:induction false} PacketByName(r: Rec)
    ensures var q := Obj(PacketMembers(r));
      && Get(q, "datarate") == Some(Str(Decimal(r.dataRateKbps))) && Get(q, "antenna") == Some(Str(Decimal(r.antenna)))
      && Get(q, "channel") == Some(Str(Decimal(r.channel))) && Get(q, "power") == Some(Str(Decimal(r.power)))
      && Get(q, "ssid") == Some(Str(r.ssid)) && Get(q, "src") == Some(Str(r.src))
      && Get(q, "dst") == Some(Str(r.dst)) && Get(q, "bssid") == Some(Str(r.bssid))
  {
    EightNames();
    GetPrinted(r, 0);
    GetPrinted(r, 1);
    GetPrinted(r, 2);
    GetPrinted(r, 3);
    GetPrinted(r, 4);
    GetPrinted(r, 5);
    GetPrinted(r, 6);
    GetPrinted(r, 7);
  }

  lemma {:induction false} ReadShownOfPacket(r: Rec)
    ensures ReadShown(PacketValue(r)) == Some(ShownOf(r))
  {
    PacketByName(r);
    ParseDecimalInverts(r.dataRateKbps);
    ParseDecimalInverts(r.antenna);
    ParseDecimalInverts(r.channel);
    ParseDecimalInverts(r.power);
  }

  predicate PlainAddresses(r: Rec) {
    Plain(r.src) && Plain(r.dst) && Plain(r.bssid)
  }

  predicate PlainSsids(rs: seq<Rec>) {
    forall k :: 0 <= k < |rs| ==> Plain(rs[k].ssid)
  }

  lemma {:induction false} DecimalIsPlain(n: int)
    ensures Plain(Decimal(n))
  {
  }

  lemma {:induction false} ValuesArePlain(r: Rec)
    requires PlainAddresses(r)
    ensures var v := Values(r); |v| == 8 && forall k :: 0 <= k < 8 && k != 4 ==> Plain(v[k])
  {
    EightNames();
    DecimalIsPlain(r.dataRateKbps);
    DecimalIsPlain(r.antenna);
    DecimalIsPlain(r.channel);
    DecimalIsPlain(r.power);
  }

  lemma {:induction false} MembersUpToSsid(r: Rec)
    requires PlainAddresses(r)
    ensures var ms := PacketMembers(r);
      && |ms| == 8 && PlainStrings(ms, 4) && Plain(ms[4].name) && ms[4] == Member("ssid", Str(r.ssid))
      && (Plain(r.ssid) ==> PlainStrings(ms, 8))
  {
    EightNames();
    ValuesArePlain(r);
  }

  lemma {:induction false} PacketIsPlain(r: Rec)
    requires PlainAddresses(r) && Plain(r.ssid)
    ensures AllPlain(PacketValue(r))
  {
    var ms := PacketMembers(r);
    MembersUpToSsid(r);
    MembersPlainMeans(ms);
    assert AllPlain(Obj(ms));
    MembersPlainMeans([Member("packet", Obj(ms))]);
  }

  lemma {:induction false} FirstOfName(ms: seq<Member>, qs: seq<Member>, k: nat)
    requires k < |ms| && k < |qs| && forall j :: 0 <= j <= k ==> qs[j].name == ms[j].name
    requires forall j :: 0 <= j < k ==> ms[j].name != ms[k].name
    ensures Find(qs, ms[k].name) == Some(qs[k].value)
  {
    FindAt(qs, k);
  }

  /** A packet whose SSID needs escapes reads back with another SSID, if at all. */
  lemma {:induction false} PacketNotPlain(r: Rec, rest: string)
    requires PlainAddresses(r) && !Plain(r.ssid)
    ensures var p := ReadValue(Print(PacketValue(r)) + rest); p.Got? ==> ReadShown(p.value) != Some(ShownOf(r))
  {
    var ms := PacketMembers(r);
    var p, q := ReadValue(Print(PacketValue(r)) + rest), ReadValue(Print(Obj(ms)) + ("}" + rest));
    ReadSingle(Member("packet", Obj(ms)), rest);
    ReadObj(ms, "}" + rest);
    MembersUpToSsid(r);
    ReadMembersNotPlain(ms, "}" + rest, 4);
    if p.Got? {
      forall j | 0 <= j < 4 ensures ms[j].name != ms[4].name {
        NamesDiffer(j, 4);
      }
      FirstOfName(ms, q.value.members, 4);
      assert GetText(q.value, "ssid") != Some(r.ssid);
    }
  }

  lemma {:induction false} ShownStep(rs: seq<Rec>)
    requires rs != []
    ensures ShownAll(rs) == [ShownOf(rs[0])] + ShownAll(rs[1..])
    ensures PacketValues(rs)[0] == PacketValue(rs[0]) && PacketValues(rs)[1..] == PacketValues(rs[1..])
  {
  }

  lemma {:induction false} ReadShownCons(x: Shown, items: seq<Value>, shown: seq<Shown>)
    requires items != [] && ReadShown(items[0]) == Some(x)
    ensures ReadShownAll(items) == Some([x] + shown) <==> ReadShownAll(items[1..]) == Some(shown)
  {
    var rest := ReadShownAll(items[1..]);
    if rest.Some? && [x] + rest.value == [x] + shown {
      assert rest.value == ([x] + rest.value)[1..] == ([x] + shown)[1..] == shown;
    }
  }

  lemma {:induction false} PlainSsidsStep(rs: seq<Rec>)
    requires rs != []
    ensures PlainSsids(rs) <==> Plain(rs[0].ssid) && PlainSsids(rs[1..])
  {
    assert forall k :: 1 <= k < |rs| ==> rs[1..][k - 1] == rs[k];
  }

  // What is read for the items of a table, if anything, and what it shows.
  predicate ItemsShow(p: Parse<seq<Value>>, rs: seq<Rec>) {
    p.Got? && ReadShownAll(p.value) == Some(ShownAll(rs))
  }

  lemma {:induction false} FirstNotPlain(rs: seq<Rec>, rest: string)
    requires rs != [] && PlainAddresses(rs[0]) && !Plain(rs[0].ssid)
    ensures !ItemsShow(ReadItems(PrintItems(PacketValues(rs)) + ("]" + rest)), rs)
  {
    var vs := PacketValues(rs);
    var p := ReadItems(PrintItems(vs) + ("]" + rest));
    ShownStep(rs);
    ReadFirstItem(vs, rest);
    PacketNotPlain(rs[0], AfterItem(vs, rest));
    assert p.Got? && ReadShownAll(p.value).Some? ==> ReadShown(p.value[0]) == Some(ReadShownAll(p.value).value[0]);
  }

  lemma {:induction false} ItemsShowIff(rs: seq<Rec>, rest: string)
    requires rs != [] && forall k :: 0 <= k < |rs| ==> PlainAddresses(rs[k])
    ensures ItemsShow(ReadItems(PrintItems(PacketValues(rs)) + ("]" + rest)), rs) <==> PlainSsids(rs)
    ensures PlainSsids(rs) ==> ReadItems(PrintItems(PacketValues(rs)) + ("]" + rest)) == Got(PacketValues(rs), rest)
    decreases |rs|
  {
    PlainSsidsStep(rs);
    if !Plain(rs[0].ssid) {
      FirstNotPlain(rs, rest);
    } else {
      var vs := PacketValues(rs);
      ShownStep(rs);
      PacketIsPlain(rs[0]);
      ReadPrinted(vs[0], AfterItem(vs, rest));
      ReadItemsStep(vs, rest);
      ReadShownOfPacket(rs[0]);
      if |rs| > 1 {
        ItemsShowIff(rs[1..], rest);
        ItemsShowCons(rs, rest);
      } else {
        ReadShownCons(ShownOf(rs[0]), vs, []);
        assert rs[1..] == [] && PlainSsids(rs[1..]);
      }
    }
  }

  // Past a first packet that comes back.
  lemma {:induction false} ItemsShowCons(rs: seq<Rec>, rest: string)
    requires |rs| > 1 && ReadShown(PacketValue(rs[0])) == Some(ShownOf(rs[0]))
    requires var vs := PacketValues(rs);
      ReadValue(Print(vs[0]) + AfterItem(vs, rest)) == Got(vs[0], AfterItem(vs, rest))
    ensures ItemsShow(ReadItems(PrintItems(PacketValues(rs)) + ("]" + rest)), rs)
       <==> ItemsShow(ReadItems(PrintItems(PacketValues(rs[1..])) + ("]" + rest)), rs[1..])
  {
    var vs := PacketValues(rs);
    ShownStep(rs);
    ReadItemsStep(vs, rest);
    var q := ReadItems(PrintItems(PacketValues(rs[1..])) + ("]" + rest));
    if q.Got? {
      var items := [vs[0]] + q.value;
      assert items[1..] == q.value;
      ReadShownCons(ShownOf(rs[0]), items, ShownAll(rs[1..]));
    }
  }

  /** Printing then reading is the identity on the eight fields of every record, for any
      number of records including none, exactly when no SSID contains a quote, a
      backslash or a control character. */
  lemma {:induction false} DecodePrintedIff(rs: seq<Rec>)
    requires forall k :: 0 <= k < |rs| ==> PlainAddresses(rs[k])
    ensures Decode(Text(rs)) == Some(ShownAll(rs)) <==> PlainSsids(rs)
    ensures PlainSsids(rs) ==> ReadValue(Text(rs)) == Got(TableValue(rs), "")
  {
    var vs := PacketValues(rs);
    TextIsPrinted(rs);
    assert Text(rs) + "" == Text(rs);
    assert "}" + "" == "}";
    ReadSingle(Member("packets", Arr(vs)), "");
    ReadArr(vs, "}");
    if rs != [] {
      ItemsShowIff(rs, "}");
    }
  }

  /** The text of a table with plain strings, as a client finds it: an object whose member
      "packets" is an array, with one object for each record, whose member "packet" has
      the eight fields under their names. */
  lemma {:induction false} TextByName(rs: seq<Rec>, k: nat)
    requires (forall j :: 0 <= j < |rs| ==> PlainAddresses(rs[j])) && PlainSsids(rs) && k < |rs|
    ensures var p := ReadValue(Text(rs));
      && p.Got? && p.rest == ""
      && var packets := Get(p.value, "packets");
      && packets.Some? && packets.value.Arr? && |packets.value.items| == |rs|
      && var packet := Get(packets.value.items[k], "packet");
      && packet.Some?
      && Get(packet.value, "datarate") == Some(Str(Decimal(rs[k].dataRateKbps)))
      && Get(packet.value, "antenna") == Some(Str(Decimal(rs[k].antenna)))
      && Get(packet.value, "channel") == Some(Str(Decimal(rs[k].channel)))
      && Get(packet.value, "power") == Some(Str(Decimal(rs[k].power)))
      && Get(packet.value, "ssid") == Some(Str(rs[k].ssid))
      && Get(packet.value, "src") == Some(Str(rs[k].src))
      && Get(packet.value, "dst") == Some(Str(rs[k].dst))
      && Get(packet.value, "bssid") == Some(Str(rs[k].bssid))
  {
    DecodePrintedIff(rs);
    PacketValuesAt(rs, k);
    PacketByName(rs[k]);
  }

  lemma {:induction false} PacketValuesAt(rs: seq<Rec>, k: nat)
    requires k < |rs|
    ensures PacketValues(rs)[k] == PacketValue(rs[k])
  {
    if k > 0 {
      PacketValuesAt(rs[1..], k - 1);
    }
  }

  /** For example, a network named by a quote makes the whole text unreadable. */
  lemma {:induction false} QuoteBreaksText(rs: seq<Rec>)
    requires rs != [] && PlainAddresses(rs[0]) && rs[0].ssid == "\""
    ensures Decode(Text(rs)) == None
  {
    var vs := PacketValues(rs);
    TextIsPrinted(rs);
    assert Text(rs) + "" == Text(rs);
    assert "}" + "" == "}";
    ReadSingle(Member("packets", Arr(vs)), "");
    ReadArr(vs, "}");
    ReadFirstItem(vs, "}");
    ShownStep(rs);
    QuoteBreaksPacket(rs[0], AfterItem(vs, "}"));
  }

  lemma {:induction false} QuoteBreaksPacket(r: Rec, rest: string)
    requires PlainAddresses(r) && r.ssid == "\""
    ensures ReadValue(Print(PacketValue(r)) + rest) == Fail
  {
    var ms := PacketMembers(r);
    ReadSingle(Member("packet", Obj(ms)), rest);
    ReadObj(ms, "}" + rest);
    MembersUpToSsid(r);
    ReadMembersBroken(ms, "}" + rest, 4);
  }

  /** So different visible tables have different JSON. */
  lemma {:induction false} PrintingIsInjective(rs: seq<Rec>, qs: seq<Rec>)
    requires forall k :: 0 <= k < |rs| ==> PlainAddresses(rs[k])
    requires forall k :: 0 <= k < |qs| ==> PlainAddresses(qs[k])
    requires PlainSsids(rs) && PlainSsids(qs)
    ensures Text(rs) == Text(qs) <==> ShownAll(rs) == ShownAll(qs)
  {
    DecodePrintedIff(rs);
    DecodePrintedIff(qs);
    if ShownAll(rs) == ShownAll(qs) {
      SameShownSameBody(rs, qs);
    }
  }

  lemma {:induction false} SameShownSameBody(rs: seq<Rec>, qs: seq<Rec>)
    requires ShownAll(rs) == ShownAll(qs)
    ensures Body(rs) == Body(qs)
    decreases |rs|
  {
    if rs != [] && qs != [] {
      assert ShownAll(rs)[0] == ShownOf(rs[0]) && ShownAll(qs)[0] == ShownOf(qs[0]);
      assert ShownAll(rs)[1..] == ShownAll(rs[1..]) && ShownAll(qs)[1..] == ShownAll(qs[1..]);
      assert Values(rs[0]) == Values(qs[0]);
      SameShownSameBody(rs[1..], qs[1..]);
    }
  }

  // ---------------------------------------------------------------- printing step by step

  lemma {:induction false} BodySnoc(rs: seq<Rec>, r: Rec)
    ensures Body(rs + [r]) == if rs == [] then PacketText(r) else Body(rs) + "," + PacketText(r)
    decreases |rs|
  {
    if rs == [] {
      assert rs + [r] == [r];
    } else {
      assert (rs + [r])[1..] == rs[1..] + [r];
      BodySnoc(rs[1..], r);
      if |rs| > 1 {
        var p, b, c := PacketText(rs[0]), Body(rs[1..]), "," + PacketText(r);
        assert Body(rs) == p + "," + b;
        Assoc(p + ",", b, c);
        Assoc(b, ",", PacketText(r));
        Assoc(Body(rs), ",", PacketText(r));
      }
    }
  }

  /** The buffer when the loop of generateJson has printed n packets of rs. */
  function Progress(rs: seq<Rec>, n: nat): string
    requires n <= |rs|
  {
    HEAD + Body(rs[..n]) + if 0 < n < |rs| then "," else ""
  }

  lemma {:induction false} ProgressStep(rs: seq<Rec>, n: nat)
    requires n < |rs|
    ensures Progress(rs, n + 1) == Progress(rs, n) + PacketText(rs[n]) + if n + 1 < |rs| then "," else ""
  {
    var p := PacketText(rs[n]);
    assert rs[..n + 1] == rs[..n] + [rs[n]];
    BodySnoc(rs[..n], rs[n]);
    if n == 0 {
      assert HEAD + Body(rs[..0]) + "" == HEAD;
    } else {
      Assoc(HEAD, Body(rs[..n]) + ",", p);
      Assoc(HEAD, Body(rs[..n]), ",");
    }
  }

  lemma {:induction false} EmptyProgress(rs: seq<Rec>)
    ensures Progress(rs, 0) == HEAD
  {
    assert Body(rs[..0]) == "";
  }

  lemma {:induction false} ProgressGrows(rs: seq<Rec>, n: nat)
    requires n <= |rs|
    ensures |Progress(rs, n)| + |TAIL| <= |Text(rs)|
    ensures Progress(rs, |rs|) + TAIL == Text(rs)
    decreases |rs| - n
  {
    assert rs[..|rs|] == rs;
    if n < |rs| {
      ProgressStep(rs, n);
      ProgressGrows(rs, n + 1);
    }
  }

  // ---------------------------------------------------------------- size

  function Total(s: seq<string>): nat {
    if s == [] then 0 else |s[0]| + Total(s[1..])
  }

  lemma {:induction false} EmitLength(labels: seq<string>, values: seq<string>)
    requires |labels| == |values|
    ensures |Emit(labels, values)| == Total(labels) + Total(values) + |labels|
    decreases |labels|
  {
    if labels != [] {
      EmitLength(labels[1..], values[1..]);
    }
  }

  lemma {:induction false} TotalOfEight(s: seq<string>)
    requires |s| == 8
    ensures Total(s) == |s[0]| + |s[1]| + |s[2]| + |s[3]| + |s[4]| + |s[5]| + |s[6]| + |s[7]|
  {
    TotalFrom(s, 0);
    TotalFrom(s, 1);
    TotalFrom(s, 2);
    TotalFrom(s, 3);
    TotalFrom(s, 4);
    TotalFrom(s, 5);
    TotalFrom(s, 6);
    TotalFrom(s, 7);
  }

  lemma {:induction false} TotalFrom(s: seq<string>, i: nat)
    requires i < |s|
    ensures s[0..] == s && Total(s[i..]) == |s[i]| + Total(s[i + 1..])
  {
    assert s[i..][1..] == s[i + 1..];
  }

  lemma {:induction false} PacketLength(r: Rec)
    ensures |PacketText(r)| == 102 + |Decimal(r.dataRateKbps)| + |Decimal(r.antenna)| + |Decimal(r.channel)|
                               + |Decimal(r.power)| + |r.ssid| + |r.src| + |r.dst| + |r.bssid|
  {
    EmitLength(LABELS, Values(r));
    TotalOfEight(LABELS);
    TotalOfEight(Values(r));
  }

  /** The length of all packets, without the commas. */
  function Chars(rs: seq<Rec>): nat {
    if rs == [] then 0 else |PacketText(rs[0])| + Chars(rs[1..])
  }

  /** The whole text: the packets, a comma between each two, and 14 characters around. */
  lemma {:induction false} TextLength(rs: seq<Rec>)
    ensures |Text(rs)| == Chars(rs) + (if rs == [] then 0 else |rs| - 1) + 14
  {
    BodyLength(rs);
  }

  lemma {:induction false} BodyLength(rs: seq<Rec>)
    ensures |Body(rs)| == Chars(rs) + if rs == [] then 0 else |rs| - 1
    decreases |rs|
  {
    if |rs| == 1 {
      assert rs[1..] == [];
    } else if |rs| > 1 {
      BodyLength(rs[1..]);
    }
  }

  /** The longest packet: a signed `char` prints as up to four characters, an unsigned one
      as up to three. */
  function LongestPacket(p: Platform): nat {
    if p.charSigned then 185 else 184
  }

  lemma {:induction false} PacketBound(p: Platform, r: Rec)
    requires RecOk(p, r)
    ensures |PacketText(r)| <= LongestPacket(p)
  {
    PacketLength(r);
    DecimalWidth(r.dataRateKbps);
    DecimalWidth(r.antenna);
    DecimalWidth(r.channel);
    DecimalWidth(r.power);
  }

  lemma {:induction false} CharsBound(p: Platform, rs: seq<Rec>)
    requires forall k :: 0 <= k < |rs| ==> RecOk(p, rs[k])
    ensures Chars(rs) <= if p.charSigned then 185 * |rs| else 184 * |rs|
    decreases |rs|
  {
    if rs != [] {
      PacketBound(p, rs[0]);
      CharsBound(p, rs[1..]);
    }
  }

  lemma {:induction false} CharsOfLongest(p: Platform, rs: seq<Rec>)
    requires forall k :: 0 <= k < |rs| ==> |PacketText(rs[k])| == LongestPacket(p)
    ensures Chars(rs) == if p.charSigned then 185 * |rs| else 184 * |rs|
    decreases |rs|
  {
    if rs != [] {
      CharsOfLongest(p, rs[1..]);
    }
  }

  const MAX_OUTPUT_BUFFER_SIZE: nat := 8192

  /** The text and its terminator fit the output buffer. */
  predicate Fits(rs: seq<Rec>) {
    |Text(rs)| < MAX_OUTPUT_BUFFER_SIZE
  }

  /** How many records always fit. */
  function Capacity(p: Platform): nat {
    if p.charSigned then 43 else 44
  }

  predicate Largest(p: Platform, r: Rec) {
    && r.dataRateKbps == 127500 && r.antenna == 255 && r.channel == 65535
    && r.power == (if p.charSigned then -128 else 128)
    && |r.ssid| == 14 && |r.src| == 17 && |r.dst| == 17 && |r.bssid| == 17
  }

  lemma {:induction false} LargestIsLongest(p: Platform, r: Rec)
    requires Largest(p, r)
    ensures |PacketText(r)| == LongestPacket(p)
  {
    PacketLength(r);
    DecimalWidth(127500);
    DecimalWidth(255);
    DecimalWidth(65535);
    DigitsWidth(128);
  }

  function LargestRec(p: Platform): (r: Rec)
    ensures Largest(p, r) && RecOk(p, r)
  {
    var address := "11:11:11:11:11:11";
    Rec(BEACON, 127500, 255, 65535, if p.charSigned then -128 else 128, "xxxxxxxxxxxxxx", address, address, address)
  }

  /** n records fit whatever they hold exactly when n is at most 43, or 44 where plain
      `char` is unsigned. */
  lemma {:induction false} RecordsFitIff(p: Platform, n: nat)
    ensures (forall rs :: |rs| == n && (forall k :: 0 <= k < n ==> RecOk(p, rs[k])) ==> Fits(rs)) <==> n <= Capacity(p)
  {
    var largest := seq(n, _ => LargestRec(p));
    LargestIsLongest(p, LargestRec(p));
    LongestRecordsFitIff(p, largest);
    forall rs: seq<Rec> | |rs| == n <= Capacity(p) && (forall k :: 0 <= k < n ==> RecOk(p, rs[k]))
      ensures Fits(rs)
    {
      FewRecordsFit(p, rs);
    }
  }

  lemma {:induction false} FewRecordsFit(p: Platform, rs: seq<Rec>)
    requires forall k :: 0 <= k < |rs| ==> RecOk(p, rs[k])
    requires |rs| <= Capacity(p)
    ensures Fits(rs)
  {
    CharsBound(p, rs);
    TextLength(rs);
  }

  lemma {:induction false} LongestRecordsFitIff(p: Platform, rs: seq<Rec>)
    requires forall k :: 0 <= k < |rs| ==> |PacketText(rs[k])| == LongestPacket(p)
    ensures Fits(rs) <==> |rs| <= Capacity(p)
  {
    CharsOfLongest(p, rs);
    TextLength(rs);
  }

  // ---------------------------------------------------------------- as a C string

  lemma {:induction false} EmitHasNoNul(labels: seq<string>, values: seq<string>)
    requires |labels| == |values|
    requires forall s <- labels :: NUL !in s
    requires forall s <- values :: NUL !in s
    ensures NUL !in Emit(labels, values)
    decreases |labels|
  {
    if labels != [] {
      EmitHasNoNul(labels[1..], values[1..]);
    }
  }

  predicate NulFree(r: Rec) {
    NUL !in r.ssid && NUL !in r.src && NUL !in r.dst && NUL !in r.bssid
  }

  lemma {:induction false} PacketHasNoNul(r: Rec)
    requires NulFree(r)
    ensures NUL !in PacketText(r)
  {
    EmitHasNoNul(LABELS, Values(r));
  }

  lemma {:induction false} BodyHasNoNul(rs: seq<Rec>)
    requires forall k :: 0 <= k < |rs| ==> NulFree(rs[k])
    ensures NUL !in Body(rs)
    decreases |rs|
  {
    if rs != [] {
      PacketHasNoNul(rs[0]);
      BodyHasNoNul(rs[1..]);
    }
  }

  /** Nothing in the text ends it early. */
  lemma {:induction false} TextHasNoNul(rs: seq<Rec>)
    requires forall k :: 0 <= k < |rs| ==> NulFree(rs[k])
    ensures NUL !in Text(rs)
  {
    BodyHasNoNul(rs);
  }
}
