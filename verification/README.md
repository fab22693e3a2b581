# Network capture server and sync job: a verified model

The repository runs on a Raspberry Pi. A C server captures 802.11 beacons, reads their
radiotap headers, keeps a table of the networks seen, and answers a local client with the
table as JSON. A Java client keeps one timer going whose period comes from a remote
configuration. This project models both and proves what they do over every header, every
run of frames, every sequence of commands and every sequence of sync runs.

`dafny verify dfyconfig.toml` checks everything. All lemmas switch automatic induction
off: where a proof is by induction, the recursive call is written out.

## Files

| file | content |
|---|---|
| `ByteOrder.dfy` | the byte swaps on bit-vectors, and the loads from a buffer |
| `Radiotap.dfy` | size table, header, one step of the walk, and the radiotap layout, as values |
| `RadiotapTheorems.dfy` | what the walk reports, compared with the layout |
| `RadiotapIterator.dfy` | the iterator as a class with the C fields, `Init` and `Next` |
| `CText.dfy` | C strings, `%i`, and the text of `ether_ntoa` |
| `Capture.dfy`, `CaptureTheorems.dfy` | the capture callback on values, and its runs |
| `CaptureMeaning.dfy` | the callback and the records in plain terms: bytes, counts and comparisons |
| `CaptureRecords.dfy` | which frame each saved record comes from, and frames at the limits |
| `JsonValue.dfy` | JSON values with a printer and a reader of their own |
| `Json.dfy` | the printed text, what it says as a JSON value, and its size |
| `Server.dfy` | the command loop as a state machine |
| `CaptureServer.dfy` | the globals of `client_main.c` as a class, each method proved against the models above |
| `ConfigSync.dfy` | the Java sync job, as values and as a class |
| `Wrappers.dfy` | the option datatype |

## How the code is read

- Pointers into a header are offsets from its start. A u32 bitmap is a natural number, so
  testing bit 31 is comparing with 2^31, testing bit 0 is testing for oddness, and shifting
  right by one is halving.
- `PadIndex` is the walk as the code has it: alignment padding is added to `arg_index`
  (`radiotap-parser.c:187`), although the comment above it asks for the argument to be
  moved. `PadArg` is the walk the comment describes. Both are one function, `Radiotap.Next`,
  with a parameter; the class is the code as written.
- `init` does not set `this_arg_index`; `RadiotapTheorems.ThisArgIndexIsNotRead` shows that
  this does not matter. It does not set `next_bitmap` either; the branch that reads it is
  proved dead in `Next`.
- The comment at `client_main.c:155` says a failed `init` returns -1. It returns -EINVAL, and
  so does `next` on overflow, while the loop stops only on -1. `ParseRadioTap` therefore
  requires a header on which it returns; `ParseReturnsIff` and `HeaderOkIff` say exactly which
  those are.
- `Capture.Platform` carries the host's byte order, which shows in the unconverted channel
  read, and whether plain `char` is signed, which shows in the signal power.
- `BUFSIZ` is 8192, its value in the GNU C library.
- In the value model a saved slot holds C strings; the class holds the fixed char arrays,
  copies into them one character at a time, and shows their contents up to the first NUL.
- The JSON reader is independent of the printer's format strings. It knows objects, arrays
  and strings with their escapes; white space, numbers and literals, which the program never
  prints, are left out. A member is looked up by its name, the first if there are several.
  Strings are read as characters: an SSID byte from 0x80 up counts as the character of that
  code, so nothing is claimed about UTF-8.
- The number of slots is a parameter of the value model (the length of the slot sequence);
  the class has 50.

## Where the code does not do what it is for

Each failure comes with its exact condition, and with an input where the condition does not
name one.

- The walk differs from the radiotap layout exactly on headers with a field that needs
  padding (`WrittenWalkIsLayoutIff`). `PaddingGoesWrong` shows what happens on a 25-byte
  header with one extension word, which `init` accepts; `PaddedHeaderBytes` are the bytes of
  one.
- JSON reads back exactly when no SSID contains a quote, a backslash or a control character
  (`DecodePrintedIff`, and for what arrives in a capture `CaptureReportsFirstOccurrences`):
  the printer does not escape. A capture of one network named by a quote is answered with a
  text that does not read back at all (`QuoteCaptureIsUnreadable`, `QuoteFrame`).
- A capture that keeps n records fits the output buffer whatever it holds exactly when n is
  at most 43, or 44 where plain `char` is unsigned (`CaptureFitsIff`), although the table
  holds 50; `LongAir` are the beacons that overflow it. `CommandOk` is what a command needs
  to stay within the buffer, and captures of at most that many networks with the standard
  header meet it (`StandardCaptureIsOk`).
- A saved record is free of what its slot held before exactly when rate, channel, signal and
  antenna are among the fields gone through (`FillForgetsIff`). The 18-byte header with
  bitmap 0x482e has them (`StandardHeaderIsRead`); the code itself only assumes that the
  header has 18 bytes. A beacon with an empty bitmap is sent with the rate of the network
  captured before it (`BareCaptureShowsTheOneBefore`, `BareFrame`).
- The signal power is documented as a signed byte (`ieee80211_radiotap.h:114`) and the channel
  as little-endian (line 101). The power is saved so exactly when plain `char` is signed or the
  byte is below 128 (`PowerIsDocumentedIff`), the channel exactly when the host is
  little-endian or its two bytes are equal (`ChannelIsDocumentedIff`). The byte 0x80 of `LongFrame`, for
  example, becomes 128 where plain `char` is unsigned (`LongFields`).
- A configuration that the timer rejects is not tried again until another one is delivered
  (`RejectedIsNotRetried`); with an interval of zero the timer stays idle for ever
  (`ZeroIntervalStaysIdle`).

## Model

| member | source | states |
|---|---|---|
| ByteOrder.Swab16Reverses | rpi-local-server/byteorder.h:24-27 | swapping what a host loads from two bytes is loading them in the opposite order |
| ByteOrder.Swab32Reverses | rpi-local-server/byteorder.h:28-33 | the same for four bytes |
| ByteOrder.Swab64Reverses | rpi-local-server/byteorder.h:34-43 | the same for eight bytes |
| ByteOrder.SwabUndoesItself | rpi-local-server/byteorder.h:24-43 | each swap is its own inverse |
| ByteOrder.HostOrderCancels16 | rpi-local-server/byteorder.h:242-302 | a native 16-bit load followed by le16_to_cpu or be16_to_cpu gives the wire value on little-endian and big-endian hosts alike |
| ByteOrder.HostOrderCancels32 | rpi-local-server/byteorder.h:242-302 | the same for le32_to_cpu |
| ByteOrder.HostOrderCancels64 | rpi-local-server/byteorder.h:242-302 | the same for le64_to_cpu |
| ByteOrder.LoadLe16 | rpi-local-server/radiotap-parser.c:57-61 | reading it_len on any host gives the value of its bytes, low byte first |
| ByteOrder.LoadLe32 | rpi-local-server/radiotap-parser.c:63-73 | reading a bitmap word on any host gives the value of its bytes, low byte first |
| ByteOrder.LoadBe16 | rpi-local-server/client_main.c:265 | ntohs of the frame control field gives its bytes high byte first on any host |
| Radiotap.SizesAreTheTable | rpi-local-server/radiotap-parser.c:136-155 | alignment and length of each field are the nybbles of the size table |
| Radiotap.SizesAreDocumented | rpi-local-server/ieee80211_radiotap.h:92-186 | the table agrees with the documented data types: alignment is the size of one value, length that times their number |
| Radiotap.PaddingIsLeast | rpi-local-server/radiotap-parser.c:168-191 | the padding computed leads to the least position that the field's alignment divides |
| Radiotap.FirstClear | rpi-local-server/radiotap-parser.c:70-73 | the first extension word with bit 31 clear: every word before it is in memory and has the bit set |
| Radiotap.ReadsAreBounded | rpi-local-server/radiotap-parser.c:72-86 | max(8, it_len) + 4 bytes of memory cover every extension word that init reads |
| Radiotap.InitStaysInBounds | rpi-local-server/radiotap-parser.c:40-101 | so all reads of init, and the payload start it finds, stay within max(8, it_len) + 4, and the start is a multiple of 4 |
| RadiotapIterator.Iterator.Init | rpi-local-server/radiotap-parser.c:40-101 | exactly which headers are accepted (version 0, it_len within the given length, and the chain of j set extension words empty or with 8+4j within it_len), the whole state on success, and on each kind of failure what is left; on any host |
| RadiotapIterator.Iterator.SkipExtensions | rpi-local-server/radiotap-parser.c:68-96 | the loop ends, past the first clear word, or fails on the first boundary beyond it_len |
| RadiotapTheorems.InitByBytes | rpi-local-server/radiotap-parser.c:40-101 | what init accepts and the state it leaves, from the bytes of the header: byte 0, the length in bytes 2 and 3, the bitmap in bytes 4 to 7, and the top bits of the extension words |
| RadiotapTheorems.InitRejectsLongChain | rpi-local-server/radiotap-parser.c:72-86 | a chain of set extension words that reaches past it_len is rejected, whatever follows |
| RadiotapIterator.Iterator.Next | rpi-local-server/radiotap-parser.c:117-246 | one call is one step of the walk as written, from every state with arg_index at most 14, which it keeps; every table lookup is in range and next_bitmap is never read |
| RadiotapIterator.Iterator.TakeField | rpi-local-server/radiotap-parser.c:185-204 | a present field is reported at the unmoved position, with the index moved on by the least padding of its alignment in the size table, and the table's length for the index reported is passed over |
| RadiotapTheorems.NextReportsFirstPresent | rpi-local-server/radiotap-parser.c:162-245 | one call passes the absent fields and reports the first present one so, with -22 if that ends past it_len and the index otherwise; the new index and bitmap are given |
| RadiotapTheorems.NextWithoutPresent | rpi-local-server/radiotap-parser.c:162-246 | with no present field left the call returns -1 and reports nothing new |
| RadiotapTheorems.LayoutIsSound | rpi-local-server/radiotap-parser.c:168-183 | the layout lists only present bits, each at an aligned position |
| RadiotapTheorems.LayoutIsComplete | rpi-local-server/radiotap-parser.c:157-166 | the layout lists every present bit among the low 14 |
| RadiotapTheorems.LayoutIsTight | rpi-local-server/radiotap-parser.c:168-183 | fields are in ascending bit order, each placed at the first suitable position after the one before |
| RadiotapTheorems.RepairedWalkIsLayout | rpi-local-server/radiotap-parser.c:162-245 | with the padding applied to the argument, repeated calls report exactly the layout, cut at the first field past it_len |
| RadiotapTheorems.WrittenWalkIsLayoutIff | rpi-local-server/radiotap-parser.c:185-191 | the walk as written reports the layout if and only if no field it gets to needs padding |
| RadiotapTheorems.WalksDivergeAtPadding | rpi-local-server/radiotap-parser.c:185-199 | otherwise the two walks make the same calls up to the first field that needs padding, and there the index reported is too high by exactly what the position is too low |
| RadiotapTheorems.WalksOfHeader | rpi-local-server/radiotap-parser.c:40-246 | both statements for any header, from the state init leaves |
| RadiotapTheorems.PaddingGoesWrong | rpi-local-server/radiotap-parser.c:185-191 | for every header of it_len 25 with present word 0x80000005 and a clear extension word, init succeeds and the first field is reported as FHSS at 12, four table entries too far; the layout has TSFT at 16 |
| RadiotapTheorems.PaddedHeaderBytes | rpi-local-server/radiotap-parser.c:185-191 | 25 bytes that are such a header |
| RadiotapTheorems.ShifterFollowsIndex | rpi-local-server/radiotap-parser.c:219-234 | while no field needs padding, bitmap_shifter stays it_present shifted by arg_index from call to call |
| RadiotapTheorems.WrittenWalkOfAlignedHeader | rpi-local-server/radiotap-parser.c:162-245 | when every present field falls on an aligned offset, the code reports the present bits in order, each at the start plus the lengths of the earlier ones, cut at the first that does not fit |
| RadiotapTheorems.ExpectedEndsIff | rpi-local-server/radiotap-parser.c:206-215 | a reading ends with -1 rather than -EINVAL if and only if every field fits it_len |
| RadiotapTheorems.WrittenWalkTiles | rpi-local-server/radiotap-parser.c:185-215 | for every header the reported indices increase strictly and the reported ranges tile the payload from its start, without gap or overlap, inside it_len |
| RadiotapTheorems.AtMostFourteenFields | rpi-local-server/radiotap-parser.c:162 | at most 14 calls succeed |
| RadiotapTheorems.LowBitsDecide | rpi-local-server/radiotap-parser.c:162-241 | two walks whose bitmaps agree on the low 14 bits make the same calls, even where the index has run ahead of the bitmap |
| RadiotapTheorems.SimilarHeadersWalkAlike | rpi-local-server/radiotap-parser.c:162-241 | headers that agree on the low 14 bits, the payload start and it_len give the same calls |
| RadiotapTheorems.ThisArgIndexIsNotRead | rpi-local-server/radiotap-parser.c:60-66 | no call depends on the this_arg_index that init leaves unset |
| RadiotapTheorems.OverflowIsAbsorbing | rpi-local-server/radiotap-parser.c:206-215 | after -EINVAL every later call returns -EINVAL, with a strictly larger argument position each time |
| RadiotapTheorems.WrittenWalkIsDrift | rpi-local-server/radiotap-parser.c:162-245 | for every header the calls are the fields of an explicit list, cut at the first past it_len |
| RadiotapTheorems.ParseReturnsIff | rpi-local-server/client_main.c:156-207 | some call returns -1, so that parseRadioTap returns, if and only if every field of that list ends within it_len |
| CaptureTheorems.HeaderOkIff | rpi-local-server/client_main.c:146-207 | the headers on which parseRadioTap is defined and returns: init reads memory that is there and accepts, it_len lies in the frame, and every field gone through ends within it_len |
| CText.ParseDecimalInverts | rpi-local-server/client_main.c:443-447 | the signed decimal of any integer reads back as that integer |
| CText.CopyKeepsCStr | rpi-local-server/client_main.c:299-304 | copying n characters and a terminator preserves every C string of at most n characters |
| CText.MacTextIsInjective | rpi-local-server/client_main.c:299-307 | two addresses have the same text if and only if they are the same bytes |
| CText.ReadMacInverts | rpi-local-server/client_main.c:299-307 | read as colon-separated hexadecimal, higher digit first and without leading zeros, the text of an address gives its bytes in order |
| CText.CStrOfBytes | rpi-local-server/client_main.c:277-286 | the string of copied bytes has the codes of the bytes up to the first zero |
| CaptureServer.Capturer.constructor | rpi-local-server/client_main.c:36-41 | the zeroed globals are a valid state: an empty table, all counters 0, and an empty response |
| CaptureServer.CopyAddress | rpi-local-server/client_main.c:300-304 | the 17-character copy with terminator holds the same C string as the buffer of ether_ntoa |
| CaptureServer.Capturer.EtherNtoa | rpi-local-server/client_main.c:299 | the static buffer holds the address text and a terminator over whatever it held |
| CaptureServer.Capturer.CopySsid | rpi-local-server/client_main.c:275-294 | the slot and the local buffer both hold the tag's bytes as a C string, and nothing else of the array changes |
| CaptureServer.Capturer.PktWithSsidBssidExists | rpi-local-server/client_main.c:223-247 | returns 1 exactly if a saved record has both strings, and adds the records with the same SSID and another BSSID that come before the match |
| CaptureServer.Capturer.ParseEthernet | rpi-local-server/client_main.c:257-337 | the table and the result for beacons that are new, beacons that are duplicates, and other frames |
| CaptureServer.Capturer.HandleField | rpi-local-server/client_main.c:169-206 | each of the four fields goes to its member of the slot: 500 times the byte, the byte, a value of plain char congruent to the byte, or the two bytes as the host loads them |
| Capture.HandledByBytes | rpi-local-server/client_main.c:169-206 | the same for the value model, which changes nothing else |
| CaptureServer.Capturer.ParseRadioTap | rpi-local-server/client_main.c:146-216 | on a header on which the loop ends, the slot gets the reported fields and keeps the rest; the code after the loop is unreachable |
| CaptureServer.Capturer.PacketCaptureCallback | rpi-local-server/client_main.c:347-381 | one callback is one step of the value model, for every frame type and for the full table |
| CaptureServer.Capturer.CapturePackets | rpi-local-server/client_main.c:429-433 | the counters are reset and the callback runs on at most the requested number of frames |
| Capture.DeliverParts | rpi-local-server/client_main.c:363-380 | the callback is parse_ethernet, then, for a beacon that is kept, parseRadioTap on its slot, then both counters |
| Capture.WithFieldsStep | rpi-local-server/client_main.c:159-207 | looking up what the walk reports last for each field is the same as handling the calls one by one |
| CaptureMeaning.ControlByBytes | rpi-local-server/client_main.c:260-265 | the frame type is bytes 18 and 19, high byte first; a beacon has 0x80 0x00 |
| CaptureMeaning.FullTableIgnores | rpi-local-server/client_main.c:353-355 | with a full table nothing changes |
| CaptureMeaning.OtherFrameByBytes | rpi-local-server/client_main.c:266-336 | a frame that is not a beacon only sets the type of its slot, and is kept unless that is zero |
| CaptureMeaning.BeaconByNetwork | rpi-local-server/client_main.c:223-247 | by comparing strings and counting: a known network adds one duplicate, a new one is appended, and the counter grows by the number of same-SSID records passed over |
| CaptureMeaning.SlotsAfterBeacon | rpi-local-server/client_main.c:271-311 | only the current slot changes; a known network leaves its type, SSID and BSSID there and nothing else |
| CaptureMeaning.FillTextsByBytes | rpi-local-server/client_main.c:271-330 | for every kept beacon: the SSID has the bytes of the tag up to a zero, and the three addresses denote bytes 22-27, 28-33 and 34-39 |
| CaptureMeaning.FillFieldByBytes | rpi-local-server/client_main.c:156-207 | on every header on which parseRadioTap returns, each of the four fields gone through is stored from the bytes where it is |
| CaptureMeaning.FillKeepsOthers | rpi-local-server/client_main.c:169-206 | the fields not gone through keep what the slot held |
| CaptureMeaning.PowerIsDocumentedIff | rpi-local-server/ieee80211_radiotap.h:114-118 | the power saved is the signed value of the byte if and only if plain char is signed or the byte is below 128 |
| CaptureMeaning.ChannelIsDocumentedIff | rpi-local-server/ieee80211_radiotap.h:101-103 | the channel saved is the little-endian value if and only if the host is little-endian or the two bytes are equal |
| CaptureTheorems.SavedAreFirstOccurrences | rpi-local-server/client_main.c:347-381 | after any run of beacons the saved (SSID, BSSID) pairs are exactly the arrivals' pairs with later repeats removed, in arrival order, cut to the number of slots |
| CaptureTheorems.DistinctInOrder | rpi-local-server/client_main.c:223-247 | removing later repeats keeps one copy of each pair, ordered by first occurrence |
| CaptureTheorems.SavedKeysDiffer | rpi-local-server/client_main.c:238-245 | no two saved records share SSID and BSSID |
| CaptureTheorems.KeysCompareAddresses | rpi-local-server/client_main.c:230-240 | comparing BSSID strings is comparing the 48-bit addresses |
| CaptureTheorems.CallbacksAreConserved | rpi-local-server/client_main.c:347-381 | over any frames: callbacks = kept + duplicates + zero frame control + skipped when full; the counters say how many were kept and discarded; saved records stay as they are |
| CaptureTheorems.RunsCompose | rpi-local-server/client_main.c:347-381 | a run can be cut anywhere and the table only grows, so it is append-only at every point |
| CaptureTheorems.SameSsidCounter | rpi-local-server/client_main.c:230-235 | packets_same_ssid_diff_bssid is the number of pairs of saved records with equal SSID plus, for each discarded duplicate, the same-SSID records before its match |
| CaptureTheorems.SameSsidCounterBound | rpi-local-server/client_main.c:223-247 | with M slots and at most N beacons, N >= M >= 2, twice the counter is at most M(M-1) + 2(N-M)(M-2) |
| CaptureTheorems.SameSsidCounterBoundOfProgram | rpi-local-server/client_main.c:33-38 | so it is at most 3625 for 50 slots and any number of packets up to 100 |
| CaptureTheorems.ReportedIffNamed | rpi-local-server/client_main.c:156-207 | a field is reported to the switch if and only if the list of fields gone through names it |
| CaptureTheorems.FillForgetsIff | rpi-local-server/client_main.c:169-206 | where parseRadioTap returns, a kept beacon's record is independent of the old slot if and only if the list of fields gone through names rate, channel, signal and antenna |
| CaptureRecords.BareShowsItsSlot | rpi-local-server/client_main.c:169-206 | a beacon with an 8-byte header and an empty bitmap is kept with the rate, antenna, channel and power its slot was left with |
| Server.BareCaptureShowsTheOneBefore | rpi-local-server/client_main.c:429-433 | so from the zeroed globals such a capture shows rate 0, and after a capture of another network the rate of that one |
| CaptureTheorems.HistoryDoesNotShow | rpi-local-server/client_main.c:429-433 | then the visible records and all counters depend on the arrivals only, not on what earlier captures or duplicates left in the slots |
| CaptureTheorems.StandardHeaderIsRead | rpi-local-server/client_main.c:263 | on an 18-byte header with bitmap 0x482e, one of those that the fixed offset 18 suits, the walk as written reports all four fields from their places |
| CaptureTheorems.StandardBeaconRecord | rpi-local-server/client_main.c:257-337 | a kept beacon with that header becomes the record of its own bytes in every field, whatever the slot held |
| CaptureTheorems.StandardRuns | rpi-local-server/client_main.c:347-381 | on runs of frames with that header parseRadioTap always returns and every kept record is independent of its slot |
| CaptureTheorems.RunKeepsSlotsOk | rpi-local-server/client_main.c:179-200 | after every run each slot has a rate of 500 times a byte, a one-byte antenna, a two-byte channel, a power in the range of plain char, an SSID of at most 14 characters and addresses of at most 17 |
| CaptureRecords.FirstFramesHaveDistinctKeys | rpi-local-server/client_main.c:223-247 | the beacons that were the first with their key have exactly the distinct keys of all arrivals, in order |
| CaptureRecords.SavedAreFirstFrames | rpi-local-server/client_main.c:347-381 | over every run of beacons each saved record was filled, in all its fields, from the first beacon that carried its key; there is one record for each distinct key, in order, as far as there are slots |
| CaptureRecords.SavedAreOfTheirFrames | rpi-local-server/client_main.c:347-381 | when the kept beacons report all four radio fields, each record is a function of that first beacon alone |
| CaptureServer.Capturer.Sprintf | rpi-local-server/client_main.c:459-460 | text and terminator are written at buff_ptr, after what was there |
| CaptureServer.Capturer.WritePacket | rpi-local-server/client_main.c:442-453 | the packet's text is appended and buff_ptr moves to its end |
| CaptureServer.Capturer.GenerateJson | rpi-local-server/client_main.c:455-475 | the buffer holds exactly the JSON of the table, buff_ptr stands on its terminator, and as a C string the buffer is that text |
| JsonValue.ReadStringIff | rpi-local-server/client_main.c:443 | a printed string reads back under the string syntax of RFC 8259, escapes included, if and only if it holds no quote, backslash or control character |
| JsonValue.ReadPrinted | rpi-local-server/client_main.c:442-475 | every JSON value of objects, arrays and plain strings reads back from its text |
| Json.TextIsPrinted | rpi-local-server/client_main.c:442-475 | for every table the printed text is the JSON text of an object "packets" of packets with their eight named members |
| Json.TextByName | rpi-local-server/client_main.c:442-475 | with plain strings the text reads as an object whose member "packets" has one element for each record, whose member "packet" has under "datarate", "antenna", "channel", "power", "ssid", "src", "dst" and "bssid" that record's fields |
| Json.DecodePrintedIff | rpi-local-server/client_main.c:442-475 | a client that looks the members up by name gets back all eight fields of every record, for any number of records, if and only if every SSID is such a string |
| Json.PrintingIsInjective | rpi-local-server/client_main.c:442-475 | so tables print alike only if they show the same |
| Json.QuoteBreaksText | rpi-local-server/client_main.c:443 | a text whose first SSID is a quote does not read back at all |
| Server.QuoteCaptureIsUnreadable | rpi-local-server/client_main.c:482-489 | after any commands, a capture of one beacon with that SSID stays within the limits and its response does not read back |
| Json.PacketLength | rpi-local-server/client_main.c:443-451 | the exact length of a printed record |
| Json.TextLength | rpi-local-server/client_main.c:455-475 | the exact length of the whole text: the packets, a comma between each two, and 14 characters |
| Json.RecordsFitIff | rpi-local-server/client_main.c:33-40 | all tables of n records within the value ranges fit the 8192 bytes with the terminator if and only if n is at most 43, or 44 where plain char is unsigned |
| CaptureRecords.LongRun | rpi-local-server/client_main.c:347-381 | a run of n beacons with 14-character SSIDs, n up to 50, is legal, keeps all of them, and every record has the greatest printed length |
| Server.CaptureFitsIff | rpi-local-server/client_main.c:455-493 | from the zeroed globals, over every command sequence: all captures that keep n records, n up to 50, stay within the output buffer if and only if n is at most 43, or 44 where plain char is unsigned |
| Server.ServeKeepsSlotsOk | rpi-local-server/client_main.c:555-592 | every state served from slots within their value ranges has slots within them |
| Server.StandardCaptureIsOk | rpi-local-server/client_main.c:482-489 | a capture of beacons with the standard header from at most 43 (44) different networks meets what ProcessClientCommand requires, after any commands that did |
| Json.TextHasNoNul | rpi-local-server/client_main.c:587 | nothing in the text ends it early for strlen |
| CaptureServer.Capturer.ProcessClientCommand | rpi-local-server/client_main.c:477-493 | one command is one step of the command machine, on table, response and whether the process goes on: both spellings of exit and of capture, a device that does not open, and unknown commands |
| Server.CommandsSpelled | rpi-local-server/client_main.c:477-493 | "capture" and "capture\r\n" leave the table of the capture and its JSON, or end the process if the device does not open; "exit" and "exit\r\n" end it; every other string changes nothing |
| Server.DeliveredIsLongestPrefix | rpi-local-server/client_main.c:433 | a capture delivers the longest prefix of at most 100 frames |
| Server.CaptureCountsFromZero | rpi-local-server/client_main.c:429-437 | whatever the state before, the three counters of a capture are its kept beacons, its duplicates, and its same-SSID count of at most 3625 |
| Server.ResponseIsTableJson | rpi-local-server/client_main.c:555-592 | over every command sequence that stays within the limits of the buffer and of parseRadioTap: from the first completed capture on the response is the JSON of the current table, and until then neither has changed |
| Server.CaptureReportsFirstOccurrences | rpi-local-server/client_main.c:482-489 | from any state, a capture of beacons saves the first distinct keys that arrived, and its response reads back as the saved records if and only if all those keys have plain SSIDs |
| Server.CaptureReportsFirstFrames | rpi-local-server/client_main.c:482-489 | when moreover the kept beacons report their radio fields, what reads back is one record for each network in order of arrival, cut at the slots, with the eight fields of its first beacon |
| Server.StandardCaptureReadsBack | rpi-local-server/client_main.c:477-493 | end to end: after any commands, a capture of beacons with the standard header and plain SSIDs from at most 43 (44) networks is answered with a text that reads back as exactly those networks in order, and every field agrees with the bytes of the network's first beacon |
| Server.CaptureForgetsHistory | rpi-local-server/client_main.c:429-433 | from any two states the same capture gives the same counters, records and response, and is within the limits from both if it is from one |
| ConfigSync.OneLiveTimer | rpi-local-client/src/main/java/com/eurekabits/ConfigSyncJob.java:35-86 | after any sequence of runs exactly the last created timer is uncancelled, and it carries the delay and interval of the current configuration if and only if the timer accepted them |
| ConfigSync.NewConfigIsScheduled | rpi-local-client/src/main/java/com/eurekabits/ConfigSyncJob.java:69-78 | a new configuration with delay >= 0, interval >= 1 and a first time below 2^63 is scheduled with its delay and interval, any other leaves the new timer idle |
| ConfigSync.TimerTracksConfig | rpi-local-client/src/main/java/com/eurekabits/ConfigSyncJob.java:69-78 | the live timer carries the current configuration if and only if that could be scheduled at the run that brought it, and is idle otherwise |
| ConfigSync.TimersCountChanges | rpi-local-client/src/main/java/com/eurekabits/ConfigSyncJob.java:44-52 | the current configuration is the one delivered last, and the number of timers created is the number of changes among the deliveries, counting the first |
| ConfigSync.RejectedIsNotRetried | rpi-local-client/src/main/java/com/eurekabits/ConfigSyncJob.java:46-52 | runs that deliver the same configuration, or nothing, change neither configuration nor timers, and after them the live timer is idle if and only if the configuration could not be scheduled when it first came |
| ConfigSync.ZeroIntervalStaysIdle | rpi-local-client/src/main/java/com/eurekabits/ConfigSyncJob.java:46-78 | however often a configuration with interval 0 is delivered, and whatever the clock, there is one timer and it is idle |
| ConfigSync.Job.Start | rpi-local-client/src/main/java/com/eurekabits/ConfigSyncJob.java:35-86 | one run of the object is one step of the machine, with failed and null fetches, interrupted sleeps and rejected schedules |
| ConfigSync.Job.ReplaceTimer | rpi-local-client/src/main/java/com/eurekabits/ConfigSyncJob.java:69-76 | a fresh timer becomes the current one, scheduled for the current capture task object |

## Left out

- Capture.FrameOk: SSID tags longer than 14 bytes are not modelled, because the copy at `client_main.c:280-293` then writes past the SSID array.
- CaptureServer.Capturer.CopySsid: an SSID tag of 15 bytes or more, excluded by the type of frames, makes the C loop write past both arrays.
- CaptureServer.Capturer.ParseEthernet: the same.
- CaptureServer.Capturer.ParseRadioTap: a header on which `init` fails, or the walk overflows, is excluded by its precondition, because the loop then runs on undefined or ever further memory; `HeaderOkIff` is the exact condition.
- CaptureServer.Capturer.PacketCaptureCallback: the same, for the header of a beacon that is going to be kept.
- CaptureServer.Capturer.CapturePackets: the same, for each beacon that is kept.
- CaptureServer.Capturer.GenerateJson: writing past the output buffer is not modelled; the text is required to fit, and `TextLength` and `RecordsFitIff` say when it does.
- CaptureServer.Capturer.ProcessClientCommand: the same two preconditions for a capture, as `Server.CommandOk`, which `CaptureFitsIff` and `StandardCaptureIsOk` are about; the command is its C string, and reading from the socket into the command buffer is not modelled.
- RadiotapIterator.Iterator.Init: a null iterator pointer is not modelled, since the iterator is the receiver.
- JsonValue.ReadStringIff: the reader refuses escapes of surrogate halves, which the printer never writes.
- Sockets, `main`'s setup, and libpcap: a capture is an arbitrary finite sequence of frames, or a device that does not open.
- The counters are unbounded integers; a capture delivers at most 100 frames.
- The struct of char arrays is a value held in an array; the arrays inside are replaced character by character, so aliasing between them is not captured.
- The platform branches of `byteorder.h` other than the generic little-endian and big-endian definitions, and its `htonl` fallback.
- Overlapping executions of the sync job, the packet capture task, the REST service, Spring and Quartz wiring, and the data transfer objects other than the equality of configurations.
- Inside the timer library, the halving of very large periods.
- Logging, printed diagnostics, build files and Postman collections.
