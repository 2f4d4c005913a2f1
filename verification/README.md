# A model of the SCY HJ 212 terminal

The repository is an HJ 212 (GB212) pollution-monitoring terminal in C. This project models its
four connected cores and proves what they promise, over every message, every run and every frame:

- the **wire protocol** (HJ 212-2017, section 6.3 and Appendix A): packet builder, packet acceptor,
  the in-place tokeniser whose two loops share one cursor, the field table and the dispatcher with
  its 9011/9012 replies;
- the **two CRCs** over the polynomial 0xA001, bit-serial and table-driven;
- the **windowed statistics** and the main loop that closes minute, hour and day windows;
- the **meter frame** scanner, checksums and decoders of the flow and the conductivity meter.

## Two editions

Where the C text departs from its evident intent, the model keeps both readings apart with one
parameter, `Edition`: `AsWritten` follows the code branch by branch, `Repaired` differs only in
the places `Editions.dfy` lists. Properties the code has either way are proved for both. A
property the code as written lacks is proved for `Repaired`, and beside it stands what the code as
written does instead, with the exact condition where there is one:

| the code | what follows from it |
|---|---|
| looks for `/r/n` (protocl_gb212.c:153), builds CR LF (:48) | it refuses every packet it builds: `Frame.AsWrittenRefusesBuilt` |
| uses an unreadable length (:150) | on exactly which messages the checksum loop has no end: `Frame.RunsAwayExactly` |
| counts the NUL in widths, inverts length tests, compares MN to the message's end, leaves `url_args` unset | no message that names a station is accepted (`Conversation.AsWrittenRefusesStations`), and which garbage lets another one through (`Conversation.AsWrittenServesExactly`) |
| takes the CRC before subtracting the header (:68-71, :101-104) | 9012 and clock replies end before their checksum and nobody accepts them: `Conversation.AsWrittenAnswersUnreadable` |
| writes `MinData.totalEnd` in the hour and day loops (dataproc.c:271, :287) | every hour and day increment is zero: `Increments.AsWrittenIncrementsAreZero` |
| never sets `old_hour_sec` and `old_day_sec` (:374-375) | days are made of hours iff the hour marker does not start in a later day (`RunProperties.NestingExactly`), and no counter wraps iff no marker lies too far ahead (`Counters.UnwrappedExactly`) |
| multiplies one BCD digit in `int` (protocol.c:214) | the total is right iff that digit is at most two: `Bcd.AsWrittenTotal` |
| tests `> 'A'` in `ASCIITOHEX` (tinz_common_helper.h:46) | a byte survives iff it prints without an `A`: `ConductivityMeter.HexRoundTrip` |

Other places where the model follows the code and not its comments or names:

- `MinInterval` is documented in minutes and compared in seconds (dataproc.c:387), while minute rows are labelled to the
  minute (:120); labels are unique in every run iff it is at least 59 (`RunProperties.MinuteLabelsExactly`).
- A window that closes while its meter is switched off files no row. A day row then shows readings no hour row shows
  (`RunProperties.SwitchedOffHourLost`; they agree iff `RunProperties.DayRowsAgreeExactly` says so), and the window's
  increment is in no row (`Increments.SwitchedOffAdvanceLost`; the rows tell the whole advance iff
  `Increments.RisingIncrementsExact` says so).
- GB212's CRC drops the register's low half at every byte, as HJ 212 prescribes; so it carries
  eight bits (`CrcDetection.HighHalfDecides`), and an exchange of neighbours escapes it for exactly
  one non-zero difference, 0xB6, which seven-bit text cannot have (`CrcDetection.SwapDetected`).
- The three `uint8_t` fields Flag, PNUM and PN0 (protocl_gb212.c:251, :262, :270): as written the length test refuses every
  value before it is read. Once that test is repaired, a value that is no number is stored as 255 and not refused, because
  a byte never equals -1 (`FieldTable.SmallFields`).
- With arguments that start at zero, a set command without OverTime or ReCount stores zero
  (`Conversation.UngivenTimingsAreZero`) and reports success, so the condition error 9012/3 is never sent
  (`Conversation.RepliesFollowFields`).
- The table looks for `pn0` with the digit zero (protocl_gb212.c:250) where HJ 212-2017 has PNO with the letter, so a
  packet number as platforms send it is ignored (`WireNames.PnoUnknown`).
- The checksum characters of a conductivity answer are not tested for being hexadecimal (protocol.c:279-281);
  `ConductivityMeter.DecodesExactly` says what is decoded when they are.
- A window's minimum restarts after a negative reading and its maximum never falls below zero
  (`Windows.MinimumExactly`, `Windows.StreamedMax`).
- A reading interval of zero lets a day window take 65536 readings and report none (`Counters.ZeroIntervalWraps`); hours
  and minutes stay exact at any interval (`Counters.UnwrappedExactly`).

## Layout

`Bytes`, `Editions`: shared vocabulary. `Crc` (three modules), `NgxParse`, `Frame`, `PublishedPacket`, `Corruption`,
`Fields`, `FieldTable`, `WireNames`, `Scanner`, `Replies`, `Dispatch`, `Terminal`, `Conversation`: the protocol,
bottom up. `MeterFrames`, `Bcd`, `FlowMeter`, `ConductivityMeter`: the meters. `Windows`,
`Scheduler`, `RunProperties`, `Increments`, `Counters`, `DataProc`: the statistics. `Modular`: remainders. Code that updates buffers, registers or
structures is a method or class proved against a specification function of the same file or the one
below it; the properties are lemmas about those functions. `dafny verify dfyconfig.toml` checks
everything.

## Model

| member | source | states |
|---|---|---|
| `Crc.CRC16Gb212` | daemon/common/tinz_common_helper.c:69-92 | the two nested loops compute the byte-by-byte register function `Gb212` |
| `CrcDetection.SuffixKeepsDifference` | daemon/common/tinz_common_helper.c:69-92 | through any suffix, two registers agree at the end iff their high halves agreed before it |
| `CrcDetection.HighHalfDecides` | daemon/common/tinz_common_helper.c:69-92 | two non-empty messages have the same CRC iff the high halves of their CRCs agree |
| `CrcDetection.CollideExactly` | daemon/common/tinz_common_helper.c:69-92 | two messages of equal length have the same CRC iff their byte-wise difference, run through a register that starts at zero, leaves its high half zero |
| `CrcDetection.SubstitutionDetected` | daemon/common/tinz_common_helper.c:69-92 | replacing one byte keeps the CRC iff the byte is the same, for every message, position and byte |
| `CrcDetection.SwapDetected` | daemon/common/tinz_common_helper.c:69-92 | exchanging two neighbours keeps the CRC iff they are equal or differ by exactly 0xB6 |
| `CrcDetection.SwapDetectedInText` | daemon/common/tinz_common_helper.c:69-92 | in seven-bit text every exchange of unequal neighbours changes the CRC |
| `CrcDetection.StartValue` | daemon/common/tinz_common_helper.c:71-71 | the register starts at 0xFFFF, and one byte of ones followed by any number of zero bytes leaves it at zero |
| `PublishedPacket.PublishedChecksum` | daemon/common/tinz_common_helper.c:69-92 | the data segment HJ 212 publishes as its example, 101 bytes, has the checksum it publishes, 1C80 |
| `PublishedPacket.PublishedPacketAccepted` | daemon/up_proc/protocl_gb212.c:42-48 | of that segment the builder makes the published packet byte for byte, and the acceptor isolates the segment in it |
| `ModbusTables.TablesAreShift8` | daemon/common/tinz_common_helper.c:10-52 | for every byte the two table entries glued together are the GB212 inner loop's eight shifts of it |
| `ModbusTables.CRC16Modbus` | daemon/common/tinz_common_helper.c:54-66 | the table-driven loop equals the bit-serial CRC (start 0xFFFF, polynomial 0xA001) on every byte sequence |
| `ModbusTables.ModbusCheckValue` | daemon/common/tinz_common_helper.c:54-66 | the digits one to nine have the published check value 4B37 of CRC-16/MODBUS |
| `NgxParse.NgxIsNumbers` | daemon/common/nginx_helper.c:14-27 | succeeds iff the text is non-empty and all digits |
| `NgxParse.NgxAtoi` | daemon/common/nginx_helper.c:30-54 | the positional value iff non-empty, all digits and at most 2147483647, else -1 |
| `NgxParse.NgxHexToI` | daemon/common/nginx_helper.c:56-90 | the same for hexadecimal digits in either case |
| `NgxParse.BoundInDigits` | daemon/common/nginx_helper.c:30-54 | 2147483647 is read and 2147483648 refused |
| `NgxParse.HexInDigits` | daemon/common/nginx_helper.c:56-90 | 1C80, 9aBf and FFFF are read as the numbers they spell |
| `NgxParse.AtoiDec4` | daemon/up_proc/protocl_gb212.c:43-46 | the reader inverts the builder's four length digits |
| `NgxParse.HexToIHex4` | daemon/up_proc/protocl_gb212.c:48-48 | the reader inverts the builder's four checksum digits |
| `Frame.CheckFrame` | daemon/up_proc/protocl_gb212.c:139-167 | the acceptor's verdict on any C string, in both editions, including the run-away checksum |
| `Frame.CarriedIsAccepted` | daemon/up_proc/protocl_gb212.c:139-167 | prefix, "##", length, payload, CRC, terminator and tail, with no earlier marker or terminator: accepted, and exactly the payload isolated |
| `Frame.AcceptedIsCarried` | daemon/up_proc/protocl_gb212.c:139-167 | conversely whatever is accepted has that shape, with matching length and CRC |
| `Frame.BuiltPacketAccepted` | daemon/up_proc/protocl_gb212.c:42-48 | a built packet behind any prefix and before any tail is isolated iff the prefix brings no marker and the payload no terminator |
| `Frame.AsWrittenRefusesBuilt` | daemon/up_proc/protocl_gb212.c:153-157 | looking for `/r/n`, the acceptor refuses every packet the builder sends, behind any prefix without a marker and whatever follows |
| `Frame.AsWrittenNeverIsolates` | daemon/up_proc/protocl_gb212.c:153-157 | behind any prefix at all, it never isolates the built packet's data |
| `Frame.RepairedNeverRunsAway` | daemon/up_proc/protocl_gb212.c:150-163 | rejecting unreadable lengths makes the check finite and changes no other verdict |
| `Frame.RunsAwayExactly` | daemon/up_proc/protocl_gb212.c:150-163 | as written the CRC of -1 bytes is computed iff four characters that are no number follow the marker and the last of them begins four hexadecimal digits right before the terminator; repaired never |
| `Frame.SomeMessageRunsAway` | daemon/up_proc/protocl_gb212.c:150-163 | "##000A123/r/n" is such a message |
| `Frame.CutPacketRefused` | daemon/up_proc/protocl_gb212.c:68-75 | a packet that ends at its data segment is accepted under no terminator |
| `Corruption.OnlyCollisionsPass` | daemon/up_proc/protocl_gb212.c:139-167 | other data of the same length in a built packet gets through only if their CRC collides, even if they bring a terminator |
| `Corruption.PassesExactly` | daemon/up_proc/protocl_gb212.c:139-167 | and they are isolated in the packet's place iff their CRC collides and they bring no terminator |
| `Corruption.SubstitutionRefused` | daemon/up_proc/protocl_gb212.c:159-166 | no packet with one wrong data byte is accepted |
| `Corruption.SwapRefused` | daemon/up_proc/protocl_gb212.c:159-166 | no packet with two unequal neighbouring characters exchanged is accepted |
| `Fields.ScanTouchesKeysOnly` | daemon/up_proc/protocl_gb212.c:176-197 | byte by byte, the scan changes only letters before their segment's first '=', and those only in case |
| `Fields.PrintedFieldIsRead` | daemon/up_proc/protocl_gb212.c:168-199 | in front of anything, `name=value` and a delimiter is read as that field, split at the last '=', value untouched |
| `Fields.NothingRead` | daemon/up_proc/protocl_gb212.c:182-199 | a segment without '=', or with nothing before or behind it, yields no field |
| `Fields.TailUnread` | daemon/up_proc/protocl_gb212.c:190-199 | what no delimiter closes yields no field |
| `Fields.FieldsRoundTrip` | daemon/up_proc/protocl_gb212.c:168-199 | the tokeniser inverts the field printer on every list of names and values, in whatever case, up to folding the names |
| `FieldTable.KeyIsExact` | daemon/common/nginx_helper.h:30-72 | comparing packed words is comparing names, for every length |
| `FieldTable.KeyOfExact` | daemon/up_proc/protocl_gb212.c:202-391 | the switch recognises a key by its exact spelling and by nothing else |
| `WireNames.RecognisedExactly` | daemon/up_proc/protocl_gb212.c:176-391 | each of the twenty keys is recognised by the spelling HJ 212 gives it, in any mix of upper and lower case, and by nothing else |
| `WireNames.PnoUnknown` | daemon/up_proc/protocl_gb212.c:250-250 | the name PNO, spelled with the letter as in the standard, is no key |
| `FieldTable.AllTaken` | daemon/up_proc/protocl_gb212.c:202-391 | a segment is taken iff every field in it meets its key's constraint |
| `FieldTable.SmallFields` | daemon/up_proc/protocl_gb212.c:251-270 | as written every non-empty Flag, PNUM or PN0 is refused; repaired, the empty one is, else the value modulo 256 is stored, and 255 for what is no number |
| `FieldTable.ArgsAreLastValues` | daemon/up_proc/protocl_gb212.c:202-391 | after an accepted segment every one of the arguments holds the last value its key was given, or what it held before |
| `Scanner.ScanSegment` | daemon/up_proc/protocl_gb212.c:176-197 | the inner loop folds the segment in place up to its first '=', stops on its delimiter, finds its last '=', and writes nothing else |
| `Scanner.TakeSegment` | daemon/up_proc/protocl_gb212.c:172-395 | one turn of the outer loop keeps buffer and arguments in step with the field list |
| `Scanner.ScanFields` | daemon/up_proc/protocl_gb212.c:168-396 | the two loops refine the field list: arguments are those of the specified fields, the buffer the segment with keys folded, nothing outside it written |
| `Scanner.ParseUrl` | daemon/up_proc/protocl_gb212.c:123-401 | the whole of parse_url on every message: it hangs on exactly the run-away messages, with nothing written; otherwise refusal, or the arguments of the accepted packet's fields |
| `Replies.ReplyReadBack` | daemon/up_proc/protocl_gb212.c:39-40 | the tokeniser reads a printed reply back as the seven fields printed |
| `Replies.ReplyTerminators` | daemon/up_proc/protocl_gb212.c:39-40 | a reply contains a terminator iff the configured PW or MN does |
| `Replies.PadInBytes` | daemon/up_proc/protocl_gb212.c:39-40 | a width cuts a longer string and fills a shorter one with blanks on the right; nothing behind a NUL is printed |
| `Terminal.SealLate` | daemon/up_proc/protocl_gb212.c:41-48 | header subtracted first: the buffer's C string is the packet |
| `Terminal.SealEarly` | daemon/up_proc/protocl_gb212.c:67-75 | checksum first: the trailer stays inside the buffer iff the text has at most 1018 bytes, and then the buffer's C string ends at the data segment |
| `Terminal.Link.SealAndSend` | daemon/up_proc/protocl_gb212.c:36-58 | ignored iff the text is shorter than 74 or longer than 1024 bytes; past the buffer iff the checksum comes first and the text has 1019 to 1024 bytes; otherwise sent |
| `Terminal.Link.RequestRespond` | daemon/up_proc/protocl_gb212.c:34-58 | always sends exactly the 9011 reply, in both editions the same |
| `Terminal.Link.ExecuteRespond` | daemon/up_proc/protocl_gb212.c:60-86 | always sends exactly the 9012 reply of the edition |
| `Terminal.Link.SendCurrentTime` | daemon/up_proc/protocl_gb212.c:88-121 | reports success iff the text has 74 to 1024 bytes, and then sends exactly the clock reply |
| `Terminal.Link.Switch` | daemon/up_proc/protocl_gb212.c:418-513 | result, parameter block and outbox are those of the dispatch function |
| `Terminal.Link.MessageProc` | daemon/up_proc/protocl_gb212.c:404-514 | the same for every received message, from raw buffer to outbox; it hangs on exactly the run-away messages, with nothing stored or sent |
| `Conversation.ReplyDiscipline` | daemon/up_proc/protocl_gb212.c:418-513 | at most one 9011, at most one 9012, and 9011 before 9012 |
| `Conversation.TimingsStored` | daemon/up_proc/protocl_gb212.c:420-431 | the block changes only in a set command that reports success, and then to the message's last OverTime and ReCount modulo 256 |
| `Conversation.TimingsAreLastSet` | daemon/up_proc/protocl_gb212.c:404-431 | after any conversation, each message with its own uninitialised arguments, the timings are those of its last successful set command |
| `Conversation.IdentityKept` | daemon/up_proc/protocl_gb212.c:404-514 | no conversation, each message with its own uninitialised arguments, changes MN, PW or the source type |
| `Conversation.GateExactly` | daemon/up_proc/protocl_gb212.c:404-416 | a message reaches the switch iff its packet and fields are accepted, the QN has seventeen bytes, the station is named, CN is positive and ST not negative; any other changes and sends nothing |
| `Conversation.RespondInNumbers` | daemon/up_proc/protocl_gb212.c:418-513 | the whole switch in command and result numbers: what is stored, and which 9011, clock reply and 9012 are sent, with which codes |
| `Conversation.UngivenIsZero` | daemon/up_proc/protocl_gb212.c:404-409 | repaired, an argument no field gives is zero or empty |
| `Conversation.UngivenTimingsAreZero` | daemon/up_proc/protocl_gb212.c:420-431 | so a successful set command without OverTime or ReCount stores zero |
| `Conversation.RepliesFollowFields` | daemon/up_proc/protocl_gb212.c:418-513 | the replies of an accepted message, in numbers, follow from its last CN, Flag and PolId fields alone |
| `Conversation.ReplyIsReadable` | daemon/up_proc/protocl_gb212.c:34-58 | every repaired reply passes the acceptor iff PW and MN bring no terminator, fits buffer and segment bound, and reads back with the QN first |
| `Conversation.RepliesInBytes` | daemon/up_proc/protocl_gb212.c:34-121 | each of the three replies byte for byte: 91, 9011 and QnRtn; 91, 9012 and ExeRtn; the source type, 1011 and SystemTime; flag 4, the padded QN, PW and MN |
| `Conversation.CodesAreReadable` | daemon/up_proc/protocl_gb212.c:39-40 | unless PW or MN bring delimiters, the reader gets seven fields: the QN, 91 or the source type, the number 9011, 9012 or 1011, the configured PW and MN, flag 4, and under QnRtn, ExeRtn or SystemTime the very code or time sent |
| `Conversation.AnswersQuoteTheRequest` | daemon/up_proc/protocl_gb212.c:229-236 | every answered message named this station and a QN of seventeen digits, and each answer carries that QN where the reader finds it |
| `Conversation.PayloadSurvives` | daemon/up_proc/protocl_gb212.c:139-199 | a data segment packed by the builder, behind any prefix without a marker, is tokenised as if it stood alone |
| `Conversation.FieldsSurviveTheLine` | daemon/up_proc/protocl_gb212.c:139-199 | printer, builder, acceptor and tokeniser together return any field list with its names folded, behind any prefix without a marker, in both editions once the packet ends in the terminator searched for |
| `Conversation.SetCommandServed` | daemon/up_proc/protocl_gb212.c:404-431 | a set command sent to the repaired terminal, given byte for byte in the spelling of HJ 212 with ST, PW and the CP bracket, is served end to end: timings stored, 9011 with 1 if asked for, 9012 with 1 |
| `Conversation.AsWrittenRefusesStations` | daemon/up_proc/protocl_gb212.c:205-275 | as written no message with an MN, Flag, PNUM or PN0 field is accepted |
| `Conversation.AsWrittenServesNoStation` | daemon/up_proc/protocl_gb212.c:404-416 | as written whatever passes the gate does so on the QN, station flag and reply flag the uninitialised structure held |
| `Conversation.AsWrittenServesExactly` | daemon/up_proc/protocl_gb212.c:404-416 | as written some message gets past the gate iff the uninitialised structure holds a QN of seventeen bytes and a set station flag |
| `Conversation.AsWrittenAnswersUnreadable` | daemon/up_proc/protocl_gb212.c:67-108 | as written no 9012 and no clock reply is accepted by anyone |
| `MeterFrames.FindStartAndEnd` | daemon/readmeter/protocol.c:18-34 | succeeds iff there is a candidate, and then on the least one: the early exit loses nothing |
| `MeterFrames.FrameBehindNoise` | daemon/readmeter/protocol.c:18-34 | behind noise a frame is the one found iff the noise starts no candidate |
| `MeterFrames.SumValid` | daemon/readmeter/protocol.c:144-148 | the `u_char` accumulator is the sum modulo 256 |
| `MeterFrames.XorValid` | daemon/common/tinz_common_helper.c:96-105 | the loop computes the XOR of the range |
| `MeterFrames.SubstitutionNoticed` | daemon/readmeter/protocol.c:144-149 | both checksums change under every single-byte substitution and under nothing else of that kind |
| `Bcd.Bcd2BinInverts` | daemon/common/tinz_base_def.h:33-35 | BCD2BIN inverts BIN2BCD below 100, which yields decimal halves |
| `Bcd.Bin2BcdInverts` | daemon/common/tinz_base_def.h:33-35 | and BIN2BCD inverts BCD2BIN on every valid byte |
| `Bcd.HalvesAreDigits` | daemon/common/tinz_base_def.h:33-35 | the upper half of a byte counts the tens |
| `Bcd.TotalIsPositional` | daemon/readmeter/protocol.c:213-220 | the eight-term sum is the little-endian base-100 value, in thousandths |
| `Bcd.TotalInBytes` | daemon/readmeter/protocol.c:213-220 | 78 56 34 12 00 00 00 00 reads as 12345.678 |
| `Bcd.AsWrittenTotal` | daemon/readmeter/protocol.c:214-214 | with the int product the sum is right iff the second digit is at most two |
| `Bcd.TotalRoundTrip` | daemon/readmeter/protocol.c:213-220 | every reading below 10^16 thousandths comes back as encoded |
| `Bcd.TotalInjective` | daemon/readmeter/protocol.c:213-220 | valid digit strings have equal totals iff they are equal, and the total is below 10^16 |
| `FlowMeter.BuildRequest` | daemon/readmeter/protocol.c:109-127 | all fourteen bytes: header, address and code in place, and the sum of the first twelve modulo 256 |
| `FlowMeter.ReadAnswer` | daemon/readmeter/protocol.c:135-153 | the data of the first frame, iff length, delimiters, address, marks and checksum all fit |
| `FlowMeter.ReadRate` | daemon/readmeter/protocol.c:135-154 | the same for the instantaneous flow, code 0x18 and eighteen bytes: four data bytes |
| `FlowMeter.ReadTotal` | daemon/readmeter/protocol.c:198-220 | the same for the cumulative flow, code 0x03 and twenty-two bytes, decoded |
| `FlowMeter.AnswerDecoded` | daemon/readmeter/protocol.c:135-155 | a well-formed answer behind noise that starts no candidate decodes to its data |
| `FlowMeter.DecodesExactly` | daemon/readmeter/protocol.c:135-153 | data are decoded iff the first candidate is, in literal bytes, 68, this address, 68 81, this code, C0, the data, their sum and 16 |
| `FlowMeter.OneAddressOnly` | daemon/readmeter/protocol.c:139-142 | the same bytes are never an answer for two addresses or to two questions |
| `FlowMeter.CorruptAnswerRefused` | daemon/readmeter/protocol.c:144-149 | one wrong byte anywhere before the closing delimiter fails the answer |
| `FlowMeter.CorruptLineRefused` | daemon/readmeter/protocol.c:135-149 | on the line, an answer with one wrong byte between its delimiters decodes to nothing, unless the noise now starts a candidate |
| `FlowMeter.TotalReadOffTheLine` | daemon/readmeter/protocol.c:198-220 | every reading below 10^16 thousandths is read as itself from the raw line |
| `ConductivityMeter.HexRoundTrip` | daemon/common/tinz_common_helper.h:45-46 | a byte survives HEXTOASCII and ASCIITOHEX always when repaired, as written iff it prints without the letter A |
| `ConductivityMeter.BuildRequest` | daemon/readmeter/protocol.c:250-264 | all fourteen characters: the address split in two, C8000008, and two digits that spell the XOR of the ten |
| `ConductivityMeter.FoldData` | daemon/readmeter/protocol.c:283-291 | in place, valid iff all eight characters are hexadecimal once folded; only letters change, only in case |
| `ConductivityMeter.CheckFrame` | daemon/readmeter/protocol.c:276-281 | address and checksum match, folding only the two checksum characters |
| `ConductivityMeter.ReadAnswer` | daemon/readmeter/protocol.c:272-300 | the four data bytes of the first frame that passes every test, the buffer changed at most in letter case |
| `ConductivityMeter.AnswerDecoded` | daemon/readmeter/protocol.c:272-300 | an answer behind noise decodes to the bytes sent, as written iff neither checksum nor data print an A |
| `ConductivityMeter.TakenCharacters` | daemon/readmeter/protocol.c:284-290 | a data character is taken iff it is one of 0-9, A-F and a-f |
| `ConductivityMeter.DecodesExactly` | daemon/readmeter/protocol.c:272-300 | repaired, four bytes are decoded from a first candidate with hexadecimal checksum characters iff it is, in characters, a frame of this address that spells these bytes and its own XOR, in either case |
| `ConductivityMeter.OneAddressOnly` | daemon/readmeter/protocol.c:276-276 | the same characters are never an answer from two addresses |
| `ConductivityMeter.CorruptAnswerRefused` | daemon/readmeter/protocol.c:278-281 | one wrong character among the twenty fails the checksum |
| `ConductivityMeter.CorruptLineRefused` | daemon/readmeter/protocol.c:272-281 | the same on the line: nothing is decoded, unless the noise now starts a candidate |
| `Windows.StreamedTotals` | daemon/dataproc/dataproc.c:246-259 | after any readings: count modulo 65536, their sum, first total kept, last total recorded |
| `Windows.StreamedMax` | daemon/dataproc/dataproc.c:253-253 | the maximum is the true one iff some reading is not negative |
| `Windows.MinimumExactly` | daemon/dataproc/dataproc.c:252-252 | the minimum is the true one iff no reading is negative or the last one is the least |
| `Windows.StreamingEqualsBatch` | daemon/dataproc/dataproc.c:246-309 | for non-negative readings count, sum, maximum and minimum are those of the sequence, despite both sentinels |
| `Windows.AverageBetween` | daemon/dataproc/dataproc.c:116-116 | the reported average lies between minimum and maximum, and is zero for an empty window |
| `Windows.IncrementIs` | daemon/dataproc/dataproc.c:97-97 | an increment is positive iff the total rose from a total that was not negative, and then it is the rise |
| `Windows.StreamedConcat` | daemon/dataproc/dataproc.c:246-290 | count, sum and maximum of a window over a concatenation are the merge of those over the parts, whatever the signs |
| `Windows.MinimumConcat` | daemon/dataproc/dataproc.c:252-252 | so is the minimum while the second part has no negative reading; after one, only the second part counts |
| `Scheduler.StepShows` | daemon/dataproc/dataproc.c:376-403 | one iteration keeps each level's window and table in step with the list of closed and open windows |
| `Scheduler.RunShowsBook` | daemon/dataproc/dataproc.c:376-403 | so does any run: each row and each open window is the batch result of its own readings |
| `Scheduler.TakenIs` | daemon/dataproc/dataproc.c:46-56 | a configured meter takes flag, reading and total from the parameter block, another keeps its own; its windows are untouched |
| `Scheduler.TickClears` | daemon/dataproc/dataproc.c:291-298 | after a reading is taken the current reading is cleared |
| `RunProperties.BooksPartitionSamples` | daemon/dataproc/dataproc.c:376-403 | at every level closed and open windows partition the run's readings in order: none lost, none twice |
| `RunProperties.Conserved` | daemon/dataproc/dataproc.c:246-403 | at every level row sums plus the open sum, plus what closed while the meter was invalid, equal the sum of all readings; counts likewise while windows stay below 65536 |
| `Counters.CountsExact` | daemon/dataproc/dataproc.c:246-403 | on all such runs rows, open window and windows without a row count all readings exactly; rows and open window alone do iff none is missing, as for a meter valid throughout |
| `RunProperties.LabelsAscend` | daemon/dataproc/dataproc.c:387-403 | whatever the clock does, closed windows of a level have strictly increasing hours or days, and minutes if the interval is at least 59 |
| `RunProperties.TableLabelsAscend` | daemon/dataproc/dataproc.c:387-403 | and so do the rows of the tables |
| `RunProperties.MinuteLabelsExactly` | daemon/dataproc/dataproc.c:120-120 | minute rows, labelled to the minute, never share a label in any run iff the interval is at least 59 |
| `RunProperties.NestingExactly` | daemon/dataproc/dataproc.c:374-403 | in every run each day rollover is also an hour rollover, iff the hour marker does not start in a later day than the day marker |
| `RunProperties.DaysAreMadeOfHours` | daemon/dataproc/dataproc.c:376-403 | each day's readings are those of the hours closed since the previous day, in order |
| `RunProperties.DayRowsMergeHourRows` | daemon/dataproc/dataproc.c:131-290 | over any run, each day's count, sum and maximum are the merge of exactly the hour rows since the previous day and the readings of those of its hours that filed none; its minimum too if that day has no negative reading, and in any case the minimum hour by hour |
| `RunProperties.DayRowsAgreeExactly` | daemon/dataproc/dataproc.c:146-203 | a day row shows what its hour rows show together in count iff the missing readings are a multiple of 65536, in sum iff they add up to zero, in maximum iff none is higher |
| `RunProperties.FiledDayRows` | daemon/dataproc/dataproc.c:261-290 | if every hour and day filed its row nothing is missing: each day row is the merge of the hour rows between two cuts |
| `RunProperties.SwitchedOffHourLost` | daemon/dataproc/dataproc.c:146-203 | a concrete run whose only day row shows one reading of 5 and whose only hour row shows none |
| `Increments.IncrementsTelescope` | daemon/dataproc/dataproc.c:97-97 | over any run the increments in the table, those of windows that filed no row and that of the open window exceed the meter's advance by exactly what its windows' totals fell |
| `Increments.RowIncrementsTelescope` | daemon/dataproc/dataproc.c:88-97 | rows and open window alone tell the advance iff what went unreported equals what totals fell; if every window filed its row, iff no row ends below its start |
| `Increments.RisingIncrementsExact` | daemon/dataproc/dataproc.c:88-97 | while the meter never counts down they sum to exactly the last total minus the first iff no window that filed no row saw the total advance |
| `Increments.SwitchedOffAdvanceLost` | daemon/dataproc/dataproc.c:88-97 | a concrete run in which the meter advances by 100 and no row reports it |
| `Increments.AsWrittenIncrementsAreZero` | daemon/dataproc/dataproc.c:271-287 | as written every hour and day row reports increment zero |
| `Counters.WindowsNeverOverflow` | daemon/dataproc/dataproc.c:374-403 | from any markers, for any least reading interval including zero and time not running back, no window takes more readings than its period, or what its marker leaves of the first one, has room for |
| `Counters.StartedTogether` | daemon/dataproc/dataproc.c:374-375 | with all markers started together the room is the period's own: 43201 readings a day and 1801 an hour at one second |
| `Counters.UnwrappedExactly` | daemon/dataproc/dataproc.c:374-403 | no run with intervals from r up wraps a counter iff neither the marker's first period nor a later one has room for 65536 readings; the latter excludes only days at interval zero |
| `Counters.EarlierMarkerFits` | daemon/dataproc/dataproc.c:374-375 | a marker in the current or any earlier period meets that condition, for days from one second up |
| `Counters.ZeroIntervalWraps` | daemon/dataproc/dataproc.c:378-384 | with interval zero a day of 65536 readings counts none and averages zero |
| `DataProc.Accrue` | daemon/dataproc/dataproc.c:251-257 | the figure-by-figure update of one meter is the level's step function, including the misdirected total |
| `DataProc.StartOver` | daemon/dataproc/dataproc.c:303-307 | the figure-by-figure reset is an empty window that starts on the last total |
| `DataProc.Processor.constructor` | daemon/dataproc/dataproc.c:333-375 | after initialisation there are 32 meters whose windows are empty (maximum 0, minimum -1), and the markers as the edition leaves them |
| `DataProc.Processor.RtdProc` | daemon/dataproc/dataproc.c:46-56 | every valid meter takes its current parameters, the others keep theirs |
| `DataProc.Processor.DataCalc` | daemon/dataproc/dataproc.c:246-290 | every meter accrues by its own readings alone |
| `DataProc.Processor.RtdInit` | daemon/dataproc/dataproc.c:291-298 | every meter's current reading is cleared, its windows untouched |
| `DataProc.Processor.DataInit` | daemon/dataproc/dataproc.c:300-331 | every meter's window of one level starts over, the other levels untouched |
| `DataProc.Processor.DataFile` | daemon/dataproc/dataproc.c:73-243 | every valid meter gets one row of its level under the given label, the others none |
| `DataProc.Processor.Iterate` | daemon/dataproc/dataproc.c:376-403 | one turn of the loop over the arrays is one step of the model for each of the 32 meters, all on one clock |
| `DataProc.Processor.Run` | daemon/dataproc/dataproc.c:376-411 | so is any number of turns: the whole-run lemmas hold of every meter |

## Left out

- Sockets, threads, serial ports, message queues and shared memory: sends are an append-only outbox, receives are byte buffers; a parameter block that changes within an iteration is not modelled.
- SQLite and SQL text: filing a row appends a record. The `-` columns (MaxFlag, MinFlag, AvgFlag, CouFlag), the Rtd table's rows and the SQL passed on through the message queue are not modelled.
- `localtime` labels and time zones, including the `tm_year + 1990` in table names: windows are labelled by UTC seconds.
- Rounding of `float`/`double`, the `*(float *)` reinterpretation and `DoubleToString`: readings are `real`, meter data stay bytes, totals are counted in thousandths. The code computes the flow total and stores it nowhere; the model returns it.
- `config_file.c`, the empty command branches, the meter protocols under `#if 0`, debug output, `sleep`.
- Buffers of `char` are read as unsigned bytes; a platform whose `char` is signed, where the CRC loops sign-extend, is not modelled. Packed key comparison is modelled for a little-endian machine.
- `read`/`recv` errors. The receive buffer is taken as zeroed beyond the message, as `tcp_client.c` leaves it unless a message fills it completely.
- Terminal.Link.MessageProc: a message that hangs ends the conversation; `Conversation.Serve` treats it as refused and goes on, because what the process does afterwards (it reads past the buffer) is undefined.
- Terminal.Link.SealAndSend: one method for the three builders' common body, which the source copies. What happens once the trailer is written past the buffer is undefined and only reported; the replies sent have at most 140 bytes.
- Terminal.Link.SendCurrentTime: the clock text is a parameter of fourteen digits, because the clock is outside the model.
- DataProc.Processor.DataCalc: the source writes this loop, the init and the filing loop once per level; the model has each once with the level as parameter, as `Accrue` keeps the difference between the levels.
- Counters.WindowsNeverOverflow: for time that does not run back, because a clock set back keeps windows open at will. Markers are non-negative; a negative indeterminate one closes its window at once.
- `BIN4BCD`, `BCD4BIN`, `HexToAscii` (the function) and `ngx_strlchr`: nothing modelled uses them.
