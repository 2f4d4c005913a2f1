/** Properties of whole exchanges: what a message may cause, what a sequence of messages leaves
    behind, and whether the other side can read the answers. */
module Conversation {
  import opened Bytes
  import opened Editions
  import opened NgxParse
  import opened Crc
  import opened Frame
  import opened Fields
  import opened FieldTable
  import opened Scanner
  import opened Replies
  import opened Dispatch
  import opened Terminal
  import opened WireNames

  // ---- One message ----------------------------------------------------------------------

  /** At most one 9011, at most one 9012, and never 9012 first. */
  lemma ReplyDiscipline(e: Edition, para: GeneralPara, url_args: Args, s: bytes, i: nat, j: nat)
    requires i < |Handle(e, para, url_args, s).replies| && j < |Handle(e, para, url_args, s).replies|
    ensures var rs := Handle(e, para, url_args, s).replies;
            && (rs[i].Request? && rs[j].Request? ==> i == j)
            && (rs[i].Execute? && rs[j].Execute? ==> i == j)
            && (rs[i].Request? && rs[j].Execute? ==> i < j)
  {
    hide Parsed;
  }

  /** The message is a set command that reports success. */
  predicate SetsTimings(o: Outcome) {
    o.args.cn == CN_SET_OVERTIME_RECOUNT && Execute(RESULT_SUCCESS) in o.replies
  }

  /** The fields of the data segment the packet check isolates. */
  function FieldsIn(e: Edition, s: bytes): seq<Field> {
    match FrameVerdict(e, Terminator(e), s)
    case Accept(start, end) => FieldsOf(s[start..end], s[end..])
    case _ => []
  }

  /** An outcome that is more than a refusal rests on the fields of an accepted packet. */
  lemma ServedFromFields(e: Edition, para: GeneralPara, url_args: Args, s: bytes)
    ensures var o := Handle(e, para, url_args, s);
            o.ok || o.replies != [] ==>
              && FrameVerdict(e, Terminator(e), s).Accept?
              && ApplyAll(e, para, url_args, FieldsIn(e, s)) == Some(o.args)
              && Overwritten(url_args, o.args, FieldsIn(e, s))
              && Admitted(o.args)
  {
    hide ApplyAll, FieldsOf, FrameVerdict, Overwritten, Respond;
    if ApplyAll(e, para, url_args, FieldsIn(e, s)).Some? {
      ArgsAreLastValues(e, para, url_args, FieldsIn(e, s));
    }
  }

  /** Timings change only in a set command that reports success, and then to the last values
      the message gave, cut to a byte. Nothing else in the block ever changes. */
  lemma TimingsStored(e: Edition, para: GeneralPara, url_args: Args, s: bytes)
    ensures var o, fs := Handle(e, para, url_args, s), FieldsIn(e, s);
            o.para == if SetsTimings(o)
                      then para.(overTime := NumberOr(LastValue(fs, OverTime), url_args.overTime) % 256,
                                 reCount := NumberOr(LastValue(fs, ReCount), url_args.reCount) % 256)
                      else para
  {
    hide ApplyAll, FieldsOf, FrameVerdict, LastValue, NumberOr;
    ServedFromFields(e, para, url_args, s);
  }

  /** The repaired program starts every message from nothing: what no field gives is zero or empty. */
  lemma UngivenIsZero(para: GeneralPara, s: bytes)
    requires Handle(Repaired, para, ZEROED, s).ok || Handle(Repaired, para, ZEROED, s).replies != []
    ensures Overwritten(Args(0, 0, 0, [], [], 0, 0, 0, 0, 0, 0, 0, 0, [], [], [], [], [], []),
                        Handle(Repaired, para, ZEROED, s).args, FieldsIn(Repaired, s))
  {
    hide Handle, FieldsIn, Overwritten, ApplyAll, FrameVerdict, Admitted;
    ServedFromFields(Repaired, para, ZEROED, s);
  }

  /** So a set command without OverTime or ReCount stores zero. */
  lemma UngivenTimingsAreZero(para: GeneralPara, s: bytes)
    requires SetsTimings(Handle(Repaired, para, ZEROED, s))
    ensures var q, fs := Handle(Repaired, para, ZEROED, s).para, FieldsIn(Repaired, s);
            && (LastValue(fs, OverTime).None? ==> q.overTime == 0)
            && (LastValue(fs, ReCount).None? ==> q.reCount == 0)
  {
    hide Handle, FieldsIn, LastValue, SetsTimings;
    TimingsStored(Repaired, para, ZEROED, s);
  }

  // ---- Many messages --------------------------------------------------------------------

  /** A message and what lay on the stack when its turn came, which only the program as written
      gets to see. */
  datatype Received = Received(text: bytes, uninit: Args)

  function HandleOne(e: Edition, para: GeneralPara, m: Received): Outcome {
    Handle(e, para, InitialArgs(e, m.uninit), m.text)
  }

  /** The parameter block after a sequence of messages. */
  function Serve(e: Edition, para: GeneralPara, ms: seq<Received>): GeneralPara {
    if ms == [] then para else HandleOne(e, Serve(e, para, ms[..|ms| - 1]), ms[|ms| - 1]).para
  }

  /** How the k-th message of a sequence was answered. */
  function Answer(e: Edition, para: GeneralPara, ms: seq<Received>, k: nat): Outcome
    requires k < |ms|
  {
    HandleOne(e, Serve(e, para, ms[..k]), ms[k])
  }

  /** Identity and source type outlive every conversation. */
  lemma {:induction false} IdentityKept(e: Edition, para: GeneralPara, ms: seq<Received>)
    ensures var q := Serve(e, para, ms); q.mn == para.mn && q.pw == para.pw && q.stType == para.stType
  {
    hide Handle;
    if ms != [] {
      var front, m := ms[..|ms| - 1], ms[|ms| - 1];
      IdentityKept(e, para, front);
      TimingsStored(e, Serve(e, para, front), InitialArgs(e, m.uninit), m.text);
    }
  }

  /** After any conversation the timings are those of its last successful set command. */
  lemma {:induction false} TimingsAreLastSet(e: Edition, para: GeneralPara, ms: seq<Received>, k: nat)
    requires k < |ms| && SetsTimings(Answer(e, para, ms, k))
    requires forall i :: k < i < |ms| ==> !SetsTimings(Answer(e, para, ms, i))
    ensures var q, fs, before := Serve(e, para, ms), FieldsIn(e, ms[k].text), InitialArgs(e, ms[k].uninit);
            && q.overTime == NumberOr(LastValue(fs, OverTime), before.overTime) % 256
            && q.reCount == NumberOr(LastValue(fs, ReCount), before.reCount) % 256
    decreases |ms|
  {
    hide Handle, FieldsIn, LastValue;
    var front, n := ms[..|ms| - 1], |ms| - 1;
    forall i | 0 <= i < n ensures Answer(e, para, front, i) == Answer(e, para, ms, i) {
      assert front[..i] == ms[..i] && front[i] == ms[i];
    }
    TimingsStored(e, Serve(e, para, front), InitialArgs(e, ms[n].uninit), ms[n].text);
    if k < n {
      TimingsAreLastSet(e, para, front, k);
      assert !SetsTimings(Answer(e, para, ms, n));
    }
  }

  // ---- Can the answers be read? ---------------------------------------------------------

  lemma QnKey()
    ensures Lowered(QN) == KEY_QN
  {
    assert Lowered(QN)[0] == 0x71 && Lowered(QN)[1] == 0x6E;
  }

  /** A reply's text holds a terminator iff PW or MN brings one, and reads back with the QN first. */
  lemma TextIsReadable(para: GeneralPara, a: Args, r: Reply, clock: ClockText, after: bytes)
    requires Known(r) && |a.qn| == QN_LEN && AllDigits(a.qn)
    ensures Contains(Text(para, a, r, clock), CRLF) <==>
              Contains(Pad(para.pw, 6), CRLF) || Contains(Pad(para.mn, 24), CRLF)
    ensures [Pair(KEY_QN, a.qn)] <= Pairs(FieldsOf(Text(para, a, r, clock), after))
  {
    hide Pad, ReplyText, Contains, Decimal, Decimal2, Dec4, FieldsOf, Lowered;
    DigitsAreValue(a.qn);
    PadExact(a.qn, QN_LEN);
    QnKey();
    match r {
      case Request(code) =>
        DigitsAreValue(Decimal(code));
        ReplyTerminators(TEXT_91, TEXT_9011, a.qn, para.pw, para.mn, QN_RTN, Decimal(code));
        ReplyHeadReadBack(TEXT_91, TEXT_9011, a.qn, para.pw, para.mn, QN_RTN, Decimal(code), after);
      case Execute(code) =>
        DigitsAreValue(Decimal(code));
        ReplyTerminators(TEXT_91, TEXT_9012, a.qn, para.pw, para.mn, EXE_RTN, Decimal(code));
        ReplyHeadReadBack(TEXT_91, TEXT_9012, a.qn, para.pw, para.mn, EXE_RTN, Decimal(code), after);
      case Clock =>
        ClockDigits(para, clock);
        var st, cn := Decimal2(para.stType as int), Dec4(CN_GET_TIME);
        ReplyTerminators(st, cn, a.qn, para.pw, para.mn, SYSTEM_TIME, clock);
        ReplyHeadReadBack(st, cn, a.qn, para.pw, para.mn, SYSTEM_TIME, clock, after);
    }
  }

  /** A reply as the other side gets it: the acceptor isolates the reply's text unless the
      configured PW or MN smuggles a terminator in, the packet fits the send buffer, and the
      first field the tokeniser finds is the QN being answered. */
  lemma ReplyIsReadable(para: GeneralPara, a: Args, r: Reply, clock: ClockText)
    requires Known(r) && |a.qn| == QN_LEN && AllDigits(a.qn)
    ensures var text, w := Text(para, a, r, clock), Wire(Repaired, para, a, r, clock);
            && |text| <= 1024 && |w| + 1 <= MAX_TCPDATA_LEN
            && w[6..6 + |text|] == text
            && (FrameVerdict(Repaired, CRLF, w) == Accept(6, 6 + |text|) <==>
                !Contains(Pad(para.pw, 6), CRLF) && !Contains(Pad(para.mn, 24), CRLF))
            && [Pair(KEY_QN, a.qn)] <= Pairs(FieldsOf(text, w[6 + |text|..]))
  {
    hide Pad, Text, FrameVerdict, Contains, FieldsOf, Packet;
    TextBounds(para, a, r, clock);
    var text := Text(para, a, r, clock);
    var w := Packet(text, CRLF);
    TextIsReadable(para, a, r, clock, w[6 + |text|..]);
    assert [] + w + [] == w;
    SingleHash();
    BuiltPacketAccepted(Repaired, CRLF, [], text, []);
    PacketText(text, CRLF);
  }

  lemma PacketText(text: bytes, terminator: bytes)
    requires |text| < 10000
    ensures Packet(text, terminator)[6..6 + |text|] == text
  {
    assert Packet(text, terminator) == [] + HASHES + Dec4(|text|) + text + Hex4(Gb212(text)) + terminator;
    Parts(Packet(text, terminator), [], Dec4(|text|), text, Hex4(Gb212(text)), terminator);
  }

  /** Whenever a message is answered, it carried a QN of seventeen digits, every answer quotes
      exactly that QN, and the other side can read it there. */
  lemma AnswersQuoteTheRequest(para: GeneralPara, s: bytes, r: Reply, clock: ClockText)
    requires r in Handle(Repaired, para, ZEROED, s).replies
    ensures var a := Handle(Repaired, para, ZEROED, s).args;
            && LastValue(FieldsIn(Repaired, s), Qn) == Some(a.qn)
            && LastValue(FieldsIn(Repaired, s), Mn) == Some(para.mn)
            && |a.qn| == QN_LEN && AllDigits(a.qn) && Known(r)
            && var text, w := Text(para, a, r, clock), Wire(Repaired, para, a, r, clock);
               [Pair(KEY_QN, a.qn)] <= Pairs(FieldsOf(text, w[6 + |text|..]))
  {
    hide FieldsIn, ApplyAll, LastValue, Text, Wire, Respond;
    ServedFromFields(Repaired, para, ZEROED, s);
    var fs, a := FieldsIn(Repaired, s), Handle(Repaired, para, ZEROED, s).args;
    AllTaken(Repaired, para, ZEROED, fs);
    LastValueIsGiven(fs, Qn);
    LastValueIsGiven(fs, Mn);
    ReplyIsReadable(para, a, r, clock);
  }

  function Part(head: bytes, value: bytes, close: byte): bytes {
    head + value + [close]
  }

  lemma PartPrinted(head: bytes, name: bytes, value: bytes, close: byte)
    requires head == name + [EQUALS]
    ensures Part(head, value, close) == Print(name, value, close)
  {
  }

  /** A reply byte for byte: QN=..;ST=..;CN=..;PW=..;MN=..;Flag=4;CP=&&..=..&& */
  function ReplyBytes(qn: bytes, st: bytes, cn: bytes, pw: bytes, mn: bytes, head: bytes, value: bytes): bytes {
    Part([0x51, 0x4E, 0x3D], qn, 0x3B) + Part([0x53, 0x54, 0x3D], st, 0x3B) + Part([0x43, 0x4E, 0x3D], cn, 0x3B)
    + Part([0x50, 0x57, 0x3D], pw, 0x3B) + Part([0x4D, 0x4E, 0x3D], mn, 0x3B)
    + Part([0x46, 0x6C, 0x61, 0x67, 0x3D], [0x34], 0x3B)
    + [0x43, 0x50, 0x3D, 0x26, 0x26] + Part(head, value, 0x26) + [0x26]
  }

  lemma ReplyTextBytes(st: bytes, cn: bytes, qn: bytes, pw: bytes, mn: bytes, key: bytes, head: bytes, value: bytes)
    requires head == key + [0x3D]
    ensures ReplyText(st, cn, qn, pw, mn, key, value) ==
            ReplyBytes(Pad(qn, 17), st, cn, Pad(pw, 6), Pad(mn, 24), head, value)
  {
    PartPrinted([0x51, 0x4E, 0x3D], QN, Pad(qn, 17), SEMICOLON);
    PartPrinted([0x53, 0x54, 0x3D], ST, st, SEMICOLON);
    PartPrinted([0x43, 0x4E, 0x3D], CN, cn, SEMICOLON);
    PartPrinted([0x50, 0x57, 0x3D], PW, Pad(pw, 6), SEMICOLON);
    PartPrinted([0x4D, 0x4E, 0x3D], MN, Pad(mn, 24), SEMICOLON);
    PartPrinted([0x46, 0x6C, 0x61, 0x67, 0x3D], FLAG, [0x34], SEMICOLON);
    PartPrinted(head, key, value, AMPERSAND);
    hide Part, Print, Pad;
  }

  /** The three replies byte for byte: "91", "9011" and "QnRtn=", "91", "9012" and "ExeRtn=", the
      source type, "1011" and "SystemTime=". */
  lemma RepliesInBytes(para: GeneralPara, a: Args, r: Reply, clock: ClockText)
    requires Known(r)
    ensures var qn, pw, mn, text := Pad(a.qn, 17), Pad(para.pw, 6), Pad(para.mn, 24), Text(para, a, r, clock);
            match r
            case Request(code) =>
              var digit := if code == 1 then 0x31 else if code == 2 then 0x32 else 0x33;
              text == ReplyBytes(qn, [0x39, 0x31], [0x39, 0x30, 0x31, 0x31], pw, mn,
                                 [0x51, 0x6E, 0x52, 0x74, 0x6E, 0x3D], [digit])
            case Execute(code) =>
              var digit := if code == 1 then 0x31 else if code == 2 then 0x32 else 0x33;
              text == ReplyBytes(qn, [0x39, 0x31], [0x39, 0x30, 0x31, 0x32], pw, mn,
                                 [0x45, 0x78, 0x65, 0x52, 0x74, 0x6E, 0x3D], [digit])
            case Clock =>
              text == ReplyBytes(qn, Decimal2(para.stType as int), [0x31, 0x30, 0x31, 0x31], pw, mn,
                                 [0x53, 0x79, 0x73, 0x74, 0x65, 0x6D, 0x54, 0x69, 0x6D, 0x65, 0x3D], clock)
  {
    hide Pad, ReplyText, ReplyBytes, Decimal2;
    match r {
      case Request(code) =>
        ReplyTextBytes(TEXT_91, TEXT_9011, a.qn, para.pw, para.mn, QN_RTN, [0x51, 0x6E, 0x52, 0x74, 0x6E, 0x3D],
                       Decimal(code));
        CodeDigit(code);
      case Execute(code) =>
        ReplyTextBytes(TEXT_91, TEXT_9012, a.qn, para.pw, para.mn, EXE_RTN, [0x45, 0x78, 0x65, 0x52, 0x74, 0x6E, 0x3D],
                       Decimal(code));
        CodeDigit(code);
      case Clock =>
        ReplyTextBytes(Decimal2(para.stType as int), Dec4(CN_GET_TIME), a.qn, para.pw, para.mn, SYSTEM_TIME,
                       [0x53, 0x79, 0x73, 0x74, 0x65, 0x6D, 0x54, 0x69, 0x6D, 0x65, 0x3D], clock);
        ClockDigitsPrinted();
    }
  }

  lemma CodeDigit(code: nat)
    requires 1 <= code <= 3
    ensures Decimal(code) == [if code == 1 then 0x31 else if code == 2 then 0x32 else 0x33]
  {
  }

  lemma ClockDigitsPrinted()
    ensures Dec4(1011) == [0x31, 0x30, 0x31, 0x31]
  {
    hide Digit, Dec4;
    ZeroAndOne();
    FourDigits(1011, 1, 0, 1, 1);
  }

  /** What a reply says, in numbers: which CN, and the code it carries. */
  function ReplyNumber(r: Reply): nat {
    match r case Request(_) => 9011 case Execute(_) => 9012 case Clock => 1011
  }

  /** "qnrtn", "exertn" and "systemtime". */
  function CodeName(r: Reply): bytes {
    match r
    case Request(_) => [0x71, 0x6E, 0x72, 0x74, 0x6E]
    case Execute(_) => [0x65, 0x78, 0x65, 0x72, 0x74, 0x6E]
    case Clock => [0x73, 0x79, 0x73, 0x74, 0x65, 0x6D, 0x74, 0x69, 0x6D, 0x65]
  }

  /** Unless PW or MN hold delimiters, the other side reads seven fields: the QN, the source type,
      which reply it is, the configured PW and MN, flag 4, and last the very code the terminal
      chose, under its name. */
  lemma CodesAreReadable(para: GeneralPara, a: Args, r: Reply, clock: ClockText, after: bytes)
    requires Known(r) && |a.qn| == QN_LEN && AllDigits(a.qn)
    requires IsValue(Pad(para.pw, 6)) && IsValue(Pad(para.mn, 24))
    ensures var ps := Pairs(FieldsOf(Text(para, a, r, clock), after));
            && |ps| == 7
            && ps[0] == Pair([0x71, 0x6E], a.qn)
            && ps[1].name == [0x73, 0x74] && Atoi(ps[1].value) == (if r.Clock? then para.stType as int else 91)
            && ps[2].name == [0x63, 0x6E] && Atoi(ps[2].value) == ReplyNumber(r)
            && ps[3] == Pair([0x70, 0x77], Pad(para.pw, 6))
            && ps[4] == Pair([0x6D, 0x6E], Pad(para.mn, 24))
            && ps[5] == Pair([0x66, 0x6C, 0x61, 0x67], [0x34])
            && ps[6].name == CodeName(r)
            && (r.Request? ==> Atoi(ps[6].value) == r.qnRtn)
            && (r.Execute? ==> Atoi(ps[6].value) == r.exeRtn)
            && (r.Clock? ==> ps[6].value == clock)
  {
    hide Pad, ReplyText, Decimal, Decimal2, Dec4, FieldsOf, Lowered, Atoi;
    DigitsAreValue(a.qn);
    PadExact(a.qn, QN_LEN);
    NamesFolded();
    NumbersPrinted();
    match r {
      case Request(code) =>
        DigitsAreValue(Decimal(code));
        CodeReadBack(code);
        ReplyReadBack(TEXT_91, TEXT_9011, a.qn, para.pw, para.mn, QN_RTN, Decimal(code), after);
      case Execute(code) =>
        DigitsAreValue(Decimal(code));
        CodeReadBack(code);
        ReplyReadBack(TEXT_91, TEXT_9012, a.qn, para.pw, para.mn, EXE_RTN, Decimal(code), after);
      case Clock =>
        ClockDigits(para, clock);
        AtoiDec4(CN_GET_TIME);
        StPrinted(para.stType);
        ReplyReadBack(Decimal2(para.stType as int), Dec4(CN_GET_TIME), a.qn, para.pw, para.mn, SYSTEM_TIME, clock,
                      after);
    }
  }

  lemma NamesFolded()
    ensures Lowered(QN) == [0x71, 0x6E] && Lowered(ST) == [0x73, 0x74] && Lowered(CN) == [0x63, 0x6E]
    ensures Lowered(PW) == [0x70, 0x77] && Lowered(MN) == [0x6D, 0x6E] && Lowered(FLAG) == [0x66, 0x6C, 0x61, 0x67]
    ensures Lowered(QN_RTN) == [0x71, 0x6E, 0x72, 0x74, 0x6E]
    ensures Lowered(EXE_RTN) == [0x65, 0x78, 0x65, 0x72, 0x74, 0x6E]
    ensures Lowered(SYSTEM_TIME) == [0x73, 0x79, 0x73, 0x74, 0x65, 0x6D, 0x74, 0x69, 0x6D, 0x65]
  {
    hide Lowered;
    FoldsTo(QN, [0x71, 0x6E]);
    FoldsTo(ST, [0x73, 0x74]);
    FoldsTo(CN, [0x63, 0x6E]);
    FoldsTo(PW, [0x70, 0x77]);
    FoldsTo(MN, [0x6D, 0x6E]);
    FoldsTo(FLAG, [0x66, 0x6C, 0x61, 0x67]);
    FoldsTo(QN_RTN, [0x71, 0x6E, 0x72, 0x74, 0x6E]);
    FoldsTo(EXE_RTN, [0x65, 0x78, 0x65, 0x72, 0x74, 0x6E]);
    FoldsTo(SYSTEM_TIME, [0x73, 0x79, 0x73, 0x74, 0x65, 0x6D, 0x74, 0x69, 0x6D, 0x65]);
  }

  lemma NumbersPrinted()
    ensures IsValue(TEXT_91) && IsValue(TEXT_9011) && IsValue(TEXT_9012)
    ensures Atoi(TEXT_91) == 91 && Atoi(TEXT_9011) == 9011 && Atoi(TEXT_9012) == 9012 && TEXT_4 == [0x34]
  {
    DecValueOf4(0x39, 0x30, 0x31, 0x31);
    DecValueOf4(0x39, 0x30, 0x31, 0x32);
    assert [0x39, 0x31 as byte][..1] == [0x39];
    assert DecValue([0x39]) == DecValue([]) * 10 + 9;
  }

  lemma CodeReadBack(code: nat)
    requires 1 <= code <= 3
    ensures Atoi(Decimal(code)) == code
  {
    DecimalReadBack(code);
  }

  lemma StPrinted(st: byte)
    ensures Atoi(Decimal2(st as int)) == st as int
  {
    Decimal2ReadBack(st as int);
  }

  lemma ClockDigits(para: GeneralPara, clock: ClockText)
    ensures IsValue(Decimal2(para.stType as int)) && IsValue(Dec4(CN_GET_TIME)) && IsValue(clock)
    ensures NoLineEnds(Decimal2(para.stType as int)) && NoLineEnds(Dec4(CN_GET_TIME)) && NoLineEnds(clock)
  {
    hide Decimal2, Dec4;
    DigitsAreValue(Decimal2(para.stType as int));
    DigitsAreValue(Dec4(CN_GET_TIME));
    DigitsAreValue(clock);
  }

  /** The message asks for a 9011. */
  function Asks(fs: seq<Field>): bool {
    LastValue(fs, Flag).Some? && Uint8(Atoi(LastValue(fs, Flag).value)) % 2 == 1
  }

  /** The commands with an empty branch, by number. */
  predicate IsSilent(cn: int) {
    cn == 1012 || 1061 <= cn <= 1064 || cn == 1072
    || cn == 2011 || cn == 2012 || cn == 2021 || cn == 2022 || cn == 2031 || cn == 2041 || cn == 2051 || cn == 2061
    || 3011 <= cn <= 3021 || cn == 3999
  }

  /** The replies to a command number, for a message that asks for a 9011 or not and names a
      factor or not: 9011 with 1 for ready, 2 for refused, 3 for an unknown command, 9012 with 1. */
  function RepliesFor(cn: int, asks: bool, named: bool): seq<Reply> {
    if cn == 1000 then (if asks then [Request(1)] else []) + [Execute(1)]
    else if !asks || IsSilent(cn) then []
    else if cn == 1011 then [Request(if named then 1 else 2), Clock, Execute(1)]
    else [Request(3)]
  }

  lemma SilentByNumber(cn: int)
    ensures cn in SILENT_COMMANDS <==> IsSilent(cn)
  {
  }

  /** The whole switch in numbers. Only a set command with a negative timing, which no message but
      only an uninitialised structure can give, fails: with 9012 and 3, and nothing stored. */
  lemma RespondInNumbers(para: GeneralPara, a: Args)
    ensures var o, asks := Respond(para, a), a.flag % 2 == 1;
            if a.cn == 1000 && (a.overTime < 0 || a.reCount < 0)
            then !o.ok && o.para == para && o.replies == (if asks then [Request(1)] else []) + [Execute(3)]
            else
              && o.ok
              && o.para == (if a.cn == 1000 then para.(overTime := a.overTime % 256, reCount := a.reCount % 256)
                            else para)
              && o.replies == RepliesFor(a.cn, asks, a.polId != [])
  {
    SilentByNumber(a.cn);
    hide IsSilent;
  }

  /** The gate in front of the switch, in numbers: what gets through and what becomes of the rest. */
  lemma GateExactly(e: Edition, para: GeneralPara, url_args: Args, s: bytes)
    ensures var o := Handle(e, para, url_args, s);
            if FrameVerdict(e, Terminator(e), s).Accept? && ApplyAll(e, para, url_args, FieldsIn(e, s)).Some?
            then var a := ApplyAll(e, para, url_args, FieldsIn(e, s)).value;
                 if |a.qn| == 17 && a.cn > 0 && a.mnFlag == 1 && a.st >= 0 then o == Respond(para, a)
                 else !o.ok && o.para == para && o.replies == []
            else !o.ok && o.para == para && o.replies == []
  {
    hide FrameVerdict, FieldsOf, ApplyAll, Respond;
  }

  /** What a message is answered depends on its last CN, Flag and PolId fields alone; in
      particular the condition error 9012/3 is never sent. */
  lemma RepliesFollowFields(para: GeneralPara, s: bytes)
    requires Handle(Repaired, para, ZEROED, s).ok || Handle(Repaired, para, ZEROED, s).replies != []
    ensures var fs := FieldsIn(Repaired, s);
            && LastValue(fs, Cn).Some?
            && Handle(Repaired, para, ZEROED, s).replies ==
               RepliesFor(Atoi(LastValue(fs, Cn).value), Asks(fs), LastValue(fs, PolId).Some?)
  {
    hide FieldsIn, ApplyAll, LastValue, Atoi, Uint8, Respond, RepliesFor, OthersOverwritten;
    var fs := FieldsIn(Repaired, s);
    ServedFromFields(Repaired, para, ZEROED, s);
    CnGiven(para, s);
    AllTaken(Repaired, para, ZEROED, fs);
    LastValueIsGiven(fs, PolId);
    ValuesNotEmpty(s);
    NumbersTaken(para, fs);
    RespondInNumbers(para, Handle(Repaired, para, ZEROED, s).args);
    SameReplies(para, s);
  }

  lemma SameReplies(para: GeneralPara, s: bytes)
    requires Handle(Repaired, para, ZEROED, s).ok || Handle(Repaired, para, ZEROED, s).replies != []
    ensures Handle(Repaired, para, ZEROED, s) == Respond(para, Handle(Repaired, para, ZEROED, s).args)
  {
    hide Parsed;
  }

  lemma CnGiven(para: GeneralPara, s: bytes)
    requires Handle(Repaired, para, ZEROED, s).ok || Handle(Repaired, para, ZEROED, s).replies != []
    ensures LastValue(FieldsIn(Repaired, s), Cn).Some?
  {
    hide FieldsOf, FrameVerdict, ApplyAll, LastValue, Atoi, Respond;
    ServedFromFields(Repaired, para, ZEROED, s);
  }

  lemma ValuesNotEmpty(s: bytes)
    ensures forall i :: 0 <= i < |FieldsIn(Repaired, s)| ==> FieldsIn(Repaired, s)[i].value != []
  {
    hide FieldsOf, FrameVerdict;
    match FrameVerdict(Repaired, CRLF, s) {
      case Accept(start, end) =>
        forall i | 0 <= i < |FieldsIn(Repaired, s)| ensures FieldsIn(Repaired, s)[i].value != [] {
          RestIsLonger(s[start..end], s[end..], i);
        }
      case _ =>
    }
  }

  lemma NumbersTaken(para: GeneralPara, fs: seq<Field>)
    requires forall i :: 0 <= i < |fs| ==> WellFormed(Repaired, para, fs[i])
    ensures NumberOr(LastValue(fs, OverTime), 0) >= 0 && NumberOr(LastValue(fs, ReCount), 0) >= 0
  {
    hide LastValue, Atoi, KeyOf;
    LastValueIsGiven(fs, OverTime);
    LastValueIsGiven(fs, ReCount);
    forall v: bytes ensures Atoi(v) >= -1 {
      AtoiRange(v);
    }
  }

  // ---- Requests end to end --------------------------------------------------------------

  /** Builder and acceptor together: behind any noise without a marker, the fields read are those
      of the data segment sent. */
  lemma PayloadSurvives(e: Edition, prefix: bytes, payload: bytes, tail: bytes)
    requires |payload| < 10000 && !Contains(payload, Terminator(e)) && !Contains(prefix + [0x23], HASHES)
    ensures var s := prefix + Packet(payload, Terminator(e)) + tail;
            && FrameVerdict(e, Terminator(e), s).Accept?
            && FieldsIn(e, s) == FieldsOf(payload, s[|prefix| + 6 + |payload|..])
  {
    hide FrameVerdict, FieldsOf, Contains, Packet, HexFree, Terminator;
    TerminatorFits(e);
    BuiltPacketAccepted(e, Terminator(e), prefix, payload, tail);
    PacketText(payload, Terminator(e));
    SliceInside(prefix, Packet(payload, Terminator(e)), tail, 6, 6 + |payload|);
  }

  lemma TerminatorFits(e: Edition)
    ensures HexFree(Terminator(e)) && |Terminator(e)| >= 2
  {
  }

  lemma SliceInside(a: bytes, b: bytes, c: bytes, i: nat, j: nat)
    requires i <= j <= |b|
    ensures (a + b + c)[|a| + i..|a| + j] == b[i..j]
  {
  }

  /** Printer, builder, acceptor and tokeniser together: any fields survive the line, their names
      folded, as long as the terminator searched for closes the packet. */
  lemma FieldsSurviveTheLine(e: Edition, prefix: bytes, ps: seq<Pair>, tail: bytes)
    requires forall i :: 0 <= i < |ps| ==> IsName(ps[i].name) && IsValue(ps[i].value)
    requires |PrintAll(ps)| < 10000 && !Contains(PrintAll(ps), Terminator(e)) && !Contains(prefix + [0x23], HASHES)
    ensures var s := prefix + Packet(PrintAll(ps), Terminator(e)) + tail;
            FrameVerdict(e, Terminator(e), s).Accept? && Pairs(FieldsIn(e, s)) == Folded(ps)
  {
    hide FrameVerdict, FieldsOf, FieldsIn, Contains, Packet, PrintAll;
    var s := prefix + Packet(PrintAll(ps), Terminator(e)) + tail;
    PayloadSurvives(e, prefix, PrintAll(ps), tail);
    FieldsRoundTrip(ps, s[|prefix| + 6 + |PrintAll(ps)|..]);
  }

  const TEXT_1000: bytes := [0x31, 0x30, 0x30, 0x30]

  /** The values a platform puts into a set command for a station. */
  datatype SetValues = SetValues(qn: bytes, st: bytes, pw: bytes, mn: bytes, flag: bytes, overTime: bytes,
                                 reCount: bytes)

  /** The data segment of the set command, byte for byte:
      QN=..;ST=..;CN=1000;PW=..;MN=..;Flag=..;CP=&&OverTime=..;ReCount=..&& */
  function SetCommand(v: SetValues): bytes {
    Part([0x51, 0x4E, 0x3D], v.qn, 0x3B) + (
    Part([0x53, 0x54, 0x3D], v.st, 0x3B) + (
    Part([0x43, 0x4E, 0x3D], [0x31, 0x30, 0x30, 0x30], 0x3B) + SetTail(v)))
  }

  /** From the password on. */
  function SetTail(v: SetValues): bytes {
    Part([0x50, 0x57, 0x3D], v.pw, 0x3B) + (
    Part([0x4D, 0x4E, 0x3D], v.mn, 0x3B) + (
    Part([0x46, 0x6C, 0x61, 0x67, 0x3D], v.flag, 0x3B) + (
    [0x43, 0x50, 0x3D, 0x26, 0x26] + (
    Part([0x4F, 0x76, 0x65, 0x72, 0x54, 0x69, 0x6D, 0x65, 0x3D], v.overTime, 0x3B) + (
    Part([0x52, 0x65, 0x43, 0x6F, 0x75, 0x6E, 0x74, 0x3D], v.reCount, 0x26) + [0x26])))))
  }

  lemma SetCommandPrinted(v: SetValues)
    ensures SetCommand(v) ==
            Print(WireName(Qn), v.qn, SEMICOLON) + (Print(WireName(St), v.st, SEMICOLON)
            + (Print(WireName(Cn), TEXT_1000, SEMICOLON) + SetTail(v)))
  {
    PartPrinted([0x51, 0x4E, 0x3D], WireName(Qn), v.qn, SEMICOLON);
    PartPrinted([0x53, 0x54, 0x3D], WireName(St), v.st, SEMICOLON);
    PartPrinted([0x43, 0x4E, 0x3D], WireName(Cn), TEXT_1000, SEMICOLON);
    hide Part, Print, SetTail, WireName;
  }

  lemma SetTailPrinted(v: SetValues)
    ensures SetTail(v) ==
            Print(WireName(Pw), v.pw, SEMICOLON) + (Print(WireName(Mn), v.mn, SEMICOLON)
            + (Print(WireName(Flag), v.flag, SEMICOLON) + (CP_OPEN + (Print(WireName(OverTime), v.overTime, SEMICOLON)
            + (Print(WireName(ReCount), v.reCount, AMPERSAND) + [AMPERSAND])))))
  {
    PartPrinted([0x50, 0x57, 0x3D], WireName(Pw), v.pw, SEMICOLON);
    PartPrinted([0x4D, 0x4E, 0x3D], WireName(Mn), v.mn, SEMICOLON);
    PartPrinted([0x46, 0x6C, 0x61, 0x67, 0x3D], WireName(Flag), v.flag, SEMICOLON);
    PartPrinted([0x4F, 0x76, 0x65, 0x72, 0x54, 0x69, 0x6D, 0x65, 0x3D], WireName(OverTime), v.overTime, SEMICOLON);
    PartPrinted([0x52, 0x65, 0x43, 0x6F, 0x75, 0x6E, 0x74, 0x3D], WireName(ReCount), v.reCount, AMPERSAND);
    hide Part, Print, WireName;
  }

  predicate AllValues(v: SetValues) {
    && IsValue(v.qn) && IsValue(v.st) && IsValue(v.pw) && IsValue(v.mn) && IsValue(v.flag)
    && IsValue(v.overTime) && IsValue(v.reCount)
  }

  /** The eight fields a set command is read as. */
  lemma SetCommandRead(v: SetValues, after: bytes)
    requires AllValues(v)
    ensures Pairs(FieldsOf(SetCommand(v), after)) ==
            [Read(WireName(Qn), v.qn), Read(WireName(St), v.st), Read(WireName(Cn), TEXT_1000),
             Read(WireName(Pw), v.pw),
             Read(WireName(Mn), v.mn), Read(WireName(Flag), v.flag), Read(WireName(OverTime), v.overTime),
             Read(WireName(ReCount), v.reCount)]
  {
    hide FieldsOf, Lowered, WireName, SetCommand, IsValue, IsName, Print, SetTail;
    SetCommandPrinted(v);
    forall k: Key | !k.Other? ensures IsName(WireName(k)) {
      WireNameFolds(k);
    }
    DigitsAreValue(TEXT_1000);
    SetTailRead(v, after);
    ReadOne(WireName(Cn), TEXT_1000, SEMICOLON, SetTail(v), after);
    var s2 := Print(WireName(Cn), TEXT_1000, SEMICOLON) + SetTail(v);
    ReadOne(WireName(St), v.st, SEMICOLON, s2, after);
    ReadOne(WireName(Qn), v.qn, SEMICOLON, Print(WireName(St), v.st, SEMICOLON) + s2, after);
  }

  lemma SetTailRead(v: SetValues, after: bytes)
    requires AllValues(v) && forall k: Key :: !k.Other? ==> IsName(WireName(k))
    ensures Pairs(FieldsOf(SetTail(v), after)) ==
            [Read(WireName(Pw), v.pw), Read(WireName(Mn), v.mn), Read(WireName(Flag), v.flag),
             Read(WireName(OverTime), v.overTime), Read(WireName(ReCount), v.reCount)]
  {
    hide FieldsOf, Lowered, WireName, IsValue, IsName, Print, SetTail, Read;
    SetTailPrinted(v);
    var s7 := Print(WireName(ReCount), v.reCount, AMPERSAND) + [AMPERSAND];
    var s6 := Print(WireName(OverTime), v.overTime, SEMICOLON) + s7;
    var s4 := Print(WireName(Flag), v.flag, SEMICOLON) + (CP_OPEN + s6);
    EmptySegment([AMPERSAND], after);
    assert [AMPERSAND][1..] == [];
    OpenTail([], after);
    ReadOne(WireName(ReCount), v.reCount, AMPERSAND, [AMPERSAND], after);
    ReadOne(WireName(OverTime), v.overTime, SEMICOLON, s7, after);
    EmptyCp(s6, after);
    ReadOne(WireName(Flag), v.flag, SEMICOLON, CP_OPEN + s6, after);
    ReadOne(WireName(Mn), v.mn, SEMICOLON, s4, after);
    ReadOne(WireName(Pw), v.pw, SEMICOLON, Print(WireName(Mn), v.mn, SEMICOLON) + s4, after);
  }

  lemma LastOfUnique(fs: seq<Field>, i: nat, key: Key)
    requires i < |fs| && KeyOf(fs[i].name) == key && forall j :: 0 <= j < |fs| && j != i ==> KeyOf(fs[j].name) != key
    ensures LastValue(fs, key) == Some(fs[i].value)
  {
    LastValueIsGiven(fs, key);
  }

  lemma Cn1000()
    ensures Atoi(TEXT_1000) == 1000
  {
    DecValueOf4(0x31, 0x30, 0x30, 0x30);
  }

  /** The values this terminal takes. */
  predicate Fitting(para: GeneralPara, v: SetValues) {
    && AllValues(v)
    && |v.qn| == 17 && AllDigits(v.qn)
    && Atoi(v.st) == para.stType as int
    && |v.pw| == 6
    && |v.mn| == 24 && v.mn == para.mn
    && 1 <= |v.overTime| <= 5 && Atoi(v.overTime) >= 0
    && 1 <= |v.reCount| <= 2 && Atoi(v.reCount) >= 0
  }

  /** The repaired terminal serves a set command it is sent, as platforms spell it: it stores both
      timings and answers 9011 with 1 when asked to and then 9012 with 1. */
  lemma SetCommandServed(para: GeneralPara, prefix: bytes, v: SetValues, tail: bytes)
    requires Fitting(para, v) && |SetCommand(v)| < 10000
    requires !Contains(SetCommand(v), CRLF) && !Contains(prefix + [0x23], HASHES)
    ensures var o := Handle(Repaired, para, ZEROED, prefix + Packet(SetCommand(v), CRLF) + tail);
            && o.ok
            && o.para == para.(overTime := Atoi(v.overTime) % 256, reCount := Atoi(v.reCount) % 256)
            && o.replies == (if Atoi(v.flag) % 256 % 2 == 1 then [Request(1)] else []) + [Execute(1)]
            && o.args.qn == v.qn
  {
    hide FrameVerdict, FieldsOf, FieldsIn, ApplyAll, SetCommand, Packet, Contains, Handle, Atoi;
    var s := prefix + Packet(SetCommand(v), CRLF) + tail;
    PayloadSurvives(Repaired, prefix, SetCommand(v), tail);
    SetCommandRead(v, s[|prefix| + 6 + |SetCommand(v)|..]);
    ServedFields(para, v, FieldsIn(Repaired, s));
    Served(Repaired, para, ZEROED, s);
  }

  /** An accepted packet with admissible arguments reaches the switch. */
  lemma Served(e: Edition, para: GeneralPara, url_args: Args, s: bytes)
    requires FrameVerdict(e, Terminator(e), s).Accept?
    requires ApplyAll(e, para, url_args, FieldsIn(e, s)).Some?
    requires var a := ApplyAll(e, para, url_args, FieldsIn(e, s)).value; Admitted(a) && a.cn != 0
    ensures Handle(e, para, url_args, s) == Respond(para, ApplyAll(e, para, url_args, FieldsIn(e, s)).value)
  {
    hide FrameVerdict, FieldsOf, ApplyAll, Respond;
  }

  /** What the field table makes of a set command's fields. */
  lemma ServedFields(para: GeneralPara, v: SetValues, fs: seq<Field>)
    requires Fitting(para, v)
    requires Pairs(fs) ==
             [Read(WireName(Qn), v.qn), Read(WireName(St), v.st), Read(WireName(Cn), TEXT_1000),
              Read(WireName(Pw), v.pw),
              Read(WireName(Mn), v.mn), Read(WireName(Flag), v.flag), Read(WireName(OverTime), v.overTime),
              Read(WireName(ReCount), v.reCount)]
    ensures ApplyAll(Repaired, para, ZEROED, fs).Some?
    ensures var a := ApplyAll(Repaired, para, ZEROED, fs).value;
            a.qn == v.qn && a.cn == 1000 && a.mnFlag == 1 && a.st == para.stType as int && a.flag == Uint8(Atoi(v.flag))
            && a.overTime == Atoi(v.overTime) && a.reCount == Atoi(v.reCount)
  {
    hide ApplyAll, Atoi, LastValue, KeyOf, Overwritten, WellFormed, Lowered, WireName;
    Cn1000();
    EightRead(v, fs);
    EightTaken(para, fs);
    ArgsAreLastValues(Repaired, para, ZEROED, fs);
    EightValues(fs);
    Stored(ZEROED, ApplyAll(Repaired, para, ZEROED, fs).value, fs);
  }

  /** The keys of a set command, in order. */
  ghost predicate EightKeys(fs: seq<Field>) {
    && |fs| == 8
    && KeyOf(fs[0].name) == Qn && KeyOf(fs[1].name) == St && KeyOf(fs[2].name) == Cn && KeyOf(fs[3].name) == Pw
    && KeyOf(fs[4].name) == Mn && KeyOf(fs[5].name) == Flag && KeyOf(fs[6].name) == OverTime
    && KeyOf(fs[7].name) == ReCount
  }

  lemma KnownOnTheWire(k: Key)
    requires !k.Other?
    ensures KeyOf(Lowered(WireName(k))) == k
  {
    hide Lowered, KeyOf, WireName;
    SameAsItself(WireName(k));
    RecognisedExactly(WireName(k), k);
  }

  lemma SameAsItself(s: bytes)
    ensures SameButCase(s, s)
  {
  }

  lemma EightRead(v: SetValues, fs: seq<Field>)
    requires Pairs(fs) ==
             [Read(WireName(Qn), v.qn), Read(WireName(St), v.st), Read(WireName(Cn), TEXT_1000),
              Read(WireName(Pw), v.pw),
              Read(WireName(Mn), v.mn), Read(WireName(Flag), v.flag), Read(WireName(OverTime), v.overTime),
              Read(WireName(ReCount), v.reCount)]
    ensures EightKeys(fs)
    ensures fs[0].value == v.qn && fs[1].value == v.st && fs[2].value == TEXT_1000 && fs[3].value == v.pw
    ensures fs[4].value == v.mn && fs[5].value == v.flag && fs[6].value == v.overTime && fs[7].value == v.reCount
  {
    hide KeyOf, Lowered, WireName;
    assert forall i :: 0 <= i < |fs| ==> Pairs(fs)[i] == Pair(fs[i].name, fs[i].value);
    KnownOnTheWire(Qn);
    KnownOnTheWire(St);
    KnownOnTheWire(Cn);
    KnownOnTheWire(Pw);
    KnownOnTheWire(Mn);
    KnownOnTheWire(Flag);
    KnownOnTheWire(OverTime);
    KnownOnTheWire(ReCount);
  }

  lemma EightTaken(para: GeneralPara, fs: seq<Field>)
    requires EightKeys(fs) && |fs[0].value| == QN_LEN && AllDigits(fs[0].value)
    requires Atoi(fs[1].value) == para.stType as int && Atoi(fs[2].value) != NGX_ERROR && |fs[3].value| == 6
    requires |para.mn| == 24 && fs[4].value == para.mn && fs[5].value != []
    requires ShortNumber(fs[6].value, 5) && ShortNumber(fs[7].value, 2)
    ensures ApplyAll(Repaired, para, ZEROED, fs).Some?
  {
    hide ApplyAll, Atoi, KeyOf, ShortNumber;
    AllTaken(Repaired, para, ZEROED, fs);
  }

  lemma EightValues(fs: seq<Field>)
    requires EightKeys(fs)
    ensures LastValue(fs, Qn) == Some(fs[0].value) && LastValue(fs, St) == Some(fs[1].value)
    ensures LastValue(fs, Cn) == Some(fs[2].value) && LastValue(fs, Mn) == Some(fs[4].value)
    ensures LastValue(fs, Flag) == Some(fs[5].value)
    ensures LastValue(fs, OverTime) == Some(fs[6].value) && LastValue(fs, ReCount) == Some(fs[7].value)
  {
    hide LastValue, KeyOf;
    LastOfUnique(fs, 0, Qn);
    LastOfUnique(fs, 1, St);
    LastOfUnique(fs, 2, Cn);
    LastOfUnique(fs, 4, Mn);
    LastOfUnique(fs, 5, Flag);
    LastOfUnique(fs, 6, OverTime);
    LastOfUnique(fs, 7, ReCount);
  }

  lemma Stored(a: Args, b: Args, fs: seq<Field>)
    requires EightKeys(fs) && Overwritten(a, b, fs)
    requires LastValue(fs, Qn) == Some(fs[0].value) && LastValue(fs, St) == Some(fs[1].value)
    requires LastValue(fs, Cn) == Some(fs[2].value) && LastValue(fs, Mn) == Some(fs[4].value)
    requires LastValue(fs, Flag) == Some(fs[5].value)
    requires LastValue(fs, OverTime) == Some(fs[6].value) && LastValue(fs, ReCount) == Some(fs[7].value)
    ensures b.qn == fs[0].value && b.st == Atoi(fs[1].value) && b.cn == Atoi(fs[2].value) && b.mnFlag == 1
    ensures b.flag == Uint8(Atoi(fs[5].value)) && b.overTime == Atoi(fs[6].value) && b.reCount == Atoi(fs[7].value)
  {
    hide LastValue, KeyOf, Atoi, OthersOverwritten;
  }

  // ---- The program as written -----------------------------------------------------------

  /** MN as a C string in its 25-byte array. */
  predicate IsCString(mn: bytes) {
    |mn| <= MN_LEN - 1
  }

  lemma {:induction false} RestIsLonger(s: bytes, after: bytes, i: nat)
    requires i < |FieldsOf(s, after)|
    ensures |FieldsOf(s, after)[i].rest| > |FieldsOf(s, after)[i].value| > 0
    decreases |s|
  {
    hide Lowered;
    var k := SegmentEnd(s);
    var first := FieldOf(s[..k], s[k..] + after);
    if i >= |first| {
      RestIsLonger(s[k + 1..], after, i - |first|);
    }
  }

  /** As written no message that names a station, or a flag or packet number, is accepted. */
  lemma AsWrittenRefusesStations(para: GeneralPara, url_args: Args, s: bytes, after: bytes, i: nat)
    requires IsCString(para.mn) && i < |FieldsOf(s, after)|
    requires KeyOf(FieldsOf(s, after)[i].name) in {Mn, Flag, Pnum, Pn0}
    ensures ApplyAll(AsWritten, para, url_args, FieldsOf(s, after)).None?
  {
    hide FieldsOf, ApplyAll;
    AllTaken(AsWritten, para, url_args, FieldsOf(s, after));
    RestIsLonger(s, after, i);
  }

  /** Hence as written no message is ever recognised: whatever gets past the gate does so on the
      station flag and the QN that happened to lie in the uninitialised structure. */
  lemma AsWrittenServesNoStation(para: GeneralPara, uninit: Args, s: bytes)
    requires IsCString(para.mn)
    ensures var o := Handle(AsWritten, para, uninit, s);
            o.ok || o.replies != [] ==>
              && o.args.qn == uninit.qn && |uninit.qn| == QN_LEN
              && o.args.mnFlag == uninit.mnFlag == 1
              && o.args.flag == uninit.flag
  {
    hide ApplyAll, FieldsOf, FrameVerdict, LastValue, Respond;
    var o, fs := Handle(AsWritten, para, uninit, s), FieldsIn(AsWritten, s);
    if o.ok || o.replies != [] {
      ServedFromFields(AsWritten, para, uninit, s);
      AllTaken(AsWritten, para, uninit, fs);
      NoStationField(para, uninit, s);
      LastValueIsGiven(fs, Mn);
      LastValueIsGiven(fs, Flag);
      LastValueIsGiven(fs, Qn);
    }
  }

  lemma NoStationField(para: GeneralPara, uninit: Args, s: bytes)
    requires IsCString(para.mn) && FrameVerdict(AsWritten, Terminator(AsWritten), s).Accept?
    requires ApplyAll(AsWritten, para, uninit, FieldsIn(AsWritten, s)).Some?
    ensures forall i :: 0 <= i < |FieldsIn(AsWritten, s)| ==>
              KeyOf(FieldsIn(AsWritten, s)[i].name) !in {Mn, Flag}
  {
    hide ApplyAll, FieldsOf, FrameVerdict;
    var v := FrameVerdict(AsWritten, Terminator(AsWritten), s);
    forall i | 0 <= i < |FieldsIn(AsWritten, s)| && KeyOf(FieldsIn(AsWritten, s)[i].name) in {Mn, Flag} ensures false {
      AsWrittenRefusesStations(para, uninit, s[v.start..v.end], s[v.end..], i);
    }
  }

  const TEXT_1012: bytes := [0x31, 0x30, 0x31, 0x32]

  /** A message that gives this source type and a command with an empty branch. */
  function SilentCommand(para: GeneralPara): seq<Pair> {
    [Pair(WireName(St), Decimal(para.stType as int)), Pair(WireName(Cn), TEXT_1012)]
  }

  lemma StReadBack(st: byte)
    ensures Atoi(Decimal(st as int)) == st as int && |Decimal(st as int)| <= 3
  {
    DecimalReadBack(st as int);
    DecimalShort(st as int);
  }

  lemma Cn1012()
    ensures Atoi(TEXT_1012) == 1012
  {
    DecValueOf4(0x31, 0x30, 0x31, 0x32);
  }

  lemma SilentCommandPrints(para: GeneralPara)
    ensures var ps := SilentCommand(para);
            && (forall i :: 0 <= i < |ps| ==> IsName(ps[i].name) && IsValue(ps[i].value))
            && |PrintAll(ps)| < 10000 && !Contains(PrintAll(ps), SLASH_R_SLASH_N)
  {
    hide Decimal, Contains;
    var ps, text := SilentCommand(para), Decimal(para.stType as int);
    DigitsAreValue(text);
    DigitsAreValue(TEXT_1012);
    StReadBack(para.stType);
    var p := PrintAll(ps);
    var rest := [Pair(WireName(Cn), TEXT_1012)];
    assert ps[1..] == rest && rest[1..] == [];
    assert PrintAll(rest) == Print(WireName(Cn), TEXT_1012, SEMICOLON) + PrintAll([]);
    assert p == Print(WireName(St), text, SEMICOLON) + (Print(WireName(Cn), TEXT_1012, SEMICOLON) + []);
    NoSlash(p);
  }

  lemma NoSlash(p: bytes)
    requires 0x2F !in p
    ensures !Contains(p, SLASH_R_SLASH_N)
  {
    forall i ensures !MatchesAt(p, SLASH_R_SLASH_N, i) {
      assert 0 <= i <= |p| - 4 ==> p[i..i + 4][0] == p[i];
    }
  }

  lemma SilentCommandTaken(para: GeneralPara, uninit: Args, fs: seq<Field>)
    requires Pairs(fs) == Folded(SilentCommand(para))
    ensures ApplyAll(AsWritten, para, uninit, fs).Some?
    ensures var a := ApplyAll(AsWritten, para, uninit, fs).value;
            a.qn == uninit.qn && a.mnFlag == uninit.mnFlag && a.st == para.stType as int && a.cn == 1012
  {
    hide ApplyAll, Atoi, LastValue, KeyOf, Decimal, WellFormed, OthersOverwritten;
    SilentFields(para, fs);
    StReadBack(para.stType);
    Cn1012();
    AllTaken(AsWritten, para, uninit, fs);
    SilentWellFormed(para, fs);
    ArgsAreLastValues(AsWritten, para, uninit, fs);
    LastOfUnique(fs, 0, St);
    LastOfUnique(fs, 1, Cn);
    LastValueIsGiven(fs, Qn);
    LastValueIsGiven(fs, Mn);
  }

  lemma SilentFields(para: GeneralPara, fs: seq<Field>)
    requires Pairs(fs) == Folded(SilentCommand(para))
    ensures |fs| == 2 && KeyOf(fs[0].name) == St && KeyOf(fs[1].name) == Cn
    ensures fs[0].value == Decimal(para.stType as int) && fs[1].value == TEXT_1012
  {
    hide KeyOf, Decimal, Lowered, WireName;
    assert forall i :: 0 <= i < |fs| ==> Pairs(fs)[i] == Pair(fs[i].name, fs[i].value);
    KnownOnTheWire(St);
    KnownOnTheWire(Cn);
  }

  lemma SilentWellFormed(para: GeneralPara, fs: seq<Field>)
    requires |fs| == 2 && KeyOf(fs[0].name) == St && KeyOf(fs[1].name) == Cn
    requires fs[0].value == Decimal(para.stType as int) && fs[1].value == TEXT_1012
    ensures WellFormed(AsWritten, para, fs[0]) && WellFormed(AsWritten, para, fs[1])
  {
    hide KeyOf, Decimal, Atoi;
    StReadBack(para.stType);
    Cn1012();
  }

  /** As written some message gets past the gate exactly when the uninitialised structure happens
      to hold a QN of the right length and a set station flag. */
  lemma AsWrittenServesExactly(para: GeneralPara, uninit: Args)
    requires IsCString(para.mn)
    ensures (exists s :: Handle(AsWritten, para, uninit, s).ok || Handle(AsWritten, para, uninit, s).replies != []) <==>
              |uninit.qn| == QN_LEN && uninit.mnFlag == 1
  {
    hide FrameVerdict, FieldsIn, ApplyAll, PrintAll, Packet, Contains, Handle, SilentCommand;
    if |uninit.qn| == QN_LEN && uninit.mnFlag == 1 {
      var ps := SilentCommand(para);
      SilentCommandPrints(para);
      var s := [] + Packet(PrintAll(ps), SLASH_R_SLASH_N) + [];
      SingleHash();
      FieldsSurviveTheLine(AsWritten, [], ps, []);
      SilentCommandTaken(para, uninit, FieldsIn(AsWritten, s));
      Served(AsWritten, para, uninit, s);
      assert Handle(AsWritten, para, uninit, s).ok;
    }
    forall s | Handle(AsWritten, para, uninit, s).ok || Handle(AsWritten, para, uninit, s).replies != []
      ensures |uninit.qn| == QN_LEN && uninit.mnFlag == 1
    {
      AsWrittenServesNoStation(para, uninit, s);
    }
  }

  /** As written no 9012 and no clock reply is ever accepted by anyone. */
  lemma AsWrittenAnswersUnreadable(e: Edition, para: GeneralPara, a: Args, r: Reply, clock: ClockText)
    requires Known(r) && !r.Request?
    ensures !FrameVerdict(e, Terminator(e), Wire(AsWritten, para, a, r, clock)).Accept?
  {
    hide Text, FrameVerdict, Dec4;
    TextBounds(para, a, r, clock);
    CutPacketRefused(e, Terminator(e), Text(para, a, r, clock));
  }
}
