/** messageProc as a function: which replies a message earns and what it does to the parameters. */
module Dispatch {
  import opened Bytes
  import opened Editions
  import opened NgxParse
  import opened Frame
  import opened FieldTable
  import opened Scanner
  import opened Replies

  const RESULT_SUCCESS := 1
  const RESULT_FAILED := 2
  const RESULT_CONDITION_ERR := 3
  const REQUEST_READY := 1
  const REQUEST_REFUSED := 2
  const REQUEST_CODE_ERR := 3

  const CN_SET_OVERTIME_RECOUNT := 1000
  const CN_GET_TIME := 1011

  /** The command numbers with an empty branch of their own. */
  const SILENT_COMMANDS: set<int> := {1012, 1061, 1062, 1063, 1064, 1072,
                                      2011, 2012, 2021, 2022, 2031, 2041, 2051, 2061,
                                      3011, 3012, 3013, 3014, 3015, 3016, 3017, 3018, 3019, 3020, 3021, 3999}

  /** 9011, the clock reply and 9012. */
  datatype Reply = Request(qnRtn: nat) | Clock | Execute(exeRtn: nat)

  datatype Outcome = Outcome(ok: bool, para: GeneralPara, replies: seq<Reply>, args: Args)

  /** What a clock reading prints as; the clock itself is not part of this model. */
  type ClockText = t: bytes | |t| == 14 && AllDigits(t) witness Spaces14()

  function Spaces14(): (r: bytes)
    ensures |r| == 14 && AllDigits(r)
  {
    seq(14, _ => 0x30)
  }

  predicate WantsReply(a: Args) {
    a.flag % 2 == 1
  }

  /** The gate in front of the switch. */
  predicate Admitted(a: Args) {
    |a.qn| == QN_LEN && a.cn >= 0 && a.mnFlag == 1 && a.st >= 0
  }

  /** The numbers the three builders are called with. */
  predicate Known(r: Reply) {
    match r
    case Request(code) => 1 <= code <= 3
    case Execute(code) => 1 <= code <= 3
    case Clock => true
  }

  predicate AllKnown(rs: seq<Reply>) {
    forall i :: 0 <= i < |rs| ==> Known(rs[i])
  }

  /** The switch on the command number. */
  function Respond(para: GeneralPara, a: Args): (o: Outcome)
    ensures AllKnown(o.replies) && o.args == a
  {
    if a.cn == CN_SET_OVERTIME_RECOUNT then
      var first := if WantsReply(a) then [Request(REQUEST_READY)] else [];
      if a.overTime < 0 || a.reCount < 0
      then Outcome(false, para, first + [Execute(RESULT_CONDITION_ERR)], a)
      else Outcome(true, para.(overTime := Uint8(a.overTime), reCount := Uint8(a.reCount)),
                   first + [Execute(RESULT_SUCCESS)], a)
    else if a.cn == CN_GET_TIME then
      if !WantsReply(a) then Outcome(true, para, [], a)
      else Outcome(true, para,
                   [Request(if |a.polId| > 0 then REQUEST_READY else REQUEST_REFUSED), Clock,
                    Execute(RESULT_SUCCESS)], a)
    else if a.cn in SILENT_COMMANDS || !WantsReply(a) then Outcome(true, para, [], a)
    else Outcome(true, para, [Request(REQUEST_CODE_ERR)], a)
  }

  /** messageProc. `url_args` is what the structure holds before parsing. */
  function Handle(e: Edition, para: GeneralPara, url_args: Args, s: bytes): (o: Outcome)
    ensures AllKnown(o.replies)
  {
    match Parsed(e, para, url_args, s)
    case None => Outcome(false, para, [], url_args)
    case Some(a) => if Admitted(a) then Respond(para, a) else Outcome(false, para, [], url_args)
  }

  /** The data segment of a reply. */
  function Text(para: GeneralPara, a: Args, r: Reply, clock: ClockText): bytes {
    match r
    case Request(code) => ReplyText(TEXT_91, TEXT_9011, a.qn, para.pw, para.mn, QN_RTN, Decimal(code))
    case Execute(code) => ReplyText(TEXT_91, TEXT_9012, a.qn, para.pw, para.mn, EXE_RTN, Decimal(code))
    case Clock => ReplyText(Decimal2(para.stType as int), Dec4(CN_GET_TIME), a.qn, para.pw, para.mn, SYSTEM_TIME, clock)
  }

  lemma {:induction false} DecimalShort(n: nat)
    requires n < 1000
    ensures |Decimal(n)| <= 3
  {
    if n >= 10 {
      assert n / 10 < 100;
      if n / 10 >= 10 {
        assert |Decimal(n / 10 / 10)| == 1;
      }
    }
  }

  lemma StTextShort(st: byte)
    ensures |Decimal2(st as int)| <= 4
  {
    DecimalShort(st as int);
    DecimalShort(st as int / 10);
  }

  lemma TextBounds(para: GeneralPara, a: Args, r: Reply, clock: ClockText)
    requires Known(r)
    ensures 90 <= |Text(para, a, r, clock)| <= 140 && NulFree(Text(para, a, r, clock))
  {
    hide Pad, ReplyText, Decimal, Decimal2, Dec4;
    match r {
      case Request(code) =>
        DecimalShort(code);
        ReplyTextBounds(TEXT_91, TEXT_9011, a.qn, para.pw, para.mn, QN_RTN, Decimal(code));
      case Execute(code) =>
        DecimalShort(code);
        ReplyTextBounds(TEXT_91, TEXT_9012, a.qn, para.pw, para.mn, EXE_RTN, Decimal(code));
      case Clock =>
        StTextShort(para.stType);
        ReplyTextBounds(Decimal2(para.stType as int), Dec4(CN_GET_TIME), a.qn, para.pw, para.mn, SYSTEM_TIME, clock);
    }
  }

  /** What goes out on the line: as written, 9012 and the clock reply end at the NUL in front of
      their misplaced checksum. */
  function Wire(e: Edition, para: GeneralPara, a: Args, r: Reply, clock: ClockText): (w: bytes)
    requires Known(r)
    ensures |w| == |Text(para, a, r, clock)| + if e.AsWritten? && !r.Request? then 6 else 12
  {
    TextBounds(para, a, r, clock);
    var text := Text(para, a, r, clock);
    if e.AsWritten? && !r.Request? then HASHES + Dec4(|text|) + text else Packet(text, CRLF)
  }

  function Wires(e: Edition, para: GeneralPara, a: Args, rs: seq<Reply>, clock: ClockText): seq<bytes>
    requires AllKnown(rs)
  {
    if rs == [] then [] else [Wire(e, para, a, rs[0], clock)] + Wires(e, para, a, rs[1..], clock)
  }
}
