/** The terminal's side of the protocol as it runs: send buffers, the parameter block and the
    packets that go out. */
module Terminal {
  import opened Bytes
  import opened Editions
  import opened NgxParse
  import opened Crc
  import opened Frame
  import opened FieldTable
  import opened Scanner
  import opened Replies
  import opened Dispatch

  const MAX_TCPDATA_LEN := 1037
  const MIN_TCPDATA_LEN := 80
  const EMPTY_HEADER: bytes := [0x23, 0x23, 0x30, 0x30, 0x30, 0x30]

  /** `snprintf(&buf[at], size, ...)` of a finished text: what fits and a NUL. */
  method Snprintf(buf: array<byte>, at: nat, size: nat, text: bytes) returns (n: nat)
    requires 0 < size && at + (if |text| < size then |text| + 1 else size) <= buf.Length
    modifies buf
    ensures n == |text|
    ensures var m := if |text| < size then |text| else size - 1;
            buf[..] == old(buf[..at]) + text[..m] + [0] + old(buf[at + m + 1..])
  {
    var m := if |text| < size then |text| else size - 1;
    forall i | 0 <= i < m {
      buf[at + i] := text[i];
    }
    buf[at + m] := 0;
    n := |text|;
  }

  /** `buf` as the first snprintf of a builder leaves it. */
  ghost predicate Printed(b: bytes, text: bytes) {
    && |b| == MAX_TCPDATA_LEN && |text| + 7 <= |b| && b[..|text| + 7] == EMPTY_HEADER + text + [0]
  }

  /** Fills in the four length digits. */
  method NumberPacket(buf: array<byte>, nLen: nat)
    requires buf.Length >= 6 && nLen < 10000
    modifies buf
    ensures buf[..] == old(buf[..2]) + Dec4(nLen) + old(buf[6..])
  {
    buf[2] := Digit(nLen / 1000);
    buf[3] := Digit(nLen % 1000 / 100);
    buf[4] := Digit(nLen % 100 / 10);
    buf[5] := Digit(nLen % 10);
  }

  lemma HeaderReplaced(b: bytes, c: bytes, text: bytes, digits: bytes)
    requires |digits| == 4 && |text| + 7 <= |b|
    requires b[..|text| + 7] == EMPTY_HEADER + text + [0] && c == b[..2] + digits + b[6..]
    ensures |c| == |b| && c[..|text| + 7] == HASHES + digits + text + [0]
  {
    var printed := EMPTY_HEADER + text + [0];
    assert b[..2] == printed[..2] && b[6..|text| + 7] == printed[6..];
    assert c[..|text| + 7] == b[..2] + digits + b[6..|text| + 7];
  }

  /** The order of RequestRespond: subtract the header, number, checksum, print the trailer. */
  method SealLate(buf: array<byte>, text: bytes, printed: nat)
    requires Printed(buf[..], text) && NulFree(text) && printed == |text| + 6 < MAX_TCPDATA_LEN - 6
    modifies buf
    ensures UpToNul(buf[..]) == Packet(text, CRLF)
  {
    hide UpToNul, Hex4, Dec4, Gb212;
    var nLen := printed - 6;
    ghost var b := buf[..];
    NumberPacket(buf, nLen);
    HeaderReplaced(b, buf[..], text, Dec4(nLen));
    Trimmed(buf[..], HASHES + Dec4(nLen), text);
    var crc16 := CRC16Gb212(buf[6..6 + nLen]);
    var n := Snprintf(buf, nLen + 6, 7, Hex4(crc16) + CRLF);
    ghost var whole := HASHES + Dec4(nLen) + text + Hex4(crc16) + CRLF;
    PacketNulFree(text, crc16);
    CutAtNul(whole, buf[|whole| + 1..]);
    assert buf[..] == whole + [0] + buf[|whole| + 1..];
  }

  lemma Trimmed(b: bytes, head: bytes, text: bytes)
    requires |head| == 6 && |text| + 7 <= |b| && b[..|text| + 7] == head + text + [0]
    ensures b[..|text| + 6] == head + text && b[6..6 + |text|] == text
  {
    var printed := head + text + [0];
    assert b[..|text| + 6] == printed[..|text| + 6];
    assert b[6..6 + |text|] == printed[6..6 + |text|];
  }

  /** The order of ExecuteRespond and SendCurrentTime as written. `fits` says whether the trailer
      still lies within the buffer; when it does not, the program's behaviour is undefined. */
  method SealEarly(buf: array<byte>, text: bytes, printed: nat) returns (fits: bool)
    requires Printed(buf[..], text) && NulFree(text) && printed == |text| + 6 < MAX_TCPDATA_LEN - 6
    modifies buf
    ensures fits <==> |text| <= 1018
    ensures fits ==> UpToNul(buf[..]) == HASHES + Dec4(|text|) + text
  {
    hide UpToNul, Hex4, Dec4, Gb212;
    var nLen := printed;
    ghost var b := buf[..];
    var crc16 := CRC16Gb212(buf[6..6 + nLen]);
    if nLen + 6 + 7 > MAX_TCPDATA_LEN {
      return false;
    }
    var n := Snprintf(buf, nLen + 6, 7, Hex4(crc16) + CRLF);
    assert buf[..|text| + 7] == b[..|text| + 7];
    b := buf[..];
    nLen := nLen - 6;
    NumberPacket(buf, nLen);
    HeaderReplaced(b, buf[..], text, Dec4(nLen));
    ghost var whole := HASHES + Dec4(nLen) + text;
    DigitsNulFree(nLen);
    CutAtNul(whole, buf[|whole| + 1..]);
    assert buf[..] == whole + [0] + buf[|whole| + 1..];
    return true;
  }

  lemma DigitsNulFree(n: nat)
    requires n < 10000
    ensures NulFree(Dec4(n))
  {
    assert AllDigits(Dec4(n));
  }

  lemma PacketNulFree(text: bytes, crc16: bv16)
    requires NulFree(text) && |text| < 10000
    ensures NulFree(HASHES + Dec4(|text|) + text + Hex4(crc16) + CRLF)
  {
    DigitsNulFree(|text|);
    assert AllHexDigits(Hex4(crc16));
  }

  /** What became of a reply: too short or too long for the guard, sent, or written past the
      send buffer. */
  datatype Sealing = Ignored | Sent | Overrun

  class Link {
    var para: GeneralPara
    var outbox: seq<bytes>

    constructor (para: GeneralPara)
      ensures this.para == para && outbox == []
    {
      this.para := para;
      outbox := [];
    }

    /** The common body of the three builders: print, number, seal, send. `crcFirst` is the order
        9012 and the clock reply use as written: the checksum is taken, and placed, before the
        header is subtracted, so it lands behind the NUL that ends the text, and for the longest
        texts the guard admits behind the buffer. */
    method SealAndSend(text: bytes, crcFirst: bool) returns (r: Sealing)
      requires NulFree(text)
      modifies this`outbox
      ensures r.Ignored? <==> |text| < 74 || |text| > 1024
      ensures r.Overrun? <==> crcFirst && 1018 < |text| <= 1024
      ensures r.Sent? ==> |text| <= if crcFirst then 1018 else 1024
      ensures outbox == old(outbox) + (if !r.Sent? then []
                                       else if crcFirst then [HASHES + Dec4(|text|) + text]
                                       else [Packet(text, CRLF)])
    {
      hide UpToNul, Packet, Dec4;
      var buf := new byte[MAX_TCPDATA_LEN];
      var nLen := Snprintf(buf, 0, MAX_TCPDATA_LEN - 6, EMPTY_HEADER + text);
      if nLen < MIN_TCPDATA_LEN || nLen >= MAX_TCPDATA_LEN - 6 {
        return Ignored;
      }
      assert buf[..|text| + 7] == EMPTY_HEADER + text + [0];
      if crcFirst {
        var fits := SealEarly(buf, text, nLen);
        if !fits {
          return Overrun;
        }
      } else {
        SealLate(buf, text, nLen);
      }
      outbox := outbox + [UpToNul(buf[..])];
      return Sent;
    }

    method RequestRespond(qnRtn: nat, url_args: Args, ghost clock: ClockText)
      requires Known(Request(qnRtn))
      modifies this`outbox
      ensures forall e :: outbox == old(outbox) + [Wire(e, para, url_args, Request(qnRtn), clock)]
    {
      hide ReplyText, Packet, Decimal;
      TextBounds(para, url_args, Request(qnRtn), clock);
      var r := SealAndSend(ReplyText(TEXT_91, TEXT_9011, url_args.qn, para.pw, para.mn, QN_RTN, Decimal(qnRtn)), false);
    }

    method ExecuteRespond(e: Edition, exeRtn: nat, url_args: Args, ghost clock: ClockText)
      requires Known(Execute(exeRtn))
      modifies this`outbox
      ensures outbox == old(outbox) + [Wire(e, para, url_args, Execute(exeRtn), clock)]
    {
      hide ReplyText, Packet, Decimal;
      TextBounds(para, url_args, Execute(exeRtn), clock);
      var r := SealAndSend(ReplyText(TEXT_91, TEXT_9012, url_args.qn, para.pw, para.mn, EXE_RTN, Decimal(exeRtn)),
                           e.AsWritten?);
    }

    method SendCurrentTime(e: Edition, url_args: Args, clock: ClockText) returns (sent: bool)
      requires url_args.cn == CN_GET_TIME
      modifies this`outbox
      ensures sent <==> 74 <= |Text(para, url_args, Clock, clock)| <= 1024
      ensures outbox == old(outbox) + if sent then [Wire(e, para, url_args, Clock, clock)] else []
    {
      hide ReplyText, Packet, Decimal2;
      TextBounds(para, url_args, Clock, clock);
      var text := ReplyText(Decimal2(para.stType as int), Dec4(url_args.cn), url_args.qn, para.pw, para.mn,
                            SYSTEM_TIME, clock);
      var r := SealAndSend(text, e.AsWritten?);
      sent := r.Sent?;
    }

    /** messageProc. `uninit` is whatever the stack held where url_args lies; `hung` says that it
        never returns, with nothing stored and nothing sent. */
    method MessageProc(e: Edition, str: array<byte>, nul: nat, uninit: Args, clock: ClockText)
      returns (ok: bool, hung: bool)
      requires nul < str.Length
      modifies this, str
      ensures hung <==> e.AsWritten? && RunsAway(Terminator(e), old(str[..nul]))
      ensures hung ==> para == old(para) && outbox == old(outbox)
      ensures !hung ==>
                var o := Handle(e, old(para), InitialArgs(e, uninit), old(str[..nul]));
                && ok == o.ok
                && para == o.para
                && outbox == old(outbox) + Wires(e, old(para), o.args, o.replies, clock)
    {
      hide Parsed, RunsAway, Wire, Respond;
      var parsed;
      parsed, hung := ParseUrl(e, para, str, nul, InitialArgs(e, uninit));
      if hung || parsed.None? {
        return false, hung;
      }
      var url_args := parsed.value;
      if |url_args.qn| != QN_LEN || url_args.cn < 0 || 1 != url_args.mnFlag || url_args.st < 0 {
        return false, false;
      }
      ok := Switch(e, url_args, clock);
    }

    /** The switch of messageProc. */
    method Switch(e: Edition, url_args: Args, clock: ClockText) returns (ok: bool)
      modifies this
      ensures var o := Respond(old(para), url_args);
              && ok == o.ok
              && para == o.para
              && outbox == old(outbox) + Wires(e, old(para), o.args, o.replies, clock)
    {
      hide Wire, Text;
      ghost var r := Respond(para, url_args).replies;
      OnePacketEach(e, para, url_args, r, clock);
      if url_args.cn == CN_SET_OVERTIME_RECOUNT {
        if url_args.flag % 2 == 1 {
          RequestRespond(REQUEST_READY, url_args, clock);
        }
        if url_args.overTime < 0 || url_args.reCount < 0 {
          ExecuteRespond(e, RESULT_CONDITION_ERR, url_args, clock);
          return false;
        }
        ghost var before := para;
        para := para.(overTime := Uint8(url_args.overTime), reCount := Uint8(url_args.reCount));
        SameWire(e, before, para, url_args, Execute(RESULT_SUCCESS), clock);
        ExecuteRespond(e, RESULT_SUCCESS, url_args, clock);
      } else if url_args.cn == CN_GET_TIME {
        if url_args.flag % 2 == 1 {
          if |url_args.polId| > 0 {
            RequestRespond(REQUEST_READY, url_args, clock);
          } else {
            RequestRespond(REQUEST_REFUSED, url_args, clock);
          }
          var sent := SendCurrentTime(e, url_args, clock);
          if sent {
            ExecuteRespond(e, RESULT_SUCCESS, url_args, clock);
          } else {
            ExecuteRespond(e, RESULT_FAILED, url_args, clock);
            TextBounds(para, url_args, Clock, clock);
          }
        }
      } else if url_args.cn !in SILENT_COMMANDS {
        if url_args.flag % 2 == 1 {
          RequestRespond(REQUEST_CODE_ERR, url_args, clock);
        }
      }
      return true;
    }
  }

  /** One packet per reply, in order. */
  lemma OnePacketEach(e: Edition, para: GeneralPara, a: Args, rs: seq<Reply>, clock: ClockText)
    requires AllKnown(rs)
    ensures rs == [] ==> Wires(e, para, a, rs, clock) == []
    ensures |rs| == 1 ==> Wires(e, para, a, rs, clock) == [Wire(e, para, a, rs[0], clock)]
    ensures |rs| == 2 ==> Wires(e, para, a, rs, clock) ==
                            [Wire(e, para, a, rs[0], clock), Wire(e, para, a, rs[1], clock)]
    ensures |rs| == 3 ==> Wires(e, para, a, rs, clock) ==
                            [Wire(e, para, a, rs[0], clock), Wire(e, para, a, rs[1], clock),
                             Wire(e, para, a, rs[2], clock)]
    decreases |rs|
  {
    hide Wire, Text, Known;
    if 0 < |rs| <= 3 {
      OnePacketEach(e, para, a, rs[1..], clock);
    }
  }

  /** Replies quote the identity fields only, so storing new timing parameters first changes nothing. */
  lemma SameWire(e: Edition, p: GeneralPara, q: GeneralPara, a: Args, r: Reply, clock: ClockText)
    requires p.pw == q.pw && p.mn == q.mn && p.stType == q.stType && Known(r)
    ensures Wire(e, p, a, r, clock) == Wire(e, q, a, r, clock)
  {
  }

  function InitialArgs(e: Edition, uninit: Args): Args {
    if e.AsWritten? then uninit else ZEROED
  }
}
