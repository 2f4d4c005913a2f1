/** Protocol_23: the C10 conductivity meter and its hexadecimal text. */
module ConductivityMeter {
  import opened Bytes
  import opened Editions
  import opened MeterFrames
  import opened NgxParse

  const C10_ADDR0000_LEN := 24

  // ---- Hexadecimal text -----------------------------------------------------------------

  /** HEXTOASCII of a four-bit value. */
  function HexToAscii(d: byte): byte
    requires d < 16
  {
    if d < 10 then d + 0x30 else d - 10 + 0x41
  }

  /** One half of ASCIITOHEX, in 32-bit arithmetic; as written the letter A falls to the digits' side. */
  function NibbleOf(e: Edition, c: byte): bv32 {
    if c > 0x41 || (c == 0x41 && e.Repaired?) then (c as bv32) - 0x41 + 10 else (c as bv32) - 0x30
  }

  /** ASCIITOHEX. */
  function AsciiToHex(e: Edition, high: byte, low: byte): bv32 {
    (NibbleOf(e, high) << 4) | NibbleOf(e, low)
  }

  /** toupper. */
  function ToUpper(c: byte): byte {
    if 0x61 <= c <= 0x7A then c & 0xDF else c
  }

  /** HEXCHECK. */
  predicate HexCheck(c: byte) {
    0x41 <= c <= 0x46 || 0x30 <= c <= 0x39
  }

  function HighText(b: byte): byte { HexToAscii(HighNibble(b)) }

  function LowText(b: byte): byte { HexToAscii(LowNibble(b)) }

  function HighNibble(b: byte): (d: byte)
    ensures d < 16
  {
    (b >> 4) & 0x0F
  }

  function LowNibble(b: byte): (d: byte)
    ensures d < 16
  {
    b & 0x0F
  }

  /** Neither half prints as the letter A. */
  predicate FreeOfA(b: byte) {
    HighNibble(b) != 10 && LowNibble(b) != 10
  }

  /** Every byte survives printing and reading back; as written only those without a letter A do,
      whether or not the result is cut back to a byte. */
  lemma HexRoundTrip(e: Edition, b: byte)
    ensures AsciiToHex(e, HighText(b), LowText(b)) == b as bv32 <==> e.Repaired? || FreeOfA(b)
    ensures (AsciiToHex(e, HighText(b), LowText(b)) & 0xFF) as bv8 == b <==> e.Repaired? || FreeOfA(b)
  {
  }

  lemma PrintedHex(b: byte)
    ensures HexCheck(HighText(b)) && HexCheck(LowText(b))
    ensures ToUpper(HighText(b)) == HighText(b) && ToUpper(LowText(b)) == LowText(b)
  {
  }

  // ---- The request ----------------------------------------------------------------------

  /** The address in two characters of four bits each, from '0' upwards. */
  function AddressHigh(address: byte): byte { HighNibble(address) + 0x30 }

  function AddressLow(address: byte): byte { LowNibble(address) + 0x30 }

  method FillText(sendbuf: array<byte>, address: byte)
    requires sendbuf.Length == 14
    modifies sendbuf
    ensures sendbuf[..11] == [0x40, AddressHigh(address), AddressLow(address),
                              0x43, 0x38, 0x30, 0x30, 0x30, 0x30, 0x30, 0x38]
  {
    sendbuf[0], sendbuf[1], sendbuf[2] := 0x40, HighNibble(address) + 0x30, LowNibble(address) + 0x30;
    sendbuf[3], sendbuf[4], sendbuf[5], sendbuf[6] := 0x43, 0x38, 0x30, 0x30;
    sendbuf[7], sendbuf[8], sendbuf[9], sendbuf[10] := 0x30, 0x30, 0x30, 0x38;
  }

  /** Fills sendbuf with a request: "@", the address four bits a character, "C8000008", and the XOR
      of those ten characters as two hexadecimal digits. */
  method BuildRequest(sendbuf: array<byte>, address: byte)
    requires sendbuf.Length == 14
    modifies sendbuf
    ensures sendbuf[0] == 0x40 && sendbuf[13] == 0x0D
    ensures (sendbuf[1] as int - 0x30) * 16 + (sendbuf[2] as int - 0x30) == address as int
    ensures 0x30 <= sendbuf[1] <= 0x3F && 0x30 <= sendbuf[2] <= 0x3F
    ensures sendbuf[3..11] == [0x43, 0x38, 0x30, 0x30, 0x30, 0x30, 0x30, 0x38]
    ensures Spells(sendbuf[11], sendbuf[12], XorCheck(sendbuf[1..11]))
  {
    FillText(sendbuf, address);
    AddressRead(address);
    AddressCharacters(address);
    hide XorCheck, HighText, LowText, AddressHigh, AddressLow, Spells;
    ghost var text := sendbuf[..11];
    assert text[0] == 0x40 && text[1] == AddressHigh(address) && text[2] == AddressLow(address);
    assert sendbuf[1..11] == text[1..] && text[3..] == [0x43, 0x38, 0x30, 0x30, 0x30, 0x30, 0x30, 0x38];
    var check := XorValid(sendbuf, 1, 11);
    PrintedSpells(check);
    sendbuf[11] := HighText(check);
    sendbuf[12] := LowText(check);
    sendbuf[13] := 0x0D;
    assert sendbuf[..11] == text;
    assert sendbuf[0] == text[0] && sendbuf[1] == text[1] && sendbuf[2] == text[2];
    assert sendbuf[1..11] == text[1..] && sendbuf[3..11] == text[3..];
  }

  lemma AddressCharacters(address: byte)
    ensures 0x30 <= AddressHigh(address) <= 0x3F && 0x30 <= AddressLow(address) <= 0x3F
  {
  }

  /** Two hexadecimal digits, in either case, spell a byte. */
  predicate Spells(high: byte, low: byte, b: byte) {
    IsHexDigit(high) && IsHexDigit(low) && HexDigitOf(high) * 16 + HexDigitOf(low) == b as int
  }

  lemma PrintedSpells(b: byte)
    ensures Spells(HighText(b), LowText(b), b)
  {
    hide HighNibble, LowNibble;
    NibblesJoin(b);
    PrintedDigit(HighNibble(b));
    PrintedDigit(LowNibble(b));
  }

  lemma PrintedDigit(d: byte)
    requires d < 16
    ensures IsHexDigit(HexToAscii(d)) && HexDigitOf(HexToAscii(d)) == d as int
  {
  }

  // ---- The answer -----------------------------------------------------------------------

  function HexPair(e: Edition, f: bytes, i: nat): bv32
    requires i + 1 < |f|
  {
    AsciiToHex(e, ToUpper(f[i]), ToUpper(f[i + 1]))
  }

  predicate AddressMatches(f: bytes, address: byte)
    requires |f| == C10_ADDR0000_LEN
  {
    (f[1] as int - 0x30) * 16 + (f[2] as int - 0x30) == address as int
  }

  predicate ChecksumMatches(e: Edition, f: bytes)
    requires |f| == C10_ADDR0000_LEN
  {
    HexPair(e, f, 21) == XorCheck(f[1..21]) as bv32
  }

  predicate DataValid(f: bytes)
    requires |f| == C10_ADDR0000_LEN
  {
    forall i :: 5 <= i <= 12 ==> HexCheck(ToUpper(f[i]))
  }

  function CutToByte(w: bv32): byte {
    (w & 0xFF) as bv8
  }

  /** Rtd_buf. */
  function Reading(e: Edition, f: bytes): bytes
    requires |f| == C10_ADDR0000_LEN
  {
    [CutToByte(HexPair(e, f, 11)), CutToByte(HexPair(e, f, 9)), CutToByte(HexPair(e, f, 7)),
     CutToByte(HexPair(e, f, 5))]
  }

  function FrameReading(e: Edition, f: bytes, address: byte): Option<bytes>
    requires |f| == C10_ADDR0000_LEN
  {
    if AddressMatches(f, address) && ChecksumMatches(e, f) && DataValid(f) then Some(Reading(e, f)) else None
  }

  /** The four data bytes of the first frame in the buffer, if it passes every test. */
  function Decode(e: Edition, buf: bytes, address: byte): Option<bytes> {
    match FirstFrame(buf, 0x40, 0x0D, C10_ADDR0000_LEN, 0)
    case None => None
    case Some(i) => FrameReading(e, buf[i..i + C10_ADDR0000_LEN], address)
  }

  lemma UpperTwice(c: byte)
    ensures ToUpper(ToUpper(c)) == ToUpper(c)
  {
  }

  /** Uppercases data characters in place until one is not hexadecimal. */
  method FoldData(readbuf: array<byte>, start_index: nat) returns (dataValid: bool)
    requires start_index + 12 < readbuf.Length
    modifies readbuf
    ensures dataValid <==> forall i :: start_index + 5 <= i <= start_index + 12 ==> HexCheck(ToUpper(old(readbuf[i])))
    ensures forall i :: 0 <= i < readbuf.Length ==>
              readbuf[i] == old(readbuf[i]) || readbuf[i] == ToUpper(old(readbuf[i]))
    ensures dataValid ==> forall i :: start_index + 5 <= i <= start_index + 12 ==>
              readbuf[i] == ToUpper(old(readbuf[i]))
    ensures forall i :: 0 <= i < readbuf.Length && !(start_index + 5 <= i <= start_index + 12) ==>
              readbuf[i] == old(readbuf[i])
  {
    hide ToUpper, HexCheck;
    var iLoop := start_index + 5;
    while iLoop <= start_index + 12
      invariant start_index + 5 <= iLoop <= start_index + 13
      invariant forall i :: start_index + 5 <= i < iLoop ==>
                  readbuf[i] == ToUpper(old(readbuf[i])) && HexCheck(readbuf[i])
      invariant forall i :: 0 <= i < readbuf.Length && !(start_index + 5 <= i < iLoop) ==> readbuf[i] == old(readbuf[i])
    {
      readbuf[iLoop] := ToUpper(readbuf[iLoop]);
      if !HexCheck(readbuf[iLoop]) {
        return false;
      }
      iLoop := iLoop + 1;
    }
    return true;
  }

  /** Address and checksum; the checksum's characters are uppercased in place. */
  method CheckFrame(e: Edition, readbuf: array<byte>, start_index: nat, address: byte) returns (good: bool)
    requires start_index + C10_ADDR0000_LEN <= readbuf.Length
    modifies readbuf
    ensures var f := old(readbuf[start_index..start_index + C10_ADDR0000_LEN]);
            good <==> AddressMatches(f, address) && ChecksumMatches(e, f)
    ensures forall i :: 0 <= i < readbuf.Length ==>
              readbuf[i] == old(readbuf[i]) || readbuf[i] == ToUpper(old(readbuf[i]))
    ensures forall i :: 0 <= i < readbuf.Length && !(start_index + 21 <= i <= start_index + 22) ==>
              readbuf[i] == old(readbuf[i])
  {
    hide XorCheck, ToUpper, AsciiToHex;
    ghost var f := readbuf[start_index..start_index + C10_ADDR0000_LEN];
    var end_index := start_index + C10_ADDR0000_LEN - 1;
    assert readbuf[start_index + 1] == f[1] && readbuf[start_index + 2] == f[2];
    assert readbuf[start_index + 21] == f[21] && readbuf[start_index + 22] == f[22];
    if address as int != (readbuf[start_index + 1] as int - 0x30) * 16 + (readbuf[start_index + 2] as int - 0x30) {
      return false;
    }
    assert AddressMatches(f, address);
    hide AddressMatches;
    var check := XorValid(readbuf, start_index + 1, start_index + 1 + (C10_ADDR0000_LEN - 4));
    assert readbuf[start_index + 1..start_index + 21] == f[1..21];
    readbuf[end_index - 1] := ToUpper(readbuf[end_index - 1]);
    readbuf[end_index - 2] := ToUpper(readbuf[end_index - 2]);
    good := AsciiToHex(e, readbuf[end_index - 2], readbuf[end_index - 1]) == check as bv32;
  }

  /** The data of a frame whose address and checksum are right. */
  method ReadData(e: Edition, readbuf: array<byte>, start_index: nat) returns (rtd: Option<bytes>)
    requires start_index + C10_ADDR0000_LEN <= readbuf.Length
    modifies readbuf
    ensures var f := old(readbuf[start_index..start_index + C10_ADDR0000_LEN]);
            rtd == if DataValid(f) then Some(Reading(e, f)) else None
    ensures forall i :: 0 <= i < readbuf.Length ==>
              readbuf[i] == old(readbuf[i]) || readbuf[i] == ToUpper(old(readbuf[i]))
  {
    hide ToUpper, HexCheck, AsciiToHex, CutToByte;
    ghost var f := readbuf[start_index..start_index + C10_ADDR0000_LEN];
    assert forall i :: 0 <= i < C10_ADDR0000_LEN ==> f[i] == readbuf[start_index + i];
    var dataValid := FoldData(readbuf, start_index);
    if !dataValid {
      return None;
    }
    rtd := Some([CutToByte(AsciiToHex(e, readbuf[start_index + 11], readbuf[start_index + 12])),
                 CutToByte(AsciiToHex(e, readbuf[start_index + 9], readbuf[start_index + 10])),
                 CutToByte(AsciiToHex(e, readbuf[start_index + 7], readbuf[start_index + 8])),
                 CutToByte(AsciiToHex(e, readbuf[start_index + 5], readbuf[start_index + 6]))]);
  }

  /** Folding the checksum's characters leaves the data of a frame alone. */
  lemma SameData(e: Edition, f: bytes, g: bytes)
    requires |f| == |g| == C10_ADDR0000_LEN
    requires forall i :: 0 <= i < C10_ADDR0000_LEN && i != 21 && i != 22 ==> f[i] == g[i]
    ensures DataValid(f) == DataValid(g) && Reading(e, f) == Reading(e, g)
  {
  }

  /** The receiving half of Protocol_23. In the buffer at most letters change to upper case. */
  method ReadAnswer(e: Edition, readbuf: array<byte>, nread: nat, address: byte) returns (rtd: Option<bytes>)
    requires nread <= readbuf.Length
    modifies readbuf
    ensures rtd == Decode(e, old(readbuf[..nread]), address)
    ensures forall i :: 0 <= i < readbuf.Length ==>
              readbuf[i] == old(readbuf[i]) || readbuf[i] == ToUpper(old(readbuf[i]))
  {
    hide FirstFrame, ToUpper, AddressMatches, ChecksumMatches, DataValid, Reading;
    ghost var buf := readbuf[..nread];
    if nread < C10_ADDR0000_LEN {
      NoneIs(buf, 0x40, 0x0D, C10_ADDR0000_LEN);
      return None;
    }
    var found, start_index, end_index := FindStartAndEnd(readbuf, nread, 0x40, 0x0D, C10_ADDR0000_LEN);
    if !found {
      forall i ensures !CandidateAt(buf, 0x40, 0x0D, C10_ADDR0000_LEN, i) {
        assert !CandidateAt(readbuf[..nread], 0x40, 0x0D, C10_ADDR0000_LEN, i);
      }
      NoneIs(buf, 0x40, 0x0D, C10_ADDR0000_LEN);
      return None;
    }
    FirstIs(buf, 0x40, 0x0D, C10_ADDR0000_LEN, start_index);
    ghost var f := readbuf[start_index..start_index + C10_ADDR0000_LEN];
    assert f == buf[start_index..start_index + C10_ADDR0000_LEN];
    var good := CheckFrame(e, readbuf, start_index, address);
    if !good {
      return None;
    }
    SameData(e, f, readbuf[start_index..start_index + C10_ADDR0000_LEN]);
    label Checked:
    rtd := ReadData(e, readbuf, start_index);
    forall i | 0 <= i < readbuf.Length ensures readbuf[i] == old(readbuf[i]) || readbuf[i] == ToUpper(old(readbuf[i])) {
      UpperTwice(old(readbuf[i]));
    }
  }

  // ---- What a meter sends and what is made of it ----------------------------------------

  /** The twenty checksummed characters: address, two characters of its own, the data from its
      last byte down, and eight more the terminal ignores. */
  function AnswerText(address: byte, head: bytes, data: bytes, pad: bytes): (t: bytes)
    requires |head| == 2 && |data| == 4 && |pad| == 8
    ensures |t| == 20
  {
    [AddressHigh(address), AddressLow(address)] + head
    + [HighText(data[3]), LowText(data[3]), HighText(data[2]), LowText(data[2]),
       HighText(data[1]), LowText(data[1]), HighText(data[0]), LowText(data[0])] + pad
  }

  function Answer(text: bytes): (f: bytes)
    requires |text| == 20
    ensures |f| == C10_ADDR0000_LEN
  {
    [0x40] + text + [HighText(XorCheck(text)), LowText(XorCheck(text)), 0x0D]
  }

  lemma AddressRead(address: byte)
    ensures (AddressHigh(address) as int - 0x30) * 16 + (AddressLow(address) as int - 0x30) == address as int
  {
    NibblesJoin(address);
    Raised(HighNibble(address));
    Raised(LowNibble(address));
  }

  lemma NibblesJoin(b: byte)
    ensures HighNibble(b) as int * 16 + LowNibble(b) as int == b as int
  {
  }

  lemma Raised(d: byte)
    requires d < 16
    ensures (d + 0x30) as int == d as int + 0x30
  {
  }

  lemma PrintedPairRead(e: Edition, f: bytes, i: nat, b: byte)
    requires i + 1 < |f| && f[i] == HighText(b) && f[i + 1] == LowText(b)
    ensures HexPair(e, f, i) == b as bv32 <==> e.Repaired? || FreeOfA(b)
    ensures CutToByte(HexPair(e, f, i)) == b <==> e.Repaired? || FreeOfA(b)
    ensures HexCheck(ToUpper(f[i])) && HexCheck(ToUpper(f[i + 1]))
  {
    hide HighText, LowText, AsciiToHex, ToUpper, FreeOfA, HexCheck;
    HexRoundTrip(e, b);
    PrintedHex(b);
  }

  /** Behind any noise that starts no candidate of its own, an answer decodes to the bytes the
      meter sent; as written, exactly those answers without a letter A in checksum or data. */
  lemma AnswerDecoded(e: Edition, noise: bytes, tail: bytes, address: byte, head: bytes, data: bytes, pad: bytes)
    requires |head| == 2 && |data| == 4 && |pad| == 8
    requires Quiet(noise, Answer(AnswerText(address, head, data, pad)), tail, 0x40, 0x0D)
    ensures var text := AnswerText(address, head, data, pad);
            Decode(e, noise + Answer(text) + tail, address) == Some(data) <==>
            e.Repaired? || (FreeOfA(XorCheck(text)) && forall k :: 0 <= k < 4 ==> FreeOfA(data[k]))
  {
    hide *;
    var text := AnswerText(address, head, data, pad);
    var f := Answer(text);
    AnswerEnds(text);
    AnswerIsFirst(noise, f, tail);
    AnswerRead(e, address, head, data, pad);
    DecodeFirst(e, noise, f, tail, address);
  }

  lemma AnswerIsFirst(noise: bytes, f: bytes, tail: bytes)
    requires |f| == C10_ADDR0000_LEN && f[0] == 0x40 && f[23] == 0x0D && Quiet(noise, f, tail, 0x40, 0x0D)
    ensures FirstFrame(noise + f + tail, 0x40, 0x0D, C10_ADDR0000_LEN, 0) == Some(|noise|)
  {
    hide FirstFrame, Quiet;
    FrameBehindNoise(noise, f, tail, 0x40, 0x0D);
  }

  lemma AnswerEnds(text: bytes)
    requires |text| == 20
    ensures Answer(text)[0] == 0x40 && Answer(text)[23] == 0x0D
  {
  }

  lemma DecodeFirst(e: Edition, noise: bytes, f: bytes, tail: bytes, address: byte)
    requires |f| == C10_ADDR0000_LEN
    requires FirstFrame(noise + f + tail, 0x40, 0x0D, C10_ADDR0000_LEN, 0) == Some(|noise|)
    ensures Decode(e, noise + f + tail, address) == FrameReading(e, f, address)
  {
    hide FirstFrame, FrameReading;
    assert (noise + f + tail)[|noise|..|noise| + C10_ADDR0000_LEN] == f;
  }

  lemma AnswerLayout(address: byte, head: bytes, data: bytes, pad: bytes)
    requires |head| == 2 && |data| == 4 && |pad| == 8
    ensures var text := AnswerText(address, head, data, pad);
            var f := Answer(text);
            && f[1] == AddressHigh(address) && f[2] == AddressLow(address)
            && f[5] == HighText(data[3]) && f[6] == LowText(data[3])
            && f[7] == HighText(data[2]) && f[8] == LowText(data[2])
            && f[9] == HighText(data[1]) && f[10] == LowText(data[1])
            && f[11] == HighText(data[0]) && f[12] == LowText(data[0])
            && f[21] == HighText(XorCheck(text)) && f[22] == LowText(XorCheck(text))
            && f[1..21] == text
  {
    hide XorCheck, HighText, LowText, AddressHigh, AddressLow;
  }

  lemma AnswerDataRead(e: Edition, f: bytes, data: bytes)
    requires |f| == C10_ADDR0000_LEN && |data| == 4
    requires f[5] == HighText(data[3]) && f[6] == LowText(data[3]) && f[7] == HighText(data[2])
             && f[8] == LowText(data[2])
    requires f[9] == HighText(data[1]) && f[10] == LowText(data[1]) && f[11] == HighText(data[0])
             && f[12] == LowText(data[0])
    ensures DataValid(f)
    ensures Reading(e, f) == data <==> e.Repaired? || forall k :: 0 <= k < 4 ==> FreeOfA(data[k])
  {
    hide HexPair, HexCheck, ToUpper, FreeOfA, HighText, LowText, CutToByte, Reading;
    PrintedPairRead(e, f, 5, data[3]);
    PrintedPairRead(e, f, 7, data[2]);
    PrintedPairRead(e, f, 9, data[1]);
    PrintedPairRead(e, f, 11, data[0]);
    SameReading(e, f, data);
  }

  lemma AnswerHead(e: Edition, address: byte, head: bytes, data: bytes, pad: bytes)
    requires |head| == 2 && |data| == 4 && |pad| == 8
    ensures var text := AnswerText(address, head, data, pad);
            && AddressMatches(Answer(text), address)
            && (ChecksumMatches(e, Answer(text)) <==> e.Repaired? || FreeOfA(XorCheck(text)))
  {
    hide XorCheck, HexPair, HexCheck, ToUpper, FreeOfA, HighText, LowText, CutToByte, AddressHigh, AddressLow;
    hide Answer, AnswerText;
    var text := AnswerText(address, head, data, pad);
    AnswerLayout(address, head, data, pad);
    AddressRead(address);
    PrintedPairRead(e, Answer(text), 21, XorCheck(text));
  }

  lemma AnswerRead(e: Edition, address: byte, head: bytes, data: bytes, pad: bytes)
    requires |head| == 2 && |data| == 4 && |pad| == 8
    ensures var text := AnswerText(address, head, data, pad);
            FrameReading(e, Answer(text), address) == Some(data) <==>
            e.Repaired? || (FreeOfA(XorCheck(text)) && forall k :: 0 <= k < 4 ==> FreeOfA(data[k]))
  {
    hide XorCheck, FreeOfA, HighText, LowText, Answer, AnswerText, Reading, DataValid, AddressMatches, ChecksumMatches;
    var text := AnswerText(address, head, data, pad);
    AnswerLayout(address, head, data, pad);
    AnswerHead(e, address, head, data, pad);
    AnswerDataRead(e, Answer(text), data);
  }

  lemma SameReading(e: Edition, f: bytes, data: bytes)
    requires |f| == C10_ADDR0000_LEN && |data| == 4
    ensures Reading(e, f) == data <==>
            CutToByte(HexPair(e, f, 11)) == data[0] && CutToByte(HexPair(e, f, 9)) == data[1]
            && CutToByte(HexPair(e, f, 7)) == data[2] && CutToByte(HexPair(e, f, 5)) == data[3]
  {
    hide CutToByte, HexPair;
    assert data == [data[0], data[1], data[2], data[3]];
  }

  /** One wrong character among the twenty and the checksum no longer matches. */
  lemma CorruptAnswerRefused(e: Edition, f: bytes, i: nat, b: byte)
    requires |f| == C10_ADDR0000_LEN && ChecksumMatches(e, f) && 1 <= i <= 20 && b != f[i]
    ensures !ChecksumMatches(e, f[i := b])
  {
    hide XorCheck, AsciiToHex;
    SubstitutionNoticed(f[1..21], i - 1, b);
    assert f[i := b][1..21] == f[1..21][i - 1 := b];
    Widened(XorCheck(f[1..21]), XorCheck(f[i := b][1..21]));
  }

  /** So on the line: an answer with one wrong character among the twenty is not decoded to
      anything, unless the noise now starts a candidate. */
  lemma CorruptLineRefused(e: Edition, noise: bytes, f: bytes, tail: bytes, address: byte, i: nat, b: byte)
    requires |f| == C10_ADDR0000_LEN && f[0] == 0x40 && f[23] == 0x0D && ChecksumMatches(e, f) && 1 <= i <= 20
             && b != f[i]
    requires Quiet(noise, f[i := b], tail, 0x40, 0x0D)
    ensures Decode(e, noise + f[i := b] + tail, address) == None
  {
    hide FirstFrame, Quiet, ChecksumMatches, AddressMatches, DataValid, Reading, Decode;
    var g := f[i := b];
    AnswerIsFirst(noise, g, tail);
    CorruptAnswerRefused(e, f, i, b);
    DecodeFirst(e, noise, g, tail, address);
  }

  lemma Widened(x: byte, y: byte)
    ensures x as bv32 == y as bv32 <==> x == y
  {
  }

  // ---- Every frame, in either case ------------------------------------------------------

  /** A data character is taken exactly when it is one of 0-9, A-F and a-f. */
  lemma TakenCharacters(c: byte)
    ensures HexCheck(ToUpper(c)) <==> 0x30 <= c <= 0x39 || 0x41 <= c <= 0x46 || 0x61 <= c <= 0x66
  {
  }

  lemma NibbleValue(c: byte)
    requires IsHexDigit(c)
    ensures NibbleOf(Repaired, ToUpper(c)) < 16 && NibbleOf(Repaired, ToUpper(c)) as int == HexDigitOf(c)
  {
  }

  lemma JoinedNibbles(h: bv32, l: bv32)
    requires h < 16 && l < 16
    ensures ((h << 4) | l) as int == h as int * 16 + l as int && (h << 4) | l < 256
  {
  }

  lemma PairSpells(f: bytes, i: nat, b: byte)
    requires i + 1 < |f| && IsHexDigit(f[i]) && IsHexDigit(f[i + 1])
    ensures HexPair(Repaired, f, i) == b as bv32 <==> Spells(f[i], f[i + 1], b)
    ensures CutToByte(HexPair(Repaired, f, i)) == b <==> Spells(f[i], f[i + 1], b)
  {
    hide NibbleOf, ToUpper, HexDigitOf;
    NibbleValue(f[i]);
    NibbleValue(f[i + 1]);
    var h, l := NibbleOf(Repaired, ToUpper(f[i])), NibbleOf(Repaired, ToUpper(f[i + 1]));
    JoinedNibbles(h, l);
    WidenedValue((h << 4) | l, b);
  }

  lemma WidenedValue(w: bv32, b: byte)
    requires w < 256
    ensures w == b as bv32 <==> w as int == b as int
    ensures CutToByte(w) == b <==> w as int == b as int
  {
    SameOrdinal(w as bv8, b);
    Narrowed(w);
  }

  lemma Narrowed(w: bv32)
    requires w < 256
    ensures w as int == (w as bv8) as int && (w & 0xFF) as bv8 == w as bv8 && (w as bv8) as bv32 == w
  {
  }

  /** A frame in characters: "@", the address, two characters of its own, the data from the last
      byte down, eight characters that the terminal ignores, the checksum, CR; digits in either case. */
  predicate IsAnswer(f: bytes, address: byte, data: bytes)
    requires |data| == 4
  {
    && |f| == 24 && f[0] == 0x40 && f[23] == 0x0D
    && (f[1] as int - 0x30) * 16 + (f[2] as int - 0x30) == address as int
    && Spells(f[5], f[6], data[3]) && Spells(f[7], f[8], data[2])
    && Spells(f[9], f[10], data[1]) && Spells(f[11], f[12], data[0])
    && Spells(f[21], f[22], XorCheck(f[1..21]))
  }

  lemma DataSpelled(f: bytes, data: bytes)
    requires |f| == 24 && |data| == 4
    ensures DataValid(f) && Reading(Repaired, f) == data <==>
              Spells(f[5], f[6], data[3]) && Spells(f[7], f[8], data[2])
              && Spells(f[9], f[10], data[1]) && Spells(f[11], f[12], data[0])
  {
    hide HexPair, HexCheck, ToUpper, CutToByte, HexDigitOf, Reading, IsHexDigit;
    forall c: byte ensures HexCheck(ToUpper(c)) <==> IsHexDigit(c) {
      TakenDigits(c);
    }
    SameReading(Repaired, f, data);
    if DataValid(f) {
      PairSpells(f, 5, data[3]);
      PairSpells(f, 7, data[2]);
      PairSpells(f, 9, data[1]);
      PairSpells(f, 11, data[0]);
    }
  }

  lemma TakenDigits(c: byte)
    ensures HexCheck(ToUpper(c)) <==> IsHexDigit(c)
  {
    TakenCharacters(c);
  }

  /** The repaired terminal decodes four bytes from every such frame that is the first candidate,
      in whichever case it is printed, and from nothing else whose checksum characters are digits. */
  lemma DecodesExactly(buf: bytes, address: byte, data: bytes, i: nat)
    requires |data| == 4 && FirstCandidate(buf, 0x40, 0x0D, 24, i)
    ensures Decode(Repaired, buf, address) == Some(data) && IsHexDigit(buf[i + 21]) && IsHexDigit(buf[i + 22]) <==>
              IsAnswer(buf[i..i + 24], address, data)
  {
    hide Decode, IsAnswer, IsHexDigit;
    var f := buf[i..i + 24];
    assert f[21] == buf[i + 21] && f[22] == buf[i + 22] && f[0] == buf[i] && f[23] == buf[i + 23];
    FirstDecides(buf, address, data, i);
    DigitsDecide(f, address, data);
  }

  lemma FirstDecides(buf: bytes, address: byte, data: bytes, i: nat)
    requires |data| == 4 && FirstCandidate(buf, 0x40, 0x0D, 24, i)
    ensures var f := buf[i..i + 24];
            Decode(Repaired, buf, address) == Some(data) <==>
              AddressMatches(f, address) && ChecksumMatches(Repaired, f) && DataValid(f) && Reading(Repaired, f) == data
  {
    hide FirstFrame, AddressMatches, ChecksumMatches, DataValid, Reading;
    FirstIs(buf, 0x40, 0x0D, 24, i);
  }

  lemma DigitsDecide(f: bytes, address: byte, data: bytes)
    requires |f| == 24 && |data| == 4 && f[0] == 0x40 && f[23] == 0x0D
    ensures (&& AddressMatches(f, address) && ChecksumMatches(Repaired, f) && DataValid(f)
             && Reading(Repaired, f) == data && IsHexDigit(f[21]) && IsHexDigit(f[22]))
            <==> IsAnswer(f, address, data)
  {
    hide HexPair, DataValid, Reading, Spells, IsHexDigit, XorCheck;
    SpellsDigits(f[21], f[22], XorCheck(f[1..21]));
    if IsHexDigit(f[21]) && IsHexDigit(f[22]) {
      PairSpells(f, 21, XorCheck(f[1..21]));
    }
    DataSpelled(f, data);
  }

  lemma SpellsDigits(h: byte, l: byte, b: byte)
    ensures Spells(h, l, b) ==> IsHexDigit(h) && IsHexDigit(l)
  {
  }

  /** The same bytes are never an answer from two addresses, in either edition. */
  lemma OneAddressOnly(e: Edition, buf: bytes, a: byte, b: byte)
    requires Decode(e, buf, a).Some? && Decode(e, buf, b).Some?
    ensures a == b
  {
    hide FirstFrame, ChecksumMatches, DataValid, Reading;
    SameOrdinal(a, b);
  }
}
