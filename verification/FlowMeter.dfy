/** Protocol_15: the Chengde flow meter. */
module FlowMeter {
  import opened Bytes
  import opened Editions
  import opened MeterFrames
  import opened Bcd

  const FLOWMETER_CD_RTD_LEN := 18
  const FLOWMETER_CD_SUM_LEN := 22
  const RTD_CODE: byte := 0x18
  const SUM_CODE: byte := 0x03

  method FillHead(sendbuf: array<byte>, address: byte, code: byte)
    requires sendbuf.Length == 14
    modifies sendbuf
    ensures sendbuf[..12] == [0x68, address, 0x00, 0x00, 0x00, 0x00, 0x00, 0x68, 0x01, 0x02, code, 0xC0]
  {
    sendbuf[0], sendbuf[1], sendbuf[2], sendbuf[3] := 0x68, address, 0x00, 0x00;
    sendbuf[4], sendbuf[5], sendbuf[6], sendbuf[7] := 0x00, 0x00, 0x00, 0x68;
    sendbuf[8], sendbuf[9], sendbuf[10], sendbuf[11] := 0x01, 0x02, code, 0xC0;
  }

  lemma HeadTotal(address: byte, code: byte)
    ensures Total([0x68, address, 0x00, 0x00, 0x00, 0x00, 0x00, 0x68, 0x01, 0x02, code, 0xC0]) ==
            0x193 + address as int + code as int
  {
    TotalOfOne(0x68);
    TotalOfOne(address);
    TotalOfOne(code);
    TotalOfOne(0xC0);
    TotalOfOne(0x00);
    TotalOfOne(0x01);
    TotalOfOne(0x02);
    var zeros: bytes := [0x00] + [0x00] + [0x00] + [0x00] + [0x00];
    TotalConcat([0x00], [0x00]);
    TotalConcat([0x00] + [0x00], [0x00]);
    TotalConcat([0x00] + [0x00] + [0x00], [0x00]);
    TotalConcat([0x00] + [0x00] + [0x00] + [0x00], [0x00]);
    var head, rest := [0x68] + [address], [0x68] + [0x01] + [0x02] + [code] + [0xC0];
    TotalConcat([0x68], [address]);
    TotalConcat([0x68], [0x01]);
    TotalConcat([0x68] + [0x01], [0x02]);
    TotalConcat([0x68] + [0x01] + [0x02], [code]);
    TotalConcat([0x68] + [0x01] + [0x02] + [code], [0xC0]);
    TotalConcat(head, zeros);
    TotalConcat(head + zeros, rest);
    assert head + zeros + rest == [0x68, address, 0x00, 0x00, 0x00, 0x00, 0x00, 0x68, 0x01, 0x02, code, 0xC0];
  }

  lemma TotalOfOne(b: byte)
    ensures Total([b]) == b as int
  {
    assert [b][..0] == [];
  }

  /** Fills sendbuf with a request: fourteen bytes, the last but one their sum's low byte. */
  method BuildRequest(sendbuf: array<byte>, address: byte, code: byte)
    requires sendbuf.Length == 14
    modifies sendbuf
    ensures sendbuf[..12] == [0x68, address, 0x00, 0x00, 0x00, 0x00, 0x00, 0x68, 0x01, 0x02, code, 0xC0]
    ensures sendbuf[12] as int == SumCheck(sendbuf[..12]) == (0x193 + address as int + code as int) % 256
    ensures sendbuf[13] == 0x16
  {
    HeadTotal(address, code);
    hide ToByte;
    FillHead(sendbuf, address, code);
    var check := SumValid(sendbuf, 0, 12);
    ghost var head := sendbuf[..12];
    assert sendbuf[0..12] == head;
    sendbuf[12] := ToByte(check);
    sendbuf[13] := 0x16;
    assert sendbuf[..12] == head;
  }

  /** The tests an answer has to pass once its delimiters are found. */
  predicate GoodAnswer(f: bytes, address: byte, code: byte)
    requires |f| >= 14
  {
    && f[1] == address
    && f[7] == 0x68 && f[8] == 0x81 && f[10] == code && f[11] == 0xC0
    && f[|f| - 2] as int == SumCheck(f[..|f| - 2])
  }

  /** The data bytes of the first frame in the buffer, if it is a good answer. */
  function Decode(buf: bytes, address: byte, code: byte, len: nat): Option<bytes>
    requires len >= 14
  {
    match FirstFrame(buf, 0x68, 0x16, len, 0)
    case None => None
    case Some(i) => if GoodAnswer(buf[i..i + len], address, code) then Some(buf[i + 12..i + len - 2]) else None
  }

  /** The tests on a frame that has been found. */
  method CheckAnswer(readbuf: array<byte>, start_index: nat, address: byte, code: byte, len: nat) returns (good: bool)
    requires len >= 14 && start_index + len <= readbuf.Length
    ensures good == GoodAnswer(readbuf[start_index..start_index + len], address, code)
  {
    hide SumCheck;
    ghost var f := readbuf[start_index..start_index + len];
    if address != readbuf[start_index + 1] {
      return false;
    }
    if 0x68 != readbuf[start_index + 7] || 0x81 != readbuf[start_index + 8]
       || code != readbuf[start_index + 10] || 0xC0 != readbuf[start_index + 11]
    {
      return false;
    }
    var check := SumValid(readbuf, start_index, start_index + len - 2);
    assert f[..len - 2] == readbuf[start_index..start_index + len - 2];
    return check == readbuf[start_index + len - 2] as int;
  }

  /** The receiving half of Protocol_15, for either of its two questions. */
  method ReadAnswer(readbuf: array<byte>, nread: nat, address: byte, code: byte, len: nat)
    returns (payload: Option<bytes>)
    requires nread <= readbuf.Length && len >= 14
    ensures payload == Decode(readbuf[..nread], address, code, len)
  {
    hide GoodAnswer, FirstFrame;
    ghost var buf := readbuf[..nread];
    if nread < len {
      NoneIs(buf, 0x68, 0x16, len);
      return None;
    }
    var found, start_index, end_index := FindStartAndEnd(readbuf, nread, 0x68, 0x16, len);
    if !found {
      forall i ensures !CandidateAt(buf, 0x68, 0x16, len, i) {
        assert !CandidateAt(readbuf[..nread], 0x68, 0x16, len, i);
      }
      NoneIs(buf, 0x68, 0x16, len);
      return None;
    }
    FirstIs(buf, 0x68, 0x16, len, start_index);
    SliceOfSlice(readbuf[..], 0, nread, start_index, start_index + len);
    SliceOfSlice(readbuf[..], 0, nread, start_index + 12, start_index + len - 2);
    var good := CheckAnswer(readbuf, start_index, address, code, len);
    if !good {
      return None;
    }
    return Some(readbuf[start_index + 12..start_index + len - 2]);
  }

  /** The instantaneous flow: the four bytes the program reads as a float. */
  method ReadRate(readbuf: array<byte>, nread: nat, address: byte) returns (rate: Option<bytes>)
    requires nread <= readbuf.Length
    ensures rate == Decode(readbuf[..nread], address, 0x18, 18)
    ensures rate.Some? ==> |rate.value| == 4
  {
    rate := ReadAnswer(readbuf, nread, address, RTD_CODE, FLOWMETER_CD_RTD_LEN);
  }

  /** The cumulative flow, in thousandths. */
  method ReadTotal(e: Edition, readbuf: array<byte>, nread: nat, address: byte) returns (total: Option<int>)
    requires nread <= readbuf.Length
    ensures var p := Decode(readbuf[..nread], address, 0x03, 22);
            total == match p case None => None case Some(digits) => Some(MeterTotal(e, digits))
  {
    var payload := ReadAnswer(readbuf, nread, address, SUM_CODE, FLOWMETER_CD_SUM_LEN);
    if payload.None? {
      return None;
    }
    return Some(MeterTotal(e, payload.value));
  }

  // ---- What a meter sends and what is made of it ----------------------------------------

  /** An answer in bytes: 68 address ..... 68 81 . code C0 payload sum 16, with five bytes and one
      that the terminal ignores. */
  predicate IsAnswer(f: bytes, address: byte, code: byte, payload: bytes) {
    && |f| == |payload| + 14
    && f[0] == 0x68 && f[1] == address
    && f[7] == 0x68 && f[8] == 0x81 && f[10] == code && f[11] == 0xC0
    && f[12..|f| - 2] == payload
    && f[|f| - 2] as int == Total(f[..|f| - 2]) % 256 && f[|f| - 1] == 0x16
  }

  lemma GoodIsAnswer(f: bytes, address: byte, code: byte, payload: bytes)
    requires |f| == |payload| + 14 && f[0] == 0x68 && f[|f| - 1] == 0x16 && f[12..|f| - 2] == payload
    ensures IsAnswer(f, address, code, payload) <==> GoodAnswer(f, address, code)
  {
    hide Total;
  }

  /** Data are decoded exactly when the first candidate in the buffer is such an answer. */
  lemma DecodesExactly(buf: bytes, address: byte, code: byte, len: nat, payload: bytes)
    requires len >= 14
    ensures Decode(buf, address, code, len) == Some(payload) <==>
              exists i :: FirstCandidate(buf, 0x68, 0x16, len, i) && IsAnswer(buf[i..i + len], address, code, payload)
  {
    hide IsAnswer, GoodAnswer, FirstFrame;
    match FirstFrame(buf, 0x68, 0x16, len, 0) {
      case None =>
        forall i | FirstCandidate(buf, 0x68, 0x16, len, i) ensures false {
          FirstIs(buf, 0x68, 0x16, len, i);
        }
      case Some(at) =>
        FirstCandidateAt(buf, len, at);
        forall i | FirstCandidate(buf, 0x68, 0x16, len, i) ensures i == at {
          FirstIs(buf, 0x68, 0x16, len, i);
        }
        AnswerAt(buf, address, code, len, at, payload);
    }
  }

  lemma FirstCandidateAt(buf: bytes, len: nat, at: nat)
    requires len >= 14 && FirstFrame(buf, 0x68, 0x16, len, 0) == Some(at)
    ensures FirstCandidate(buf, 0x68, 0x16, len, at)
  {
  }

  lemma AnswerAt(buf: bytes, address: byte, code: byte, len: nat, at: nat, payload: bytes)
    requires len >= 14 && CandidateAt(buf, 0x68, 0x16, len, at)
    ensures IsAnswer(buf[at..at + len], address, code, payload) <==>
              GoodAnswer(buf[at..at + len], address, code) && payload == buf[at + 12..at + len - 2]
  {
    hide GoodAnswer, Total;
    var f := buf[at..at + len];
    SliceOfSlice(buf, at, at + len, 12, len - 2);
    GoodIsAnswer(f, address, code, f[12..len - 2]);
  }

  /** The same bytes are never an answer for two addresses or to two questions. */
  lemma OneAddressOnly(buf: bytes, a: byte, b: byte, c: byte, d: byte, len: nat)
    requires len >= 14 && Decode(buf, a, c, len).Some? && Decode(buf, b, d, len).Some?
    ensures a == b && c == d
  {
    DecodesExactly(buf, a, c, len, Decode(buf, a, c, len).value);
    DecodesExactly(buf, b, d, len, Decode(buf, b, d, len).value);
    hide Decode, IsAnswer;
    var i :| FirstCandidate(buf, 0x68, 0x16, len, i) && IsAnswer(buf[i..i + len], a, c, Decode(buf, a, c, len).value);
    var j :| FirstCandidate(buf, 0x68, 0x16, len, j) && IsAnswer(buf[j..j + len], b, d, Decode(buf, b, d, len).value);
    FirstIs(buf, 0x68, 0x16, len, i);
    FirstIs(buf, 0x68, 0x16, len, j);
    SameAddress(buf[i..i + len], a, b, c, d, Decode(buf, a, c, len).value, Decode(buf, b, d, len).value);
  }

  lemma SameAddress(f: bytes, a: byte, b: byte, c: byte, d: byte, p: bytes, q: bytes)
    requires IsAnswer(f, a, c, p) && IsAnswer(f, b, d, q)
    ensures a == b && c == d
  {
  }

  /** Behind any noise that starts no candidate of its own, a well-formed answer decodes to its data. */
  lemma AnswerDecoded(noise: bytes, f: bytes, tail: bytes, address: byte, code: byte, payload: bytes)
    requires IsAnswer(f, address, code, payload)
    requires Quiet(noise, f, tail, 0x68, 0x16)
    ensures Decode(noise + f + tail, address, code, |f|) == Some(payload)
  {
    GoodIsAnswer(f, address, code, payload);
    hide FirstFrame, SumCheck, GoodAnswer;
    FrameBehindNoise(noise, f, tail, 0x68, 0x16);
    var buf := noise + f + tail;
    assert buf[|noise|..|noise| + |f|] == f;
    assert buf[|noise| + 12..|noise| + |f| - 2] == f[12..|f| - 2];
  }

  /** One wrong byte anywhere in front of the closing delimiter and the answer is refused. */
  lemma CorruptAnswerRefused(f: bytes, address: byte, code: byte, i: nat, b: byte)
    requires |f| >= 14 && GoodAnswer(f, address, code) && i < |f| - 1 && b != f[i]
    ensures !GoodAnswer(f[i := b], address, code)
  {
    hide SumCheck;
    var n := |f| - 2;
    SameOrdinal(f[n], b);
    if i < n {
      SubstitutionNoticed(f[..n], i, b);
      assert f[i := b][..n] == f[..n][i := b];
    } else {
      assert f[i := b][..n] == f[..n];
    }
  }

  /** So on the line: an answer with one wrong byte between its delimiters is not decoded to
      anything, unless the noise now starts a candidate. */
  lemma CorruptLineRefused(noise: bytes, f: bytes, tail: bytes, address: byte, code: byte, i: nat, b: byte)
    requires |f| >= 14 && IsAnswer(f, address, code, f[12..|f| - 2])
    requires 0 < i < |f| - 1 && b != f[i]
    requires Quiet(noise, f[i := b], tail, 0x68, 0x16)
    ensures Decode(noise + f[i := b] + tail, address, code, |f|) == None
  {
    GoodIsAnswer(f, address, code, f[12..|f| - 2]);
    hide FirstFrame, GoodAnswer;
    var g := f[i := b];
    FrameBehindNoise(noise, g, tail, 0x68, 0x16);
    CorruptAnswerRefused(f, address, code, i, b);
    var buf := noise + g + tail;
    assert buf[|noise|..|noise| + |g|] == g;
  }

  /** A reading below 10^16 thousandths is read as itself off the line. */
  lemma TotalReadOffTheLine(noise: bytes, f: bytes, tail: bytes, address: byte, n: nat)
    requires n < 10_000_000_000_000_000 && IsAnswer(f, address, 0x03, Encode(n, 8))
    requires Quiet(noise, f, tail, 0x68, 0x16)
    ensures var p := Decode(noise + f + tail, address, 0x03, 22);
            p.Some? && |p.value| == 8 && MeterTotal(Repaired, p.value) == n
  {
    hide MeterTotal, Decode;
    AnswerDecoded(noise, f, tail, address, SUM_CODE, Encode(n, 8));
    TotalRoundTrip(n);
  }
}
