/** The example packet HJ 212-2017 prints for its CRC (Appendix A): a request for the reading
    interval, checksum 1C80. */
module PublishedPacket {
  import opened Bytes
  import opened Editions
  import opened NgxParse
  import opened Crc
  import opened CrcDetection
  import opened Frame

  // Eight characters a row.
  const ROW_0: bytes := [0x51, 0x4E, 0x3D, 0x32, 0x30, 0x31, 0x36, 0x30]  // QN=20160
  const ROW_1: bytes := [0x38, 0x30, 0x31, 0x30, 0x38, 0x35, 0x38, 0x35]  // 80108585
  const ROW_2: bytes := [0x37, 0x32, 0x32, 0x33, 0x3B, 0x53, 0x54, 0x3D]  // 7223;ST=
  const ROW_3: bytes := [0x33, 0x32, 0x3B, 0x43, 0x4E, 0x3D, 0x31, 0x30]  // 32;CN=10
  const ROW_4: bytes := [0x36, 0x32, 0x3B, 0x50, 0x57, 0x3D, 0x31, 0x30]  // 62;PW=10
  const ROW_5: bytes := [0x30, 0x30, 0x30, 0x30, 0x3B, 0x4D, 0x4E, 0x3D]  // 0000;MN=
  const ROW_6: bytes := [0x30, 0x31, 0x30, 0x30, 0x30, 0x30, 0x41, 0x38]  // 010000A8
  const ROW_7: bytes := [0x39, 0x30, 0x30, 0x30, 0x31, 0x36, 0x46, 0x30]  // 900016F0
  const ROW_8: bytes := [0x30, 0x30, 0x31, 0x36, 0x39, 0x44, 0x43, 0x30]  // 00169DC0
  const ROW_9: bytes := [0x3B, 0x46, 0x6C, 0x61, 0x67, 0x3D, 0x35, 0x3B]  // ;Flag=5;
  const ROW_A: bytes := [0x43, 0x50, 0x3D, 0x26, 0x26, 0x52, 0x74, 0x64]  // CP=&&Rtd
  const ROW_B: bytes := [0x49, 0x6E, 0x74, 0x65, 0x72, 0x76, 0x61, 0x6C]  // Interval
  const ROW_C: bytes := [0x3D, 0x33, 0x30, 0x26, 0x26]  // =30&&

  const SEGMENT: bytes := ROW_0 + ROW_1 + ROW_2 + ROW_3 + ROW_4 + ROW_5 + ROW_6 + ROW_7 + ROW_8 + ROW_9
                          + ROW_A + ROW_B + ROW_C

  /** The register from byte to byte. */
  ghost predicate Trace(w: bv16, s: bytes, regs: seq<bv16>)
    requires |s| == |regs| > 0
  {
    regs[0] == GbByte(w, s[0]) && forall i :: 0 < i < |s| ==> regs[i] == GbByte(regs[i - 1], s[i])
  }

  lemma {:induction false} TraceEnds(w: bv16, s: bytes, regs: seq<bv16>)
    requires |s| == |regs| > 0 && Trace(w, s, regs)
    ensures GbFrom(w, s) == regs[|s| - 1]
  {
    hide GbByte;
    var n := |s| - 1;
    if n > 0 {
      TraceEnds(w, s[..n], regs[..n]);
    } else {
      assert s[..0] == [] && GbFrom(w, []) == w;
    }
  }

  lemma EightBytes(w: bv16, s: bytes, r: seq<bv16>)
    requires |s| == |r| == 8 && r[0] == GbByte(w, s[0]) && r[1] == GbByte(r[0], s[1]) && r[2] == GbByte(r[1], s[2])
    requires r[3] == GbByte(r[2], s[3]) && r[4] == GbByte(r[3], s[4]) && r[5] == GbByte(r[4], s[5])
    requires r[6] == GbByte(r[5], s[6]) && r[7] == GbByte(r[6], s[7])
    ensures GbFrom(w, s) == r[7]
  {
    hide GbByte;
    TraceEnds(w, s, r);
  }

  lemma Row0()
    ensures GbFrom(0xFFFF, ROW_0) == 0xEE01
  {
    EightBytes(0xFFFF, ROW_0, [0xBC81, 0x8581, 0x7200, 0xF001, 0x5000, 0xE8C1, 0x5880, 0xEE01]);
  }

  lemma Row1()
    ensures GbFrom(0xEE01, ROW_1) == 0xF3C1
  {
    EightBytes(0xEE01, ROW_1, [0x9E81, 0xBC81, 0x65C0, 0x3FC0, 0xC241, 0x8641, 0x7080, 0xF3C1]);
  }

  lemma Row2()
    ensures GbFrom(0xF3C1, ROW_2) == 0x8581
  {
    EightBytes(0xF3C1, ROW_2, [0x9301, 0xB8C1, 0xA781, 0xAF01, 0xAF01, 0x4100, 0xCFC1, 0x8581]);
  }

  lemma Row3()
    ensures GbFrom(0x8581, ROW_3) == 0x7D00
  {
    EightBytes(0x8581, ROW_3, [0xB681, 0x6300, 0xFA01, 0xB2C1, 0x4100, 0xE101, 0x9C01, 0x7D00]);
  }

  lemma Row4()
    ensures GbFrom(0x7D00, ROW_4) == 0xDD01
  {
    EightBytes(0x7D00, ROW_4, [0x3740, 0x03C0, 0xD201, 0x6180, 0x1680, 0x1F40, 0x1C80, 0xDD01]);
  }

  lemma Row5()
    ensures GbFrom(0xDD01, ROW_5) == 0x7700
  {
    EightBytes(0xDD01, ROW_5, [0x4DC0, 0x21C0, 0x0CC0, 0x1100, 0xDF81, 0xAD81, 0x8941, 0x7700]);
  }

  lemma Row6()
    ensures GbFrom(0x7700, ROW_6) == 0xA9C1
  {
    EightBytes(0x7700, ROW_6, [0x3240, 0x0140, 0xD4C1, 0x4B00, 0x2340, 0xCD41, 0xA501, 0xA9C1]);
  }

  lemma Row7()
    ensures GbFrom(0xA9C1, ROW_7) == 0xAB41
  {
    EightBytes(0xA9C1, ROW_7, [0x6C00, 0x3900, 0x06C0, 0x1680, 0x1A40, 0xDD01, 0xAB41, 0xAB41]);
  }

  lemma Row8()
    ensures GbFrom(0xAB41, ROW_8) == 0x53C0
  {
    EightBytes(0xAB41, ROW_8, [0xAB41, 0xAB41, 0x6B80, 0xF9C1, 0x5000, 0x0F00, 0xF501, 0x53C0]);
  }

  lemma Row9()
    ensures GbFrom(0x53C0, ROW_9) == 0x5E40
  {
    EightBytes(0x53C0, ROW_9, [0xEE01, 0xBE01, 0x5D80, 0x1100, 0xE681, 0x5B40, 0xEC81, 0x5E40]);
  }

  lemma RowA()
    ensures GbFrom(0x5E40, ROW_A) == 0x8641
  {
    EightBytes(0x5E40, ROW_A, [0x09C0, 0x3AC0, 0xC241, 0x4B00, 0xEDC1, 0xB041, 0x9301, 0x8641]);
  }

  lemma RowB()
    ensures GbFrom(0x8641, ROW_B) == 0xB401
  {
    EightBytes(0x8641, ROW_B, [0x5440, 0x1380, 0xEA41, 0xA441, 0x9E81, 0x4E00, 0xDC41, 0xB401]);
  }

  lemma RowC()
    ensures GbFrom(0xB401, ROW_C) == 0x1C80
  {
    var regs := [0xA6C1, 0x6FC0, 0x3840, 0x0880, 0x1C80];
    assert Trace(0xB401, ROW_C, regs);
    TraceEnds(0xB401, ROW_C, regs);
  }

  lemma MoreRows(s: bytes, row: bytes)
    ensures Gb212(s + row) == GbFrom(Gb212(s), row)
  {
    GbFromConcat(0xFFFF, s, row);
  }

  /** The checksum of the published segment. */
  lemma PublishedChecksum()
    ensures |SEGMENT| == 101 && Gb212(SEGMENT) == 0x1C80
  {
    hide GbFrom, Gb212;
    StartValue(0);
    MoreRows([], ROW_0);
    assert [] + ROW_0 == ROW_0;
    Row0();
    Row1();
    Row2();
    Row3();
    Row4();
    Row5();
    Row6();
    Row7();
    Row8();
    Row9();
    RowA();
    RowB();
    RowC();
    MoreRows(ROW_0, ROW_1);
    MoreRows(ROW_0 + ROW_1, ROW_2);
    MoreRows(ROW_0 + ROW_1 + ROW_2, ROW_3);
    MoreRows(ROW_0 + ROW_1 + ROW_2 + ROW_3, ROW_4);
    MoreRows(ROW_0 + ROW_1 + ROW_2 + ROW_3 + ROW_4, ROW_5);
    MoreRows(ROW_0 + ROW_1 + ROW_2 + ROW_3 + ROW_4 + ROW_5, ROW_6);
    MoreRows(ROW_0 + ROW_1 + ROW_2 + ROW_3 + ROW_4 + ROW_5 + ROW_6, ROW_7);
    MoreRows(ROW_0 + ROW_1 + ROW_2 + ROW_3 + ROW_4 + ROW_5 + ROW_6 + ROW_7, ROW_8);
    MoreRows(ROW_0 + ROW_1 + ROW_2 + ROW_3 + ROW_4 + ROW_5 + ROW_6 + ROW_7 + ROW_8, ROW_9);
    MoreRows(ROW_0 + ROW_1 + ROW_2 + ROW_3 + ROW_4 + ROW_5 + ROW_6 + ROW_7 + ROW_8 + ROW_9, ROW_A);
    MoreRows(ROW_0 + ROW_1 + ROW_2 + ROW_3 + ROW_4 + ROW_5 + ROW_6 + ROW_7 + ROW_8 + ROW_9 + ROW_A, ROW_B);
    MoreRows(ROW_0 + ROW_1 + ROW_2 + ROW_3 + ROW_4 + ROW_5 + ROW_6 + ROW_7 + ROW_8 + ROW_9 + ROW_A + ROW_B, ROW_C);
  }

  /** Printable characters only. */
  predicate Printable(s: bytes) {
    forall i :: 0 <= i < |s| ==> s[i] >= 0x20
  }

  lemma MorePrintable(s: bytes, t: bytes)
    requires Printable(s) && Printable(t)
    ensures Printable(s + t)
  {
  }

  lemma PrintableRows0To3()
    ensures Printable(ROW_0)
    ensures Printable(ROW_1)
    ensures Printable(ROW_2)
    ensures Printable(ROW_3)
  {
  }

  lemma PrintableRows4To7()
    ensures Printable(ROW_4)
    ensures Printable(ROW_5)
    ensures Printable(ROW_6)
    ensures Printable(ROW_7)
  {
  }

  lemma PrintableRows8ToC()
    ensures Printable(ROW_8)
    ensures Printable(ROW_9)
    ensures Printable(ROW_A)
    ensures Printable(ROW_B)
    ensures Printable(ROW_C)
  {
  }

  lemma SegmentPrintable()
    ensures Printable(SEGMENT)
  {
    hide Printable;
    PrintableRows0To3();
    PrintableRows4To7();
    PrintableRows8ToC();
    MorePrintable(ROW_0, ROW_1);
    MorePrintable(ROW_0 + ROW_1, ROW_2);
    MorePrintable(ROW_0 + ROW_1 + ROW_2, ROW_3);
    MorePrintable(ROW_0 + ROW_1 + ROW_2 + ROW_3, ROW_4);
    MorePrintable(ROW_0 + ROW_1 + ROW_2 + ROW_3 + ROW_4, ROW_5);
    MorePrintable(ROW_0 + ROW_1 + ROW_2 + ROW_3 + ROW_4 + ROW_5, ROW_6);
    MorePrintable(ROW_0 + ROW_1 + ROW_2 + ROW_3 + ROW_4 + ROW_5 + ROW_6, ROW_7);
    MorePrintable(ROW_0 + ROW_1 + ROW_2 + ROW_3 + ROW_4 + ROW_5 + ROW_6 + ROW_7, ROW_8);
    MorePrintable(ROW_0 + ROW_1 + ROW_2 + ROW_3 + ROW_4 + ROW_5 + ROW_6 + ROW_7 + ROW_8, ROW_9);
    MorePrintable(ROW_0 + ROW_1 + ROW_2 + ROW_3 + ROW_4 + ROW_5 + ROW_6 + ROW_7 + ROW_8 + ROW_9, ROW_A);
    MorePrintable(ROW_0 + ROW_1 + ROW_2 + ROW_3 + ROW_4 + ROW_5 + ROW_6 + ROW_7 + ROW_8 + ROW_9 + ROW_A, ROW_B);
    MorePrintable(ROW_0 + ROW_1 + ROW_2 + ROW_3 + ROW_4 + ROW_5 + ROW_6 + ROW_7 + ROW_8 + ROW_9 + ROW_A + ROW_B, ROW_C);
  }

  lemma NoTerminator(s: bytes)
    requires Printable(s)
    ensures !Contains(s, CRLF)
  {
    forall i ensures !MatchesAt(s, CRLF, i) {
      assert 0 <= i <= |s| - 2 ==> s[i..i + 2][0] == s[i];
    }
  }

  lemma LengthDigits()
    ensures Dec4(101) == [0x30, 0x31, 0x30, 0x31]
  {
    hide Digit, Dec4;
    ZeroAndOne();
    FourDigits(101, 0, 1, 0, 1);
  }

  lemma ChecksumDigits()
    ensures Hex4(0x1C80) == [0x31, 0x43, 0x38, 0x30]
  {
  }

  /** The builder sends the packet as published, "##0101", the segment, "1C80", CR and LF, and the
      acceptor finds the segment in it. */
  lemma PublishedPacketAccepted(e: Edition)
    ensures |SEGMENT| == 101
    ensures Packet(SEGMENT, CRLF) ==
            [0x23, 0x23] + [0x30, 0x31, 0x30, 0x31] + SEGMENT + [0x31, 0x43, 0x38, 0x30] + [0x0D, 0x0A]
    ensures FrameVerdict(e, [0x0D, 0x0A], Packet(SEGMENT, CRLF)) == Accept(6, 107)
  {
    hide FrameVerdict, Gb212, Dec4, Hex4, Contains, Printable;
    PublishedChecksum();
    LengthDigits();
    ChecksumDigits();
    SegmentPrintable();
    NoTerminator(SEGMENT);
    SingleHash();
    BuiltPacketAccepted(e, CRLF, [], SEGMENT, []);
    assert [] + Packet(SEGMENT, CRLF) + [] == Packet(SEGMENT, CRLF);
  }
}
