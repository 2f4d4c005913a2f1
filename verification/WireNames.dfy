/** The field names as the platform spells them, and which spellings the terminal recognises. */
module WireNames {
  import opened Bytes
  import opened Fields
  import opened FieldTable

  /** The spelling HJ 212 uses for each key of the table, in bytes; PN0 ends in the digit zero, as
      the table has it. */
  function WireName(k: Key): (name: bytes)
    requires !k.Other?
    ensures name != []
  {
    match k
    case Mn => [0x4D, 0x4E]  // MN
    case St => [0x53, 0x54]  // ST
    case Cn => [0x43, 0x4E]  // CN
    case Qn => [0x51, 0x4E]  // QN
    case Pw => [0x50, 0x57]  // PW
    case Pn0 => [0x50, 0x4E, 0x30]  // PN0
    case Flag => [0x46, 0x6C, 0x61, 0x67]  // Flag
    case Pnum => [0x50, 0x4E, 0x55, 0x4D]  // PNUM
    case PolId => [0x50, 0x6F, 0x6C, 0x49, 0x64]  // PolId
    case CardNo => [0x43, 0x61, 0x72, 0x64, 0x4E, 0x6F]  // CardNo
    case EndTime => [0x45, 0x6E, 0x64, 0x54, 0x69, 0x6D, 0x65]  // EndTime
    case ReCount => [0x52, 0x65, 0x43, 0x6F, 0x75, 0x6E, 0x74]  // ReCount
    case WarnTime => [0x57, 0x61, 0x72, 0x6E, 0x54, 0x69, 0x6D, 0x65]  // WarnTime
    case OverTime => [0x4F, 0x76, 0x65, 0x72, 0x54, 0x69, 0x6D, 0x65]  // OverTime
    case CardType => [0x43, 0x61, 0x72, 0x64, 0x54, 0x79, 0x70, 0x65]  // CardType
    case BeginTime => [0x42, 0x65, 0x67, 0x69, 0x6E, 0x54, 0x69, 0x6D, 0x65]  // BeginTime
    case SystemTime => [0x53, 0x79, 0x73, 0x74, 0x65, 0x6D, 0x54, 0x69, 0x6D, 0x65]  // SystemTime
    case ReportTime => [0x52, 0x65, 0x70, 0x6F, 0x72, 0x74, 0x54, 0x69, 0x6D, 0x65]  // ReportTime
    case AlarmTarget => [0x41, 0x6C, 0x61, 0x72, 0x6D, 0x54, 0x61, 0x72, 0x67, 0x65, 0x74]  // AlarmTarget
    case RtdInterval => [0x52, 0x74, 0x64, 0x49, 0x6E, 0x74, 0x65, 0x72, 0x76, 0x61, 0x6C]  // RtdInterval
  }

  /** The two cases of one letter, or the same byte. */
  predicate SameLetter(a: byte, b: byte) {
    a == b || (0x41 <= a <= 0x5A && b == a + 0x20) || (0x41 <= b <= 0x5A && a == b + 0x20)
  }

  predicate SameButCase(s: bytes, t: bytes) {
    |s| == |t| && forall i :: 0 <= i < |s| ==> SameLetter(s[i], t[i])
  }

  lemma FoldedAlike(a: byte, b: byte)
    ensures ToLower(a) == ToLower(b) <==> SameLetter(a, b)
  {
  }

  /** Names without '=' fold alike exactly when they differ in case alone. */
  lemma LoweredAlike(s: bytes, t: bytes)
    requires EQUALS !in s && EQUALS !in t
    ensures Lowered(s) == Lowered(t) <==> SameButCase(s, t)
  {
    hide ToLower, SameLetter;
    NoEqualsFolded(s);
    NoEqualsFolded(t);
    forall a: byte, b: byte ensures ToLower(a) == ToLower(b) <==> SameLetter(a, b) {
      FoldedAlike(a, b);
    }
    if Lowered(s) == Lowered(t) {
      forall i | 0 <= i < |s| ensures SameLetter(s[i], t[i]) {
        assert Lowered(s)[i] == Lowered(t)[i];
      }
    }
  }

  lemma NoEqualsFolded(s: bytes)
    requires EQUALS !in s
    ensures forall i :: 0 <= i < |s| ==> Lowered(s)[i] == ToLower(s[i])
  {
    forall i | 0 <= i < |s| ensures EQUALS !in s[..i] {
    }
  }

  lemma FoldsTo(s: bytes, t: bytes)
    requires |s| == |t| > 0 && EQUALS !in s && forall i :: 0 <= i < |s| ==> ToLower(s[i]) == t[i]
    requires forall i :: 0 <= i < |s| ==> !IsDelimiter(s[i])
    ensures Lowered(s) == t && IsName(s)
  {
    NoEqualsFolded(s);
  }

  lemma MnFolded()
    ensures Lowered(WireName(Mn)) == Spelling(Mn) && EQUALS !in WireName(Mn) && IsName(WireName(Mn))
  {
    FoldsTo(WireName(Mn), Spelling(Mn));
  }

  lemma StFolded()
    ensures Lowered(WireName(St)) == Spelling(St) && EQUALS !in WireName(St) && IsName(WireName(St))
  {
    FoldsTo(WireName(St), Spelling(St));
  }

  lemma CnFolded()
    ensures Lowered(WireName(Cn)) == Spelling(Cn) && EQUALS !in WireName(Cn) && IsName(WireName(Cn))
  {
    FoldsTo(WireName(Cn), Spelling(Cn));
  }

  lemma QnFolded()
    ensures Lowered(WireName(Qn)) == Spelling(Qn) && EQUALS !in WireName(Qn) && IsName(WireName(Qn))
  {
    FoldsTo(WireName(Qn), Spelling(Qn));
  }

  lemma PwFolded()
    ensures Lowered(WireName(Pw)) == Spelling(Pw) && EQUALS !in WireName(Pw) && IsName(WireName(Pw))
  {
    FoldsTo(WireName(Pw), Spelling(Pw));
  }

  lemma Pn0Folded()
    ensures Lowered(WireName(Pn0)) == Spelling(Pn0) && EQUALS !in WireName(Pn0) && IsName(WireName(Pn0))
  {
    FoldsTo(WireName(Pn0), Spelling(Pn0));
  }

  lemma FlagFolded()
    ensures Lowered(WireName(Flag)) == Spelling(Flag) && EQUALS !in WireName(Flag) && IsName(WireName(Flag))
  {
    FoldsTo(WireName(Flag), Spelling(Flag));
  }

  lemma PnumFolded()
    ensures Lowered(WireName(Pnum)) == Spelling(Pnum) && EQUALS !in WireName(Pnum) && IsName(WireName(Pnum))
  {
    FoldsTo(WireName(Pnum), Spelling(Pnum));
  }

  lemma PolIdFolded()
    ensures Lowered(WireName(PolId)) == Spelling(PolId) && EQUALS !in WireName(PolId) && IsName(WireName(PolId))
  {
    FoldsTo(WireName(PolId), Spelling(PolId));
  }

  lemma CardNoFolded()
    ensures Lowered(WireName(CardNo)) == Spelling(CardNo) && EQUALS !in WireName(CardNo) && IsName(WireName(CardNo))
  {
    FoldsTo(WireName(CardNo), Spelling(CardNo));
  }

  lemma EndTimeFolded()
    ensures Lowered(WireName(EndTime)) == Spelling(EndTime) && EQUALS !in WireName(EndTime) && IsName(WireName(EndTime))
  {
    FoldsTo(WireName(EndTime), Spelling(EndTime));
  }

  lemma ReCountFolded()
    ensures Lowered(WireName(ReCount)) == Spelling(ReCount) && EQUALS !in WireName(ReCount) && IsName(WireName(ReCount))
  {
    FoldsTo(WireName(ReCount), Spelling(ReCount));
  }

  lemma WarnTimeFolded()
    ensures Lowered(WireName(WarnTime)) == Spelling(WarnTime) && EQUALS !in WireName(WarnTime)
            && IsName(WireName(WarnTime))
  {
    FoldsTo(WireName(WarnTime), Spelling(WarnTime));
  }

  lemma OverTimeFolded()
    ensures Lowered(WireName(OverTime)) == Spelling(OverTime) && EQUALS !in WireName(OverTime)
            && IsName(WireName(OverTime))
  {
    FoldsTo(WireName(OverTime), Spelling(OverTime));
  }

  lemma CardTypeFolded()
    ensures Lowered(WireName(CardType)) == Spelling(CardType) && EQUALS !in WireName(CardType)
            && IsName(WireName(CardType))
  {
    FoldsTo(WireName(CardType), Spelling(CardType));
  }

  lemma BeginTimeFolded()
    ensures Lowered(WireName(BeginTime)) == Spelling(BeginTime) && EQUALS !in WireName(BeginTime)
            && IsName(WireName(BeginTime))
  {
    FoldsTo(WireName(BeginTime), Spelling(BeginTime));
  }

  lemma SystemTimeFolded()
    ensures Lowered(WireName(SystemTime)) == Spelling(SystemTime) && EQUALS !in WireName(SystemTime)
            && IsName(WireName(SystemTime))
  {
    FoldsTo(WireName(SystemTime), Spelling(SystemTime));
  }

  lemma ReportTimeFolded()
    ensures Lowered(WireName(ReportTime)) == Spelling(ReportTime) && EQUALS !in WireName(ReportTime)
            && IsName(WireName(ReportTime))
  {
    FoldsTo(WireName(ReportTime), Spelling(ReportTime));
  }

  lemma AlarmTargetFolded()
    ensures Lowered(WireName(AlarmTarget)) == Spelling(AlarmTarget) && EQUALS !in WireName(AlarmTarget)
            && IsName(WireName(AlarmTarget))
  {
    FoldsTo(WireName(AlarmTarget), Spelling(AlarmTarget));
  }

  lemma RtdIntervalFolded()
    ensures Lowered(WireName(RtdInterval)) == Spelling(RtdInterval) && EQUALS !in WireName(RtdInterval)
            && IsName(WireName(RtdInterval))
  {
    FoldsTo(WireName(RtdInterval), Spelling(RtdInterval));
  }

  lemma WireNameFolds(k: Key)
    requires !k.Other?
    ensures Lowered(WireName(k)) == Spelling(k) && EQUALS !in WireName(k) && IsName(WireName(k))
  {
    hide Lowered, WireName, Spelling, IsName;
    match k
    case Mn => MnFolded();
    case St => StFolded();
    case Cn => CnFolded();
    case Qn => QnFolded();
    case Pw => PwFolded();
    case Pn0 => Pn0Folded();
    case Flag => FlagFolded();
    case Pnum => PnumFolded();
    case PolId => PolIdFolded();
    case CardNo => CardNoFolded();
    case EndTime => EndTimeFolded();
    case ReCount => ReCountFolded();
    case WarnTime => WarnTimeFolded();
    case OverTime => OverTimeFolded();
    case CardType => CardTypeFolded();
    case BeginTime => BeginTimeFolded();
    case SystemTime => SystemTimeFolded();
    case ReportTime => ReportTimeFolded();
    case AlarmTarget => AlarmTargetFolded();
    case RtdInterval => RtdIntervalFolded();
  }

  /** A name with '=' is folded to one with '=', which no key is. */
  lemma EqualsStays(name: bytes, t: bytes)
    requires EQUALS in name && EQUALS !in t
    ensures Lowered(name) != Lowered(t) && !SameButCase(name, t)
  {
    var i :| 0 <= i < |name| && name[i] == EQUALS;
    NoEqualsFolded(t);
    FoldedEquals();
    if |name| == |t| {
      assert Lowered(name)[i] == EQUALS && Lowered(t)[i] == ToLower(t[i]);
    }
  }

  lemma FoldedEquals()
    ensures forall b: byte :: ToLower(b) == EQUALS <==> b == EQUALS
    ensures forall b: byte :: SameLetter(EQUALS, b) <==> b == EQUALS
  {
  }

  /** A name is recognised as a key exactly when it is the key's published spelling, in any mix of
      upper and lower case. */
  lemma RecognisedExactly(name: bytes, k: Key)
    requires !k.Other?
    ensures KeyOf(Lowered(name)) == k <==> SameButCase(name, WireName(k))
  {
    hide Lowered, KeyOf, SameButCase, WireName, Spelling;
    WireNameFolds(k);
    KeyOfExact(Lowered(name), k);
    if EQUALS in name {
      EqualsStays(name, WireName(k));
    } else {
      LoweredAlike(name, WireName(k));
    }
  }

  lemma ThreeLetters(k: Key)
    requires !k.Other?
    ensures !SameButCase([0x50, 0x4E, 0x4F], WireName(k))
  {
    if k.Pn0? {
      assert !SameLetter(0x4F, 0x30);
      assert [0x50, 0x4E, 0x4F as byte][2] == 0x4F && WireName(k)[2] == 0x30;
    }
  }

  /** The packet number is called PNO, with the letter O, in the standard: such a field is ignored. */
  lemma PnoUnknown()
    ensures KeyOf(Lowered([0x50, 0x4E, 0x4F])) == Other
  {
    hide Lowered, KeyOf;
    var k := KeyOf(Lowered([0x50, 0x4E, 0x4F]));
    if !k.Other? {
      RecognisedExactly([0x50, 0x4E, 0x4F], k);
      ThreeLetters(k);
    }
  }
}
