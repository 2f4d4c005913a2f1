/** The field table of parse_url: what each recognised field does to the parsed arguments. */
module FieldTable {
  import opened Bytes
  import opened Editions
  import opened NgxParse
  import opened Fields

  /** The part of the shared parameter block the protocol reads and writes. */
  datatype GeneralPara = GeneralPara(mn: bytes, pw: bytes, stType: byte, overTime: nat, reCount: nat)

  datatype Args = Args(
    mnFlag: nat, cn: int, st: int, qn: bytes, pw: bytes, flag: nat, pnum: nat, pno: nat,
    reCount: int, warnTime: int, overTime: int, reportTime: int, rtdInterval: int,
    cardNo: bytes, polId: bytes, systemTime: bytes, beginTime: bytes, endTime: bytes, alarmTarget: bytes)

  const ZEROED := Args(0, 0, 0, [], [], 0, 0, 0, 0, 0, 0, 0, 0, [], [], [], [], [], [])

  const QN_LEN := 17
  const MN_LEN := 25

  const KEY_MN: bytes := [0x6D, 0x6E]
  const KEY_ST: bytes := [0x73, 0x74]
  const KEY_CN: bytes := [0x63, 0x6E]
  const KEY_QN: bytes := [0x71, 0x6E]
  const KEY_PW: bytes := [0x70, 0x77]
  const KEY_PN0: bytes := [0x70, 0x6E, 0x30]
  const KEY_FLAG: bytes := [0x66, 0x6C, 0x61, 0x67]
  const KEY_PNUM: bytes := [0x70, 0x6E, 0x75, 0x6D]
  const KEY_POLID: bytes := [0x70, 0x6F, 0x6C, 0x69, 0x64]
  const KEY_CARDNO: bytes := [0x63, 0x61, 0x72, 0x64, 0x6E, 0x6F]
  const KEY_ENDTIME: bytes := [0x65, 0x6E, 0x64, 0x74, 0x69, 0x6D, 0x65]
  const KEY_RECOUNT: bytes := [0x72, 0x65, 0x63, 0x6F, 0x75, 0x6E, 0x74]
  const KEY_WARNTIME: bytes := [0x77, 0x61, 0x72, 0x6E, 0x74, 0x69, 0x6D, 0x65]
  const KEY_OVERTIME: bytes := [0x6F, 0x76, 0x65, 0x72, 0x74, 0x69, 0x6D, 0x65]
  const KEY_CARDTYPE: bytes := [0x63, 0x61, 0x72, 0x64, 0x74, 0x79, 0x70, 0x65]
  const KEY_BEGINTIME: bytes := [0x62, 0x65, 0x67, 0x69, 0x6E, 0x74, 0x69, 0x6D, 0x65]
  const KEY_SYSTEMTIME: bytes := [0x73, 0x79, 0x73, 0x74, 0x65, 0x6D, 0x74, 0x69, 0x6D, 0x65]
  const KEY_REPORTTIME: bytes := [0x72, 0x65, 0x70, 0x6F, 0x72, 0x74, 0x74, 0x69, 0x6D, 0x65]
  const KEY_ALARMTARGET: bytes := [0x61, 0x6C, 0x61, 0x72, 0x6D, 0x74, 0x61, 0x72, 0x67, 0x65, 0x74]
  const KEY_RTDINTERVAL: bytes := [0x72, 0x74, 0x64, 0x69, 0x6E, 0x74, 0x65, 0x72, 0x76, 0x61, 0x6C]

  // ---- Packed key comparison ------------------------------------------------------------

  /** What `*(uint32_t *)(m + at)` holds once masked to n bytes, on a little-endian machine. */
  function Word(m: bytes, at: nat, n: nat): nat
    requires at + n <= |m|
    decreases n
  {
    if n == 0 then 0 else (m[at] as int) + 256 * Word(m, at + 1, n - 1)
  }

  predicate SameWords(m: bytes, key: bytes, at: nat)
    requires |m| == |key| && at <= |key|
    decreases |key| - at
  {
    at == |key| ||
    var n := if |key| - at < 4 then |key| - at else 4;
    Word(m, at, n) == Word(key, at, n) && SameWords(m, key, at + n)
  }

  /** The ngx_strNcmp macros, four bytes at a time, behind the switch on the name's length. */
  predicate KeyIs(m: bytes, key: bytes) {
    |m| == |key| && SameWords(m, key, 0)
  }

  lemma {:induction false} SameWord(m: bytes, key: bytes, at: nat, n: nat)
    requires |m| == |key| && at + n <= |m|
    ensures Word(m, at, n) == Word(key, at, n) <==> m[at..at + n] == key[at..at + n]
    decreases n
  {
    if n > 0 {
      SameWord(m, key, at + 1, n - 1);
      LowByte(m[at], Word(m, at + 1, n - 1), key[at], Word(key, at + 1, n - 1));
      var x, y := m[at..at + n], key[at..at + n];
      assert x[1..] == m[at + 1..at + n] && y[1..] == key[at + 1..at + n];
      assert x == [x[0]] + x[1..] && y == [y[0]] + y[1..];
    }
  }

  lemma LowByte(a: byte, x: nat, b: byte, y: nat)
    ensures a as int + 256 * x == b as int + 256 * y <==> a == b && x == y
  {
    LowDigit(a as int, x, b as int, y);
    SameOrdinal(a, b);
  }

  lemma LowDigit(a: nat, x: nat, b: nat, y: nat)
    requires a < 256 && b < 256
    ensures a + 256 * x == b + 256 * y <==> a == b && x == y
  {
  }

  lemma {:induction false} SameWordsIsEquality(m: bytes, key: bytes, at: nat)
    requires |m| == |key| && at <= |key|
    ensures SameWords(m, key, at) <==> m[at..] == key[at..]
    decreases |key| - at
  {
    if at < |key| {
      var n := if |key| - at < 4 then |key| - at else 4;
      SameWord(m, key, at, n);
      SameWordsIsEquality(m, key, at + n);
      assert m[at..] == m[at..at + n] + m[at + n..];
      assert key[at..] == key[at..at + n] + key[at + n..];
    }
  }

  /** Comparing packed words is comparing names. */
  lemma KeyIsExact(m: bytes, key: bytes)
    ensures KeyIs(m, key) <==> m == key
  {
    if |m| == |key| {
      SameWordsIsEquality(m, key, 0);
    }
  }

  // ---- The table ------------------------------------------------------------------------

  /** `sizeof("...")` as written, the intended width when repaired. */
  function Width(e: Edition, n: nat): nat {
    if e.AsWritten? then n + 1 else n
  }

  function Uint8(v: int): nat {
    v % 256
  }

  predicate NumberText(e: Edition, v: bytes, width: nat) {
    |v| == Width(e, width) && AllDigits(v)
  }

  predicate ShortNumber(v: bytes, maxLen: nat) {
    1 <= |v| <= maxLen && Atoi(v) != NGX_ERROR
  }

  /** `value.len > 0 ||` as written; repaired, the test is for an empty value. */
  predicate LengthRefused(e: Edition, v: bytes) {
    if e.AsWritten? then |v| > 0 else |v| == 0
  }

  /** As written strcmp runs from the value to the end of the message. */
  predicate MnMatches(e: Edition, para: GeneralPara, f: Field) {
    |f.value| == MN_LEN - 1 && para.mn == if e.AsWritten? then f.rest else f.value
  }

  /** The fields the table knows. */
  datatype Key = Mn | St | Cn | Qn | Pw | Pn0 | Flag | Pnum | PolId | CardNo | EndTime | ReCount | WarnTime | OverTime
               | CardType | BeginTime | SystemTime | ReportTime | AlarmTarget | RtdInterval | Other

  function Spelling(k: Key): bytes
    requires !k.Other?
  {
    match k
    case Mn => KEY_MN
    case St => KEY_ST
    case Cn => KEY_CN
    case Qn => KEY_QN
    case Pw => KEY_PW
    case Pn0 => KEY_PN0
    case Flag => KEY_FLAG
    case Pnum => KEY_PNUM
    case PolId => KEY_POLID
    case CardNo => KEY_CARDNO
    case EndTime => KEY_ENDTIME
    case ReCount => KEY_RECOUNT
    case WarnTime => KEY_WARNTIME
    case OverTime => KEY_OVERTIME
    case CardType => KEY_CARDTYPE
    case BeginTime => KEY_BEGINTIME
    case SystemTime => KEY_SYSTEMTIME
    case ReportTime => KEY_REPORTTIME
    case AlarmTarget => KEY_ALARMTARGET
    case RtdInterval => KEY_RTDINTERVAL
  }

  /** The switch on the name's length and the comparisons under each length. */
  function KeyOf(name: bytes): Key {
    if |name| == 2 then
      if KeyIs(name, KEY_MN) then Mn else if KeyIs(name, KEY_ST) then St else if KeyIs(name, KEY_CN) then Cn
      else if KeyIs(name, KEY_QN) then Qn else if KeyIs(name, KEY_PW) then Pw else Other
    else if |name| == 3 then
      if KeyIs(name, KEY_PN0) then Pn0 else Other
    else if |name| == 4 then
      if KeyIs(name, KEY_FLAG) then Flag else if KeyIs(name, KEY_PNUM) then Pnum else Other
    else if |name| == 5 then
      if KeyIs(name, KEY_POLID) then PolId else Other
    else if |name| == 6 then
      if KeyIs(name, KEY_CARDNO) then CardNo else Other
    else if |name| == 7 then
      if KeyIs(name, KEY_ENDTIME) then EndTime else if KeyIs(name, KEY_RECOUNT) then ReCount else Other
    else if |name| == 8 then
      if KeyIs(name, KEY_WARNTIME) then WarnTime else if KeyIs(name, KEY_OVERTIME) then OverTime
      else if KeyIs(name, KEY_CARDTYPE) then CardType else Other
    else if |name| == 9 then
      if KeyIs(name, KEY_BEGINTIME) then BeginTime else Other
    else if |name| == 10 then
      if KeyIs(name, KEY_SYSTEMTIME) then SystemTime else if KeyIs(name, KEY_REPORTTIME) then ReportTime else Other
    else if |name| == 11 then
      if KeyIs(name, KEY_ALARMTARGET) then AlarmTarget else if KeyIs(name, KEY_RTDINTERVAL) then RtdInterval else Other
    else Other
  }

  lemma SpellingKnown(k: Key)
    requires !k.Other?
    ensures KeyOf(Spelling(k)) == k
  {
    hide KeyIs;
    forall name: bytes, key: bytes ensures KeyIs(name, key) <==> name == key {
      KeyIsExact(name, key);
    }
  }

  /** Every name is recognised by its spelling and by nothing else. */
  lemma KeyOfExact(name: bytes, k: Key)
    requires !k.Other?
    ensures KeyOf(name) == k <==> name == Spelling(k)
  {
    hide KeyIs;
    SpellingKnown(k);
    forall key: bytes ensures KeyIs(name, key) <==> name == key {
      KeyIsExact(name, key);
    }
  }

  /** One pass through the switch; None is `return TINZ_ERROR`. */
  function ApplyField(e: Edition, para: GeneralPara, a: Args, f: Field): Option<Args> {
    var v := f.value;
    match KeyOf(f.name)
    case Mn => if MnMatches(e, para, f) then Some(a.(mnFlag := 1)) else None
    case St => if para.stType as int == Atoi(v) then Some(a.(st := Atoi(v))) else None
    case Cn => if Atoi(v) != NGX_ERROR then Some(a.(cn := Atoi(v))) else None
    case Qn => if NumberText(e, v, QN_LEN) then Some(a.(qn := v)) else None
    case Pw => if |v| == Width(e, 6) then Some(a.(pw := v)) else None
    case Pn0 => if LengthRefused(e, v) then None else Some(a.(pno := Uint8(Atoi(v))))
    case Flag => if LengthRefused(e, v) then None else Some(a.(flag := Uint8(Atoi(v))))
    case Pnum => if LengthRefused(e, v) then None else Some(a.(pnum := Uint8(Atoi(v))))
    case PolId => Some(a.(polId := v))
    case CardNo => Some(a.(cardNo := v))
    case EndTime => if NumberText(e, v, 14) then Some(a.(endTime := v)) else None
    case ReCount => if ShortNumber(v, 2) then Some(a.(reCount := Atoi(v))) else None
    case WarnTime => if ShortNumber(v, 5) then Some(a.(warnTime := Atoi(v))) else None
    case OverTime => if ShortNumber(v, 5) then Some(a.(overTime := Atoi(v))) else None
    case BeginTime => if NumberText(e, v, 14) then Some(a.(beginTime := v)) else None
    case SystemTime => if NumberText(e, v, 14) then Some(a.(systemTime := v)) else None
    case ReportTime => if ShortNumber(v, 4) then Some(a.(reportTime := Atoi(v))) else None
    case AlarmTarget => Some(a.(alarmTarget := v))
    case RtdInterval => if ShortNumber(v, 4) then Some(a.(rtdInterval := Atoi(v))) else None
    case CardType => Some(a)
    case Other => Some(a)
  }

  function ApplyAll(e: Edition, para: GeneralPara, a: Args, fs: seq<Field>): Option<Args>
    decreases |fs|
  {
    if fs == [] then Some(a) else
    match ApplyField(e, para, a, fs[0])
    case None => None
    case Some(b) => ApplyAll(e, para, b, fs[1..])
  }

  lemma {:induction false} ApplyAllConcat(e: Edition, para: GeneralPara, a: Args, fs: seq<Field>, gs: seq<Field>)
    ensures ApplyAll(e, para, a, fs + gs) ==
            match ApplyAll(e, para, a, fs) case None => None case Some(b) => ApplyAll(e, para, b, gs)
    decreases |fs|
  {
    hide ApplyField;
    if fs == [] {
      assert fs + gs == gs;
    } else {
      assert (fs + gs)[1..] == fs[1..] + gs;
      match ApplyField(e, para, a, fs[0]) {
        case None =>
        case Some(b) => ApplyAllConcat(e, para, b, fs[1..], gs);
      }
    }
  }

  // ---- What acceptance means ------------------------------------------------------------

  /** The constraint each recognised key puts on its value. */
  ghost predicate WellFormed(e: Edition, para: GeneralPara, f: Field) {
    var k := KeyOf(f.name);
    && (k.Mn? ==> MnMatches(e, para, f))
    && (k.St? ==> Atoi(f.value) == para.stType as int)
    && (k.Cn? ==> Atoi(f.value) != NGX_ERROR)
    && (k.Qn? ==> NumberText(e, f.value, QN_LEN))
    && (k.Pw? ==> |f.value| == Width(e, 6))
    && (k.Pn0? || k.Flag? || k.Pnum? ==> !LengthRefused(e, f.value))
    && (k.BeginTime? || k.EndTime? || k.SystemTime? ==> NumberText(e, f.value, 14))
    && (k.ReCount? ==> ShortNumber(f.value, 2))
    && (k.WarnTime? || k.OverTime? ==> ShortNumber(f.value, 5))
    && (k.ReportTime? || k.RtdInterval? ==> ShortNumber(f.value, 4))
  }

  lemma FieldTaken(e: Edition, para: GeneralPara, a: Args, f: Field)
    ensures ApplyField(e, para, a, f).Some? <==> WellFormed(e, para, f)
  {
    hide KeyOf, Atoi, NumberText, ShortNumber, MnMatches, Width, LengthRefused;
  }

  /** The three `uint8_t` fields: as written every value that is not empty is refused; repaired, the
      empty one is, and one that is no number is stored as 255, because a byte never equals -1. */
  lemma SmallFields(e: Edition, para: GeneralPara, a: Args, f: Field)
    ensures var v := if Atoi(f.value) == NGX_ERROR then 255 else Atoi(f.value) % 256;
            if (f.value != [] && e.AsWritten?) || (f.value == [] && e.Repaired?)
            then KeyOf(f.name) in {Flag, Pnum, Pn0} ==> ApplyField(e, para, a, f) == None
            else
              && (KeyOf(f.name) == Flag ==> ApplyField(e, para, a, f) == Some(a.(flag := v)))
              && (KeyOf(f.name) == Pnum ==> ApplyField(e, para, a, f) == Some(a.(pnum := v)))
              && (KeyOf(f.name) == Pn0 ==> ApplyField(e, para, a, f) == Some(a.(pno := v)))
  {
    hide KeyOf, Atoi, NumberText, ShortNumber, MnMatches, Width;
  }

  /** A segment is taken iff every field in it meets its key's constraint. */
  lemma {:induction false} AllTaken(e: Edition, para: GeneralPara, a: Args, fs: seq<Field>)
    ensures ApplyAll(e, para, a, fs).Some? <==> forall i :: 0 <= i < |fs| ==> WellFormed(e, para, fs[i])
    decreases |fs|
  {
    hide ApplyField, WellFormed;
    if fs != [] {
      FieldTaken(e, para, a, fs[0]);
      match ApplyField(e, para, a, fs[0]) {
        case None =>
        case Some(b) =>
          AllTaken(e, para, b, fs[1..]);
          assert forall i :: 0 < i < |fs| ==> fs[i] == fs[1..][i - 1];
      }
    }
  }

  /** The value a repeated key ends up with. */
  function LastValue(fs: seq<Field>, key: Key): Option<bytes>
    decreases |fs|
  {
    if fs == [] then None
    else if LastValue(fs[1..], key).Some? then LastValue(fs[1..], key)
    else if KeyOf(fs[0].name) == key then Some(fs[0].value)
    else None
  }

  function TextOr(v: Option<bytes>, before: bytes): bytes {
    if v.Some? then v.value else before
  }

  function NumberOr(v: Option<bytes>, before: int): int {
    if v.Some? then Atoi(v.value) else before
  }

  function SmallOr(v: Option<bytes>, before: nat): nat {
    if v.Some? then Uint8(Atoi(v.value)) else before
  }

  /** `b` is `a` overwritten by the fields' last values. */
  ghost predicate Overwritten(a: Args, b: Args, fs: seq<Field>) {
    && b.qn == TextOr(LastValue(fs, Qn), a.qn)
    && b.polId == TextOr(LastValue(fs, PolId), a.polId)
    && b.mnFlag == (if LastValue(fs, Mn).Some? then 1 else a.mnFlag)
    && b.cn == NumberOr(LastValue(fs, Cn), a.cn)
    && b.st == NumberOr(LastValue(fs, St), a.st)
    && b.overTime == NumberOr(LastValue(fs, OverTime), a.overTime)
    && b.reCount == NumberOr(LastValue(fs, ReCount), a.reCount)
    && b.flag == SmallOr(LastValue(fs, Flag), a.flag)
    && OthersOverwritten(a, b, fs)
  }

  /** The same for the arguments no modelled command uses. */
  ghost predicate OthersOverwritten(a: Args, b: Args, fs: seq<Field>) {
    && b.pw == TextOr(LastValue(fs, Pw), a.pw)
    && b.cardNo == TextOr(LastValue(fs, CardNo), a.cardNo)
    && b.systemTime == TextOr(LastValue(fs, SystemTime), a.systemTime)
    && b.beginTime == TextOr(LastValue(fs, BeginTime), a.beginTime)
    && b.endTime == TextOr(LastValue(fs, EndTime), a.endTime)
    && b.alarmTarget == TextOr(LastValue(fs, AlarmTarget), a.alarmTarget)
    && b.warnTime == NumberOr(LastValue(fs, WarnTime), a.warnTime)
    && b.reportTime == NumberOr(LastValue(fs, ReportTime), a.reportTime)
    && b.rtdInterval == NumberOr(LastValue(fs, RtdInterval), a.rtdInterval)
    && b.pnum == SmallOr(LastValue(fs, Pnum), a.pnum)
    && b.pno == SmallOr(LastValue(fs, Pn0), a.pno)
  }

  lemma LastOfOne(f: Field, key: Key)
    ensures LastValue([f], key) == if KeyOf(f.name) == key then Some(f.value) else None
  {
    hide KeyOf;
    assert [f][1..] == [];
  }

  lemma OneFieldOverwrites(e: Edition, para: GeneralPara, a: Args, f: Field)
    requires ApplyField(e, para, a, f).Some?
    ensures Overwritten(a, ApplyField(e, para, a, f).value, [f])
  {
    hide LastValue, KeyOf, Atoi, NumberText, ShortNumber, MnMatches, Width, LengthRefused;
    LastOfOne(f, Qn);
    LastOfOne(f, PolId);
    LastOfOne(f, Mn);
    LastOfOne(f, Cn);
    LastOfOne(f, St);
    LastOfOne(f, OverTime);
    LastOfOne(f, ReCount);
    LastOfOne(f, Flag);
    OneFieldOverwritesOthers(e, para, a, f);
    hide OthersOverwritten;
  }

  lemma OneFieldOverwritesOthers(e: Edition, para: GeneralPara, a: Args, f: Field)
    requires ApplyField(e, para, a, f).Some?
    ensures OthersOverwritten(a, ApplyField(e, para, a, f).value, [f])
  {
    hide LastValue, KeyOf, Atoi, NumberText, ShortNumber, MnMatches, Width, LengthRefused;
    LastOfOne(f, Pw);
    LastOfOne(f, CardNo);
    LastOfOne(f, SystemTime);
    LastOfOne(f, BeginTime);
    LastOfOne(f, EndTime);
    LastOfOne(f, AlarmTarget);
    LastOfOne(f, WarnTime);
    LastOfOne(f, ReportTime);
    LastOfOne(f, RtdInterval);
    LastOfOne(f, Pnum);
    LastOfOne(f, Pn0);
  }

  lemma LastValueSplits(fs: seq<Field>, key: Key)
    requires fs != []
    ensures LastValue(fs, key) ==
            if LastValue(fs[1..], key).Some? then LastValue(fs[1..], key) else LastValue([fs[0]], key)
  {
    hide KeyOf;
  }

  /** After an accepted segment every argument holds the last value its key was given. */
  lemma {:induction false} ArgsAreLastValues(e: Edition, para: GeneralPara, a: Args, fs: seq<Field>)
    requires ApplyAll(e, para, a, fs).Some?
    ensures Overwritten(a, ApplyAll(e, para, a, fs).value, fs)
    decreases |fs|
  {
    hide ApplyField, Atoi, LastValue;
    if fs == [] {
      NoFields(a);
    } else {
      OneFieldOverwrites(e, para, a, fs[0]);
      ArgsAreLastValues(e, para, ApplyField(e, para, a, fs[0]).value, fs[1..]);
      forall key: Key ensures LastValue(fs, key) ==
        if LastValue(fs[1..], key).Some? then LastValue(fs[1..], key) else LastValue([fs[0]], key)
      {
        LastValueSplits(fs, key);
      }
    }
  }

  lemma NoFields(a: Args)
    ensures Overwritten(a, a, [])
  {
  }

  lemma {:induction false} LastValueIsGiven(fs: seq<Field>, key: Key)
    ensures LastValue(fs, key).Some? <==> exists i :: 0 <= i < |fs| && KeyOf(fs[i].name) == key
    ensures LastValue(fs, key).Some? ==>
              exists i :: 0 <= i < |fs| && KeyOf(fs[i].name) == key && fs[i].value == LastValue(fs, key).value
    decreases |fs|
  {
    hide KeyOf;
    if fs != [] {
      LastValueIsGiven(fs[1..], key);
      assert forall i :: 0 < i < |fs| ==> fs[i] == fs[1..][i - 1];
      assert forall i :: 0 <= i < |fs| - 1 ==> fs[1..][i] == fs[i + 1];
    }
  }
}
