/** The texts of the replies, and what the other side reads in them. */
module Replies {
  import opened Bytes
  import opened NgxParse
  import opened Frame
  import opened Fields

  const QN: bytes := [0x51, 0x4E]
  const ST: bytes := [0x53, 0x54]
  const CN: bytes := [0x43, 0x4E]
  const PW: bytes := [0x50, 0x57]
  const MN: bytes := [0x4D, 0x4E]
  const FLAG: bytes := [0x46, 0x6C, 0x61, 0x67]
  const QN_RTN: bytes := [0x51, 0x6E, 0x52, 0x74, 0x6E]
  const EXE_RTN: bytes := [0x45, 0x78, 0x65, 0x52, 0x74, 0x6E]
  const SYSTEM_TIME: bytes := [0x53, 0x79, 0x73, 0x74, 0x65, 0x6D, 0x54, 0x69, 0x6D, 0x65]
  const CP_OPEN: bytes := [0x43, 0x50, 0x3D, 0x26, 0x26]
  const TEXT_91: bytes := [0x39, 0x31]
  const TEXT_4: bytes := [0x34]
  const TEXT_9011: bytes := [0x39, 0x30, 0x31, 0x31]
  const TEXT_9012: bytes := [0x39, 0x30, 0x31, 0x32]

  function UpToNul(s: bytes): (r: bytes)
    ensures NulFree(r) && |r| <= |s|
  {
    if s == [] || s[0] == 0 then [] else [s[0]] + UpToNul(s[1..])
  }

  function Spaces(n: nat): (r: bytes)
    ensures |r| == n && forall i :: 0 <= i < n ==> r[i] == 0x20
  {
    seq(n, _ => 0x20)
  }

  /** `%-w.ws`. */
  function Pad(s: bytes, w: nat): (r: bytes)
    ensures |r| == w && NulFree(r)
  {
    var t := UpToNul(s);
    if |t| >= w then t[..w] else t + Spaces(w - |t|)
  }

  /** `%d` of a non-negative number. */
  function Decimal(n: nat): (r: bytes)
    ensures r != [] && AllDigits(r)
  {
    if n < 10 then [Digit(n)] else Decimal(n / 10) + [Digit(n % 10)]
  }

  /** `%02d`. */
  function Decimal2(n: nat): (r: bytes)
    ensures |r| >= 2 && AllDigits(r)
  {
    if n < 10 then [Digit(0)] + Decimal(n) else Decimal(n / 10) + [Digit(n % 10)]
  }

  /** The data segment the three snprintf calls share. */
  function ReplyText(st: bytes, cn: bytes, qn: bytes, pw: bytes, mn: bytes, key: bytes, value: bytes): bytes {
    Print(QN, Pad(qn, 17), SEMICOLON) + Print(ST, st, SEMICOLON) + Print(CN, cn, SEMICOLON)
    + Print(PW, Pad(pw, 6), SEMICOLON) + Print(MN, Pad(mn, 24), SEMICOLON) + Print(FLAG, TEXT_4, SEMICOLON)
    + CP_OPEN + Print(key, value, AMPERSAND) + [AMPERSAND]
  }

  lemma ReplyTextBounds(st: bytes, cn: bytes, qn: bytes, pw: bytes, mn: bytes, key: bytes, value: bytes)
    requires NulFree(st) && NulFree(cn) && NulFree(key) && NulFree(value)
    ensures |ReplyText(st, cn, qn, pw, mn, key, value)| == 82 + |st| + |cn| + |key| + |value|
    ensures NulFree(ReplyText(st, cn, qn, pw, mn, key, value))
  {
    hide Pad;
  }

  lemma {:induction false} DecimalReadBack(n: nat)
    ensures DecValue(Decimal(n)) == n
  {
    if n < 10 {
      assert DecValue([Digit(n)]) == DecValue([]) * 10 + n;
    } else {
      DecimalReadBack(n / 10);
      var s := Decimal(n / 10) + [Digit(n % 10)];
      assert s[..|s| - 1] == Decimal(n / 10);
    }
  }

  lemma Decimal2ReadBack(n: nat)
    ensures DecValue(Decimal2(n)) == n && (n < 100 ==> |Decimal2(n)| == 2)
  {
    var s := Decimal2(n);
    if n < 10 {
      assert s == [Digit(0), Digit(n)] && s[..1] == [Digit(0)];
      assert DecValue([Digit(0)]) == DecValue([]) * 10 + 0;
    } else {
      DecimalReadBack(n / 10);
      assert s[..|s| - 1] == Decimal(n / 10);
    }
  }

  // ---- What the tokeniser reads in a reply ----------------------------------------------

  /** A field without its place in the message. */
  function Read(name: bytes, value: bytes): Pair {
    Pair(Lowered(name), value)
  }

  lemma ReadOne(name: bytes, value: bytes, delimiter: byte, s: bytes, after: bytes)
    requires IsValue(value) && IsName(name) && IsDelimiter(delimiter)
    ensures Pairs(FieldsOf(Print(name, value, delimiter) + s, after)) == [Read(name, value)] + Pairs(FieldsOf(s, after))
  {
    hide FieldsOf, Lowered;
    PrintedFieldIsRead(name, value, delimiter, s, after);
  }

  predicate Letters(s: bytes) {
    s != [] && forall i :: 0 <= i < |s| ==> 0x41 <= s[i] <= 0x5A || 0x61 <= s[i] <= 0x7A
  }

  lemma ReadCpBlock(key: bytes, value: bytes, after: bytes)
    requires IsValue(value) && Letters(key)
    ensures Pairs(FieldsOf(CP_OPEN + Print(key, value, AMPERSAND) + [AMPERSAND], after)) == [Read(key, value)]
  {
    hide FieldsOf, Lowered, Print;
    var inner := Print(key, value, AMPERSAND) + [AMPERSAND];
    var s := CP_OPEN + Print(key, value, AMPERSAND) + [AMPERSAND];
    assert s == CP_OPEN + inner;
    EmptyCp(inner, after);
    ReadOne(key, value, AMPERSAND, [AMPERSAND], after);
    EmptySegment([AMPERSAND], after);
    assert [AMPERSAND][1..] == [];
    OpenTail([], after);
  }

  /** "CP=" has no value and the second '&' no segment, so neither yields a field. */
  lemma EmptyCp(inner: bytes, after: bytes)
    ensures FieldsOf(CP_OPEN + inner, after) == FieldsOf(inner, after)
  {
    hide FieldsOf, Lowered, Rewritten;
    var s, t := CP_OPEN + inner, [0x26] + inner;
    SegmentEndIs(s, 3);
    SegmentStep(s, 3, after);
    assert s[..3] == [0x43, 0x50, 0x3D] && s[4..] == t;
    LastEqualsIs(s[..3], 2);
    EmptySegment(t, after);
    assert t[1..] == inner;
  }

  /** Reading a reply back yields the fields printed, whatever else the header values are. */
  lemma ReplyReadBack(st: bytes, cn: bytes, qn: bytes, pw: bytes, mn: bytes, key: bytes, value: bytes, after: bytes)
    requires IsValue(st) && IsValue(cn) && IsValue(value) && Letters(key)
    requires IsValue(Pad(qn, 17)) && IsValue(Pad(pw, 6)) && IsValue(Pad(mn, 24))
    ensures Pairs(FieldsOf(ReplyText(st, cn, qn, pw, mn, key, value), after)) ==
            [Read(QN, Pad(qn, 17)), Read(ST, st), Read(CN, cn), Read(PW, Pad(pw, 6)), Read(MN, Pad(mn, 24)),
             Read(FLAG, TEXT_4), Read(key, value)]
  {
    hide FieldsOf, Lowered, Pad;
    var s7 := CP_OPEN + Print(key, value, AMPERSAND) + [AMPERSAND];
    var s6 := Print(FLAG, TEXT_4, SEMICOLON) + s7;
    var s5 := Print(MN, Pad(mn, 24), SEMICOLON) + s6;
    var s4 := Print(PW, Pad(pw, 6), SEMICOLON) + s5;
    var s3 := Print(CN, cn, SEMICOLON) + s4;
    var s2 := Print(ST, st, SEMICOLON) + s3;
    assert ReplyText(st, cn, qn, pw, mn, key, value) == Print(QN, Pad(qn, 17), SEMICOLON) + s2;
    ReadCpBlock(key, value, after);
    ReadOne(FLAG, TEXT_4, SEMICOLON, s7, after);
    ReadOne(MN, Pad(mn, 24), SEMICOLON, s6, after);
    ReadOne(PW, Pad(pw, 6), SEMICOLON, s5, after);
    ReadOne(CN, cn, SEMICOLON, s4, after);
    ReadOne(ST, st, SEMICOLON, s3, after);
    ReadOne(QN, Pad(qn, 17), SEMICOLON, s2, after);
  }

  /** The first three fields come through even if PW or MN hold delimiters of their own. */
  lemma ReplyHeadReadBack(st: bytes, cn: bytes, qn: bytes, pw: bytes, mn: bytes, key: bytes, value: bytes, after: bytes)
    requires IsValue(st) && IsValue(cn) && IsValue(Pad(qn, 17))
    ensures [Read(QN, Pad(qn, 17)), Read(ST, st), Read(CN, cn)]
            <= Pairs(FieldsOf(ReplyText(st, cn, qn, pw, mn, key, value), after))
  {
    hide FieldsOf, Lowered, Pad;
    var s4 := Print(PW, Pad(pw, 6), SEMICOLON) + Print(MN, Pad(mn, 24), SEMICOLON) + Print(FLAG, TEXT_4, SEMICOLON)
              + CP_OPEN + Print(key, value, AMPERSAND) + [AMPERSAND];
    var s3 := Print(CN, cn, SEMICOLON) + s4;
    var s2 := Print(ST, st, SEMICOLON) + s3;
    assert ReplyText(st, cn, qn, pw, mn, key, value) == Print(QN, Pad(qn, 17), SEMICOLON) + s2;
    ReadOne(CN, cn, SEMICOLON, s4, after);
    ReadOne(ST, st, SEMICOLON, s3, after);
    ReadOne(QN, Pad(qn, 17), SEMICOLON, s2, after);
  }

  lemma DigitsAreValue(s: bytes)
    requires s != [] && AllDigits(s)
    ensures IsValue(s) && NoLineEnds(s) && NulFree(s)
  {
  }

  /** Seventeen digits are printed as they are. */
  lemma PadExact(s: bytes, w: nat)
    requires |s| == w && NulFree(s)
    ensures Pad(s, w) == s
  {
    NothingCut(s);
  }

  lemma {:induction false} NothingCut(s: bytes)
    requires NulFree(s)
    ensures UpToNul(s) == s
  {
    if s != [] {
      NothingCut(s[1..]);
    }
  }

  /** `%-w.ws`: the string up to its NUL, cut to the width or followed by blanks. */
  lemma PadInBytes(s: bytes, rest: bytes, w: nat)
    requires NulFree(s)
    ensures |s| >= w ==> Pad(s, w) == s[..w]
    ensures |s| <= w ==> Pad(s, w)[..|s|] == s && forall i :: |s| <= i < w ==> Pad(s, w)[i] == 0x20
    ensures Pad(s + [0] + rest, w) == Pad(s, w)
  {
    NothingCut(s);
    CutAtNul(s, rest);
  }

  lemma {:induction false} CutAtNul(s: bytes, rest: bytes)
    requires NulFree(s)
    ensures UpToNul(s + [0] + rest) == s
  {
    var w := s + [0] + rest;
    if s != [] {
      CutAtNul(s[1..], rest);
      assert w[1..] == s[1..] + [0] + rest;
    }
  }

  // ---- Where a reply could hide a terminator --------------------------------------------

  predicate NoLineEnds(s: bytes) {
    forall i :: 0 <= i < |s| ==> s[i] != 0x0D && s[i] != 0x0A
  }

  /** No terminator reaches across, or lies within, text free of line ends. */
  lemma Bridge(x: bytes, b: bytes, z: bytes)
    requires b != [] && NoLineEnds(b)
    ensures Contains(x + b + z, CRLF) <==> Contains(x, CRLF) || Contains(z, CRLF)
  {
    var s := x + b + z;
    forall i | MatchesAt(s, CRLF, i) ensures Contains(x, CRLF) || Contains(z, CRLF) {
      assert s[i] == s[i..i + 2][0] == 0x0D && s[i + 1] == s[i..i + 2][1] == 0x0A;
      if i < |x| {
        assert i + 1 < |x|;
        assert MatchesAt(x, CRLF, i) by { assert x[i..i + 2] == s[i..i + 2]; }
      } else {
        var k := i - |x| - |b|;
        assert k >= 0;
        assert MatchesAt(z, CRLF, k) by { assert z[k..k + 2] == s[i..i + 2]; }
      }
    }
    forall i | MatchesAt(x, CRLF, i) ensures MatchesAt(s, CRLF, i) {
      assert x[i..i + 2] == s[i..i + 2];
    }
    forall i | MatchesAt(z, CRLF, i) ensures MatchesAt(s, CRLF, |x| + |b| + i) {
      assert z[i..i + 2] == s[|x| + |b| + i..|x| + |b| + i + 2];
    }
  }

  lemma Regroup(x: bytes, pk: bytes, p: bytes, mk: bytes, m: bytes, y1: bytes, y2: bytes, y3: bytes, y4: bytes)
    ensures x + (pk + [EQUALS] + p + [SEMICOLON]) + (mk + [EQUALS] + m + [SEMICOLON]) + y1 + y2 + y3 + y4 ==
            (x + pk + [EQUALS]) + (p + ([SEMICOLON] + mk + [EQUALS]) + (m + ([SEMICOLON] + y1 + y2 + y3 + y4)))
  {
  }

  /** A reply's data segment contains a terminator iff the configured PW or MN does. */
  lemma ReplyTerminators(st: bytes, cn: bytes, qn: bytes, pw: bytes, mn: bytes, key: bytes, value: bytes)
    requires NoLineEnds(st) && NoLineEnds(cn) && NoLineEnds(Pad(qn, 17)) && NoLineEnds(key) && NoLineEnds(value)
    ensures Contains(ReplyText(st, cn, qn, pw, mn, key, value), CRLF) <==>
            Contains(Pad(pw, 6), CRLF) || Contains(Pad(mn, 24), CRLF)
  {
    hide Contains, Pad;
    var x := Print(QN, Pad(qn, 17), SEMICOLON) + Print(ST, st, SEMICOLON) + Print(CN, cn, SEMICOLON);
    var a, b := x + PW + [EQUALS], [SEMICOLON] + MN + [EQUALS];
    var c := [SEMICOLON] + Print(FLAG, TEXT_4, SEMICOLON) + CP_OPEN + Print(key, value, AMPERSAND) + [AMPERSAND];
    assert NoLineEnds(a) && NoLineEnds(b) && NoLineEnds(c);
    Regroup(x, PW, Pad(pw, 6), MN, Pad(mn, 24), Print(FLAG, TEXT_4, SEMICOLON), CP_OPEN,
            Print(key, value, AMPERSAND), [AMPERSAND]);
    BridgeTwo(a, Pad(pw, 6), b, Pad(mn, 24), c);
  }

  lemma BridgeTwo(a: bytes, p: bytes, b: bytes, m: bytes, c: bytes)
    requires a != [] && b != [] && c != [] && NoLineEnds(a) && NoLineEnds(b) && NoLineEnds(c)
    ensures Contains(a + (p + b + (m + c)), CRLF) <==> Contains(p, CRLF) || Contains(m, CRLF)
  {
    hide Contains;
    NothingToContain();
    assert m + c + [] == m + c;
    Bridge(m, c, []);
    Bridge(p, b, m + c);
    assert [] + a + (p + b + (m + c)) == a + (p + b + (m + c));
    Bridge([], a, p + b + (m + c));
  }

  lemma NothingToContain()
    ensures !Contains([], CRLF)
  {
  }
}
