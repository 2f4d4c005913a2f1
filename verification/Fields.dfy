/** The data segment of a packet as a list of fields: the specification of the tokeniser. */
module Fields {
  import opened Bytes

  const EQUALS: byte := 0x3D
  const SEMICOLON: byte := 0x3B
  const AMPERSAND: byte := 0x26

  predicate IsDelimiter(b: byte) {
    b == SEMICOLON || b == AMPERSAND
  }

  /** ngx_tolower. */
  function ToLower(b: byte): byte {
    if 0x41 <= b <= 0x5A then b | 0x20 else b
  }

  /** The length of the first segment. */
  function SegmentEnd(s: bytes): (k: nat)
    ensures k <= |s| && (forall i :: 0 <= i < k ==> !IsDelimiter(s[i])) && (k < |s| ==> IsDelimiter(s[k]))
  {
    if s == [] || IsDelimiter(s[0]) then 0 else 1 + SegmentEnd(s[1..])
  }

  /** Where a segment's name ends and its value begins: at its last '='. */
  function LastEquals(s: bytes): (r: Option<nat>)
    ensures r.Some? ==> r.value < |s| && s[r.value] == EQUALS && forall i :: r.value < i < |s| ==> s[i] != EQUALS
    ensures r.None? ==> EQUALS !in s
  {
    if s == [] then None
    else if s[|s| - 1] == EQUALS then Some(|s| - 1)
    else LastEquals(s[..|s| - 1])
  }

  /** A segment with its letters folded up to its first '='. */
  function Lowered(s: bytes): (r: bytes)
    ensures |r| == |s|
  {
    seq(|s|, i requires 0 <= i < |s| => if EQUALS in s[..i] then s[i] else ToLower(s[i]))
  }

  /** `rest` is the C string that starts at the value. */
  datatype Field = Field(name: bytes, value: bytes, rest: bytes)

  /** What one delimited segment yields; `follow` is all that comes after it. */
  function FieldOf(segment: bytes, follow: bytes): seq<Field> {
    match LastEquals(segment)
    case None => []
    case Some(q) =>
      if q > 0 && q + 1 < |segment|
      then [Field(Lowered(segment)[..q], segment[q + 1..], segment[q + 1..] + follow)]
      else []
  }

  /** The fields of a data segment; what no delimiter closes yields nothing. */
  function FieldsOf(s: bytes, after: bytes): seq<Field> {
    var k := SegmentEnd(s);
    if k == |s| then [] else FieldOf(s[..k], s[k..] + after) + FieldsOf(s[k + 1..], after)
  }

  /** What scanning leaves in the buffer. */
  function Rewritten(s: bytes): (r: bytes)
    ensures |r| == |s|
  {
    var k := SegmentEnd(s);
    if k == |s| then Lowered(s) else Lowered(s[..k]) + [s[k]] + Rewritten(s[k + 1..])
  }

  lemma SegmentEndIs(s: bytes, k: nat)
    requires k <= |s| && (forall i :: 0 <= i < k ==> !IsDelimiter(s[i])) && (k < |s| ==> IsDelimiter(s[k]))
    ensures SegmentEnd(s) == k
  {
  }

  lemma LastEqualsIs(s: bytes, q: nat)
    requires q < |s| && s[q] == EQUALS && forall i :: q < i < |s| ==> s[i] != EQUALS
    ensures LastEquals(s) == Some(q)
  {
  }

  // ---- Segment by segment --------------------------------------------------------------

  lemma LoweredPrefix(s: bytes, k: nat)
    requires k <= |s|
    ensures Lowered(s[..k]) == Lowered(s)[..k]
  {
    forall i | 0 <= i < k ensures Lowered(s[..k])[i] == Lowered(s)[i] {
      assert s[..k][..i] == s[..i];
    }
  }

  /** One closed segment, split off the front. */
  lemma SegmentStep(s: bytes, k: nat, after: bytes)
    requires k == SegmentEnd(s) < |s|
    ensures FieldsOf(s, after) == FieldOf(s[..k], s[k..] + after) + FieldsOf(s[k + 1..], after)
    ensures Rewritten(s) == Lowered(s)[..k] + [s[k]] + Rewritten(s[k + 1..])
  {
    hide Lowered, FieldOf, SegmentEnd;
    LoweredPrefix(s, k);
  }

  lemma EmptySegment(s: bytes, after: bytes)
    requires |s| > 0 && IsDelimiter(s[0])
    ensures FieldsOf(s, after) == FieldsOf(s[1..], after) && Rewritten(s) == [s[0]] + Rewritten(s[1..])
  {
    hide FieldsOf, Rewritten, Lowered, FieldOf;
    SegmentEndIs(s, 0);
    SegmentStep(s, 0, after);
    NothingInNothing(s[0..] + after);
    assert s[..0] == [] && Lowered(s)[..0] + [s[0]] == [s[0]];
  }

  lemma NothingInNothing(follow: bytes)
    ensures FieldOf([], follow) == []
  {
  }

  lemma OpenTail(s: bytes, after: bytes)
    requires SegmentEnd(s) == |s|
    ensures FieldsOf(s, after) == [] && Rewritten(s) == Lowered(s)
  {
  }

  // ---- The scan touches keys only -------------------------------------------------------

  /** An '=' has been seen since the last delimiter before position i. */
  predicate InValue(s: bytes, i: nat)
    requires i <= |s|
  {
    i > 0 && !IsDelimiter(s[i - 1]) && (s[i - 1] == EQUALS || InValue(s, i - 1))
  }

  lemma {:induction false} InFirstSegment(s: bytes, i: nat)
    requires i <= SegmentEnd(s)
    ensures InValue(s, i) <==> EQUALS in s[..i]
  {
    if i > 0 {
      InFirstSegment(s, i - 1);
      assert s[..i] == s[..i - 1] + [s[i - 1]];
    }
  }

  lemma {:induction false} InLaterSegment(s: bytes, k: nat, i: nat)
    requires k < i <= |s| && IsDelimiter(s[k])
    ensures InValue(s, i) <==> InValue(s[k + 1..], i - k - 1)
  {
    if i > k + 1 {
      InLaterSegment(s, k, i - 1);
      assert s[k + 1..][i - k - 2] == s[i - 1];
    }
  }

  lemma LoweredAt(s: bytes, i: nat)
    requires i < |s|
    ensures Lowered(s)[i] == if EQUALS in s[..i] then s[i] else ToLower(s[i])
  {
  }

  /** Byte by byte: only letters in front of their segment's first '=' change, and those only
      in case; every byte of every value stays as received. */
  lemma {:induction false} ScanTouchesKeysOnly(s: bytes, i: nat)
    requires i < |s|
    ensures Rewritten(s)[i] == if InValue(s, i) then s[i] else ToLower(s[i])
    decreases |s|
  {
    hide Lowered, InValue;
    var k := SegmentEnd(s);
    if i < k {
      InFirstSegment(s, i);
      LoweredAt(s[..k], i);
      assert s[..k][..i] == s[..i];
      assert k == |s| ==> s[..k] == s;
    } else if i == k {
      DelimiterStays(s[k]);
    } else {
      InLaterSegment(s, k, i);
      ScanTouchesKeysOnly(s[k + 1..], i - k - 1);
    }
  }

  lemma DelimiterStays(b: byte)
    requires IsDelimiter(b) || b == EQUALS
    ensures ToLower(b) == b
  {
  }

  // ---- Printing and reading back --------------------------------------------------------

  /** Names and values that survive the trip. */
  predicate IsName(name: bytes) {
    name != [] && forall i :: 0 <= i < |name| ==> !IsDelimiter(name[i])
  }

  predicate IsValue(value: bytes) {
    value != [] && forall i :: 0 <= i < |value| ==> !IsDelimiter(value[i]) && value[i] != EQUALS
  }

  /** `name=value` and the delimiter that closes it. */
  function Print(name: bytes, value: bytes, delimiter: byte): bytes {
    name + [EQUALS] + value + [delimiter]
  }

  /** In front of anything, a printed field is read back: its name folded up to the first '=',
      if it has one, and its value untouched. */
  lemma PrintedFieldIsRead(name: bytes, value: bytes, delimiter: byte, s: bytes, after: bytes)
    requires IsValue(value) && IsName(name) && IsDelimiter(delimiter)
    ensures FieldsOf(Print(name, value, delimiter) + s, after) ==
            [Field(Lowered(name), value, value + [delimiter] + s + after)] + FieldsOf(s, after)
  {
    hide FieldOf, FieldsOf, Lowered;
    var segment, follow := name + [EQUALS] + value, [delimiter] + s;
    assert Print(name, value, delimiter) + s == segment + follow;
    ClosedSegmentFirst(segment, delimiter, s, after);
    PrintedSegment(name, value, follow + after);
    assert value + (follow + after) == value + [delimiter] + s + after;
  }

  lemma ClosedSegmentFirst(segment: bytes, delimiter: byte, s: bytes, after: bytes)
    requires IsDelimiter(delimiter) && forall i :: 0 <= i < |segment| ==> !IsDelimiter(segment[i])
    ensures FieldsOf(segment + ([delimiter] + s), after)
            == FieldOf(segment, [delimiter] + s + after) + FieldsOf(s, after)
  {
    hide FieldOf;
    var all, k := segment + ([delimiter] + s), |segment|;
    SegmentEndIs(all, k);
    assert all[..k] == segment && all[k..] == [delimiter] + s && all[k + 1..] == s;
  }

  lemma PrintedSegment(name: bytes, value: bytes, follow: bytes)
    requires IsValue(value) && name != []
    ensures FieldOf(name + [EQUALS] + value, follow) == [Field(Lowered(name), value, value + follow)]
  {
    var segment, q := name + [EQUALS] + value, |name|;
    LastEqualsIs(segment, q);
    assert segment[q + 1..] == value;
    forall i | 0 <= i < q ensures Lowered(segment)[i] == Lowered(name)[i] {
      assert segment[..i] == name[..i];
    }
    assert Lowered(segment)[..q] == Lowered(name);
  }

  /** A segment without '=', or with nothing before or behind its last one, yields nothing. */
  lemma NothingRead(segment: bytes, delimiter: byte, s: bytes, after: bytes)
    requires IsDelimiter(delimiter) && forall i :: 0 <= i < |segment| ==> !IsDelimiter(segment[i])
    requires EQUALS !in segment || segment[|segment| - 1] == EQUALS || EQUALS !in segment[1..]
    ensures FieldsOf(segment + ([delimiter] + s), after) == FieldsOf(s, after)
  {
    hide FieldsOf, Lowered;
    ClosedSegmentFirst(segment, delimiter, s, after);
    var r := LastEquals(segment);
    if r.Some? && r.value > 0 {
      assert segment[1..][r.value - 1] == EQUALS;
    }
  }

  /** Neither does whatever no delimiter closes. */
  lemma TailUnread(tail: bytes, after: bytes)
    requires forall i :: 0 <= i < |tail| ==> !IsDelimiter(tail[i])
    ensures FieldsOf(tail, after) == []
  {
    SegmentEndIs(tail, |tail|);
  }

  datatype Pair = Pair(name: bytes, value: bytes)

  function PrintAll(ps: seq<Pair>): bytes {
    if ps == [] then [] else Print(ps[0].name, ps[0].value, SEMICOLON) + PrintAll(ps[1..])
  }

  function Pairs(fs: seq<Field>): seq<Pair> {
    seq(|fs|, i requires 0 <= i < |fs| => Pair(fs[i].name, fs[i].value))
  }

  lemma NothingPrinted(after: bytes)
    ensures FieldsOf([], after) == []
  {
  }

  /** Fields as the terminal reads them. */
  function Folded(ps: seq<Pair>): seq<Pair> {
    seq(|ps|, i requires 0 <= i < |ps| => Pair(Lowered(ps[i].name), ps[i].value))
  }

  /** The tokeniser inverts the field printer, up to the folding of the names. */
  lemma {:induction false} FieldsRoundTrip(ps: seq<Pair>, after: bytes)
    requires forall i :: 0 <= i < |ps| ==> IsName(ps[i].name) && IsValue(ps[i].value)
    ensures Pairs(FieldsOf(PrintAll(ps), after)) == Folded(ps)
  {
    hide FieldsOf, Lowered, IsName, IsValue, Print;
    if ps == [] {
      NothingPrinted(after);
    } else {
      PrintedFieldIsRead(ps[0].name, ps[0].value, SEMICOLON, PrintAll(ps[1..]), after);
      FieldsRoundTrip(ps[1..], after);
      assert Folded(ps) == [Pair(Lowered(ps[0].name), ps[0].value)] + Folded(ps[1..]);
    }
  }
}
