/** parse_url: the packet check, then one in-place pass over the data segment whose two nested
    loops share the cursor. */
module Scanner {
  import opened Bytes
  import opened Editions
  import opened Fields
  import opened FieldTable
  import opened Frame

  /** What the inner loop knows about the segment it is in, `at` bytes along. */
  ghost predicate Scanned(todo: bytes, at: nat, flag: bool, nameLen: nat)
    requires at <= |todo|
  {
    && (forall i :: 0 <= i < at ==> !IsDelimiter(todo[i]))
    && (flag <==> EQUALS !in todo[..at])
    && (flag ==> nameLen == 0)
    && (!flag ==> nameLen < at && todo[nameLen] == EQUALS && forall i :: nameLen < i < at ==> todo[i] != EQUALS)
  }

  lemma ScannedStep(todo: bytes, at: nat, flag: bool, nameLen: nat)
    requires at < |todo| && Scanned(todo, at, flag, nameLen) && !IsDelimiter(todo[at])
    ensures Scanned(todo, at + 1, flag && todo[at] != EQUALS, if todo[at] == EQUALS then at else nameLen)
  {
    assert todo[..at + 1] == todo[..at] + [todo[at]];
  }

  /** The byte the inner loop leaves at a position. */
  lemma ScannedByte(todo: bytes, at: nat, flag: bool, nameLen: nat)
    requires at < |todo| && Scanned(todo, at, flag, nameLen)
    ensures Lowered(todo)[at] == if flag then ToLower(todo[at]) else todo[at]
    ensures ToLower(todo[at]) == EQUALS <==> todo[at] == EQUALS
    ensures IsDelimiter(ToLower(todo[at])) <==> IsDelimiter(todo[at])
    ensures IsDelimiter(todo[at]) ==> ToLower(todo[at]) == todo[at] && todo[at] != EQUALS
  {
  }

  /** What the inner loop leaves behind: the cursor on the delimiter that closes the segment, or
      on the last byte or just past it when none does. */
  ghost predicate SegmentScanned(todo: bytes, k: nat, nameLen: nat, valueLen: nat) {
    var end := SegmentEnd(todo);
    && (end < |todo| ==> k == end)
    && (end == |todo| ==> k <= |todo| <= k + 1 && valueLen == 0)
    && (valueLen > 0 ==> nameLen + 1 + valueLen == end && LastEquals(todo[..end]) == Some(nameLen))
    && (end < |todo| && valueLen == 0 ==> LastEquals(todo[..end]).None? || LastEquals(todo[..end]).value + 1 == end)
  }

  lemma ClosedSegment(todo: bytes, at: nat, flag: bool, nameLen: nat)
    requires at < |todo| && Scanned(todo, at, flag, nameLen) && IsDelimiter(todo[at])
    ensures SegmentScanned(todo, at, nameLen, if flag then 0 else at - nameLen - 1)
  {
    SegmentEndIs(todo, at);
    if !flag {
      LastEqualsIs(todo[..at], nameLen);
    }
  }

  lemma OpenSegment(todo: bytes, at: nat, flag: bool, nameLen: nat)
    requires at <= |todo| && Scanned(todo, at, flag, nameLen)
    requires at == |todo| || (at + 1 == |todo| && todo[at] == EQUALS)
    ensures SegmentEnd(todo) == |todo| && SegmentScanned(todo, at, nameLen, 0)
  {
    SegmentEndIs(todo, |todo|);
  }

  /** The inner loop. */
  method ScanSegment(str: array<byte>, nameData: nat, end: nat)
    returns (pos: nat, nameLen: nat, valueData: nat, valueLen: nat)
    requires nameData < end <= str.Length
    modifies str
    ensures nameData <= pos <= end
    ensures valueLen > 0 ==> valueData == nameData + nameLen + 1
    ensures forall i :: 0 <= i < nameData || end <= i < str.Length ==> str[i] == old(str[i])
    ensures forall i :: pos < i < end ==> str[i] == old(str[i])
    ensures forall i :: nameData <= i <= pos && i < end ==> str[i] == Lowered(old(str[nameData..end]))[i - nameData]
    ensures SegmentScanned(old(str[nameData..end]), pos - nameData, nameLen, valueLen)
  {
    hide Lowered, Scanned, SegmentScanned;
    ghost var todo := str[nameData..end];
    pos, nameLen, valueData, valueLen := nameData, 0, 0, 0;
    var flag := true;
    assert Scanned(todo, 0, true, 0) by { NothingScanned(todo); }
    while pos < end
      invariant nameData <= pos <= end
      invariant forall i :: 0 <= i < nameData || end <= i < str.Length ==> str[i] == old(str[i])
      invariant forall i :: pos <= i < end ==> str[i] == old(str[i])
      invariant forall i :: nameData <= i < pos ==> str[i] == Lowered(todo)[i - nameData]
      invariant Scanned(todo, pos - nameData, flag, nameLen)
      invariant !flag ==> valueData == nameData + nameLen + 1 <= pos
      invariant valueLen == 0
    {
      ghost var at, flag0, nameLen0 := pos - nameData, flag, nameLen;
      assert str[pos] == todo[at];
      ScannedByte(todo, at, flag, nameLen);
      if flag {
        str[pos] := ToLower(str[pos]);
      }
      if str[pos] == EQUALS {
        flag := false;
        nameLen := pos - nameData;
        if pos + 1 < end {
          valueData := pos + 1;
        } else {
          OpenSegment(todo, at, flag0, nameLen0);
          OpenSegmentAnyName(todo, at, nameLen0, nameLen);
          break;
        }
      }
      if str[pos] == SEMICOLON || str[pos] == AMPERSAND {
        ClosedSegment(todo, at, flag, nameLen);
        if !flag {
          valueLen := pos - valueData;
        }
        break;
      }
      ScannedStep(todo, at, flag0, nameLen0);
      pos := pos + 1;
    }
    if pos == end {
      OpenSegment(todo, pos - nameData, flag, nameLen);
    }
  }

  lemma NothingScanned(todo: bytes)
    ensures Scanned(todo, 0, true, 0)
  {
  }

  lemma OpenSegmentAnyName(todo: bytes, at: nat, nameLen: nat, other: nat)
    requires SegmentScanned(todo, at, nameLen, 0) && SegmentEnd(todo) == |todo|
    ensures SegmentScanned(todo, at, other, 0)
  {
  }

  /** The field the table gets to see: `w` runs from the segment's first byte to the NUL. */
  lemma FieldRead(todo: bytes, after: bytes, w: bytes, k: nat, q: nat)
    requires k == SegmentEnd(todo) < |todo| && LastEquals(todo[..k]) == Some(q) && 0 < q && q + 1 < k
    requires |w| == |todo| + |after| && w[..k] == Lowered(todo)[..k] && w[k..] == todo[k..] + after
    ensures FieldOf(todo[..k], todo[k..] + after) == [Field(w[..q], w[q + 1..k], w[q + 1..])]
  {
    hide Lowered, SegmentEnd, LastEquals;
    LoweredPrefix(todo, k);
    NameRead(todo, w, k, q);
    ValueRead(todo, w, k, q);
    RestRead(todo[..k], todo[k..] + after, w, k, q);
  }

  lemma NameRead(todo: bytes, w: bytes, k: nat, q: nat)
    requires q < k <= |todo| && k <= |w| && w[..k] == Lowered(todo)[..k]
    ensures w[..q] == Lowered(todo)[..k][..q]
  {
    hide Lowered;
    assert w[..k][..q] == w[..q];
  }

  lemma ValueRead(todo: bytes, w: bytes, k: nat, q: nat)
    requires q < k <= |todo| && k <= |w| && w[..k] == Lowered(todo)[..k] && todo[q] == EQUALS
    ensures w[q + 1..k] == todo[..k][q + 1..]
  {
    forall i | q < i < k ensures w[i] == todo[i] {
      assert EQUALS in todo[..i] by { assert todo[..i][q] == EQUALS; }
      assert w[i] == w[..k][i];
    }
  }

  lemma RestRead(segment: bytes, follow: bytes, w: bytes, k: nat, q: nat)
    requires q < k == |segment| <= |w| && w[q + 1..k] == segment[q + 1..] && w[k..] == follow
    ensures w[q + 1..] == segment[q + 1..] + follow
  {
    assert w[q + 1..] == w[q + 1..k] + w[k..];
  }

  lemma DelimiterUntouched(todo: bytes, k: nat)
    requires k < |todo| && IsDelimiter(todo[k])
    ensures Lowered(todo)[k] == todo[k]
  {
  }

  /** What the outer loop knows: `done` is what the segment's scanned part looks like now,
      `todo` the part ahead, still as received, and `cur` what has been parsed. */
  ghost predicate Progress(e: Edition, para: GeneralPara, url_args: Args, data: bytes, after: bytes, done: bytes,
                           todo: bytes, cur: Args) {
    && done + Rewritten(todo) == Rewritten(data)
    && ApplyAll(e, para, url_args, FieldsOf(data, after)) == ApplyAll(e, para, cur, FieldsOf(todo, after))
  }

  lemma Started(e: Edition, para: GeneralPara, url_args: Args, data: bytes, after: bytes)
    ensures Progress(e, para, url_args, data, after, [], data, url_args)
  {
    hide ApplyAll, FieldsOf, Rewritten;
    assert [] + Rewritten(data) == Rewritten(data);
  }

  lemma Finished(e: Edition, para: GeneralPara, url_args: Args, data: bytes, after: bytes, done: bytes, cur: Args)
    requires Progress(e, para, url_args, data, after, done, [], cur)
    ensures done == Rewritten(data) && ApplyAll(e, para, url_args, FieldsOf(data, after)) == Some(cur)
  {
    hide ApplyField, FieldsOf, Rewritten;
    OpenTail([], after);
    assert Lowered([]) == [];
    assert done + [] == done;
  }

  lemma AmpersandStep(e: Edition, para: GeneralPara, url_args: Args, data: bytes, after: bytes, done: bytes,
                      todo: bytes, cur: Args)
    requires Progress(e, para, url_args, data, after, done, todo, cur) && todo != [] && todo[0] == AMPERSAND
    ensures Progress(e, para, url_args, data, after, done + [AMPERSAND], todo[1..], cur)
  {
    hide ApplyAll, FieldsOf, Rewritten;
    EmptySegment(todo, after);
    assert done + [AMPERSAND] + Rewritten(todo[1..]) == done + ([AMPERSAND] + Rewritten(todo[1..]));
  }

  lemma OpenStep(e: Edition, para: GeneralPara, url_args: Args, data: bytes, after: bytes, done: bytes, todo: bytes,
                 cur: Args)
    requires Progress(e, para, url_args, data, after, done, todo, cur) && SegmentEnd(todo) == |todo|
    ensures Progress(e, para, url_args, data, after, done + Lowered(todo), [], cur)
  {
    hide ApplyAll, FieldsOf, Rewritten, Lowered;
    OpenTail(todo, after);
    OpenTail([], after);
    assert done + Lowered(todo) + Lowered([]) == done + Lowered(todo);
  }

  /** A closed segment: the table sees its fields, and rejects the message or moves on. */
  lemma ClosedStep(e: Edition, para: GeneralPara, url_args: Args, data: bytes, after: bytes, done: bytes,
                   todo: bytes, cur: Args, k: nat)
    requires Progress(e, para, url_args, data, after, done, todo, cur) && k == SegmentEnd(todo) < |todo|
    ensures match ApplyAll(e, para, cur, FieldOf(todo[..k], todo[k..] + after))
            case None => ApplyAll(e, para, url_args, FieldsOf(data, after)) == None
            case Some(next) =>
              Progress(e, para, url_args, data, after, done + (Lowered(todo)[..k] + [todo[k]]), todo[k + 1..], next)
  {
    hide ApplyAll, FieldsOf, Rewritten, FieldOf, Lowered;
    SegmentStep(todo, k, after);
    ApplyAllConcat(e, para, cur, FieldOf(todo[..k], todo[k..] + after), FieldsOf(todo[k + 1..], after));
    var x, y := Lowered(todo)[..k] + [todo[k]], Rewritten(todo[k + 1..]);
    assert done + x + y == done + (x + y);
  }

  lemma OneField(e: Edition, para: GeneralPara, a: Args, f: Field)
    ensures ApplyAll(e, para, a, [f]) == ApplyField(e, para, a, f)
    ensures ApplyAll(e, para, a, []) == Some(a)
  {
    hide ApplyField;
    assert [f][1..] == [];
  }

  /** How the scan of one segment ends. */
  lemma SegmentEndFound(todo: bytes, k: nat, nameLen: nat, valueLen: nat)
    requires SegmentScanned(todo, k, nameLen, valueLen)
    ensures SegmentEnd(todo) < |todo| ==> k == SegmentEnd(todo)
    ensures SegmentEnd(todo) == |todo| ==> k <= |todo| <= k + 1 && valueLen == 0
    ensures valueLen > 0 ==> nameLen + 1 + valueLen == k && LastEquals(todo[..k]) == Some(nameLen)
    ensures SegmentEnd(todo) < |todo| && (valueLen == 0 || nameLen == 0) ==>
              forall follow :: FieldOf(todo[..k], follow) == []
  {
    hide Lowered;
  }

  /** Where the cursor resumes, relative to the segment's start. */
  function Resume(todo: bytes, k: nat): (m: nat)
    ensures m <= |todo| && m <= k + 1
  {
    if k < |todo| then k + 1 else |todo|
  }

  lemma OpenTaken(e: Edition, para: GeneralPara, url_args: Args, data: bytes, after: bytes, done: bytes, todo: bytes,
                  cur: Args, w: bytes, k: nat)
    requires Progress(e, para, url_args, data, after, done, todo, cur) && SegmentEnd(todo) == |todo|
             && Resume(todo, k) == |todo|
    requires |w| >= |todo| && w[..|todo|] == Lowered(todo)[..|todo|]
    ensures Progress(e, para, url_args, data, after, done + w[..|todo|], w[|todo|..|todo|], cur)
  {
    hide Lowered, Progress, SegmentEnd;
    OpenStep(e, para, url_args, data, after, done, todo, cur);
    assert Lowered(todo)[..|todo|] == Lowered(todo) && w[|todo|..|todo|] == [];
  }

  lemma ClosedBuffer(todo: bytes, w: bytes, k: nat)
    requires k == SegmentEnd(todo) < |todo| <= |w| && w[..k + 1] == Lowered(todo)[..k + 1]
             && w[k + 1..|todo|] == todo[k + 1..]
    ensures w[..k + 1] == Lowered(todo)[..k] + [todo[k]]
    ensures w[..k] == Lowered(todo)[..k]
    ensures w[k..|todo|] == todo[k..]
  {
    hide Lowered, SegmentEnd;
    DelimiterUntouched(todo, k);
    OneMore(Lowered(todo), w, k);
    assert w[k..|todo|] == [w[k]] + w[k + 1..|todo|];
  }

  lemma OneMore(x: bytes, w: bytes, k: nat)
    requires k < |x| && k < |w| && w[..k + 1] == x[..k + 1]
    ensures w[..k] == x[..k] && w[k] == x[k] && w[..k + 1] == x[..k] + [x[k]]
  {
    assert w[..k + 1][k] == w[k] && x[..k + 1][k] == x[k];
    assert w[..k + 1][..k] == w[..k] && x[..k + 1][..k] == x[..k];
  }

  /** A whole turn of the outer loop on values: `w` is the buffer from the segment's first byte
      to the NUL after the inner loop. */
  lemma SegmentTaken(e: Edition, para: GeneralPara, url_args: Args, data: bytes, after: bytes, done: bytes,
                     todo: bytes, cur: Args, w: bytes, k: nat, nameLen: nat, valueLen: nat)
    requires Progress(e, para, url_args, data, after, done, todo, cur) && SegmentScanned(todo, k, nameLen, valueLen)
    requires |w| == |todo| + |after| && w[|todo|..] == after
    requires w[..Resume(todo, k)] == Lowered(todo)[..Resume(todo, k)]
             && w[Resume(todo, k)..|todo|] == todo[Resume(todo, k)..]
    ensures valueLen > 0 && nameLen > 0 ==> nameLen + 1 + valueLen == k < |todo|
    ensures valueLen > 0 && nameLen > 0 ==>
              match ApplyField(e, para, cur, Field(w[..nameLen], w[nameLen + 1..k], w[nameLen + 1..]))
              case None => ApplyAll(e, para, url_args, FieldsOf(data, after)) == None
              case Some(next) =>
                Progress(e, para, url_args, data, after, done + w[..Resume(todo, k)], w[Resume(todo, k)..|todo|], next)
    ensures valueLen == 0 || nameLen == 0 ==>
              Progress(e, para, url_args, data, after, done + w[..Resume(todo, k)], w[Resume(todo, k)..|todo|], cur)
  {
    hide ApplyField, ApplyAll, FieldsOf, Rewritten, FieldOf, Lowered, Progress, LastEquals, SegmentEnd, SegmentScanned;
    SegmentEndFound(todo, k, nameLen, valueLen);
    if SegmentEnd(todo) == |todo| {
      OpenTaken(e, para, url_args, data, after, done, todo, cur, w, k);
    } else {
      ClosedStep(e, para, url_args, data, after, done, todo, cur, k);
      ClosedBuffer(todo, w, k);
      OneField(e, para, cur, Field([], [], []));
      if valueLen > 0 && nameLen > 0 {
        assert w[k..] == todo[k..] + after by { assert w[k..] == w[k..|todo|] + w[|todo|..]; }
        FieldRead(todo, after, w, k, nameLen);
        OneField(e, para, cur, Field(w[..nameLen], w[nameLen + 1..k], w[nameLen + 1..]));
      }
    }
  }

  /** The inner loop's effect, from the segment's first byte to the NUL. */
  method ScanSegmentTo(str: array<byte>, begin: nat, nameData: nat, end: nat, nul: nat)
    returns (pos: nat, nameLen: nat, valueData: nat, valueLen: nat)
    requires begin <= nameData < end <= nul <= str.Length
    modifies str
    ensures nameData <= pos <= end
    ensures valueLen > 0 ==> valueData == nameData + nameLen + 1
    ensures str[..begin] == old(str[..begin]) && str[end..] == old(str[end..]) && str[end..nul] == old(str[end..nul])
    ensures str[begin..nameData] == old(str[begin..nameData])
    ensures SegmentScanned(old(str[nameData..end]), pos - nameData, nameLen, valueLen)
    ensures var todo := old(str[nameData..end]);
            var m := Resume(todo, pos - nameData);
            && str[nameData..nameData + m] == Lowered(todo)[..m]
            && str[nameData + m..end] == todo[m..]
  {
    hide Lowered, SegmentScanned;
    pos, nameLen, valueData, valueLen := ScanSegment(str, nameData, end);
  }

  /** The same on the whole buffer `b` as the inner loop leaves it. */
  lemma SegmentTakenIn(e: Edition, para: GeneralPara, url_args: Args, data: bytes, done: bytes, todo: bytes, cur: Args,
                       b: bytes, begin: nat, nameData: nat, end: nat, nul: nat, pos: nat, nameLen: nat, valueLen: nat)
    requires begin <= nameData <= pos <= end <= nul <= |b| && |todo| == end - nameData
    requires Progress(e, para, url_args, data, b[end..nul], done, todo, cur)
             && SegmentScanned(todo, pos - nameData, nameLen, valueLen)
    requires var m := Resume(todo, pos - nameData);
             && done == b[begin..nameData]
             && b[nameData..nameData + m] == Lowered(todo)[..m]
             && b[nameData + m..end] == todo[m..]
    ensures valueLen > 0 && nameLen > 0 ==> nameData + nameLen + 1 + valueLen == pos < end
    ensures var stop := if pos < end then pos + 1 else end;
            var valueData := nameData + nameLen + 1;
            if valueLen > 0 && nameLen > 0 then
              match ApplyField(e, para, cur, Field(b[nameData..nameData + nameLen],
                                                   b[valueData..valueData + valueLen], b[valueData..nul]))
              case None => ApplyAll(e, para, url_args, FieldsOf(data, b[end..nul])) == None
              case Some(next) => Progress(e, para, url_args, data, b[end..nul], b[begin..stop], b[stop..end], next)
            else
              Progress(e, para, url_args, data, b[end..nul], b[begin..stop], b[stop..end], cur)
  {
    hide ApplyField, ApplyAll, FieldsOf, Progress, SegmentScanned, Lowered;
    var k, m, w := pos - nameData, Resume(todo, pos - nameData), b[nameData..nul];
    WholeSlices(b, begin, nameData, end, nul, m);
    SegmentTaken(e, para, url_args, data, b[end..nul], done, todo, cur, w, k, nameLen, valueLen);
    if valueLen > 0 && nameLen > 0 {
      FieldSlices(b, nameData, nul, nameLen, k);
    }
  }

  /** Slices of the buffer, seen from the segment's first byte. */
  lemma WholeSlices(b: bytes, begin: nat, nameData: nat, end: nat, nul: nat, m: nat)
    requires begin <= nameData <= nameData + m <= end <= nul <= |b|
    ensures var w := b[nameData..nul];
            && w[..m] == b[nameData..nameData + m]
            && w[m..end - nameData] == b[nameData + m..end]
            && w[end - nameData..] == b[end..nul]
            && b[begin..nameData] + w[..m] == b[begin..nameData + m]
  {
    SliceOfSlice(b, nameData, nul, 0, m);
    SliceOfSlice(b, nameData, nul, m, end - nameData);
    SliceOfSlice(b, nameData, nul, end - nameData, nul - nameData);
    Adjacent(b, begin, nameData, nameData + m);
  }

  lemma Adjacent(w: bytes, a: nat, b: nat, c: nat)
    requires a <= b <= c <= |w|
    ensures w[a..b] + w[b..c] == w[a..c]
  {
  }

  lemma FieldSlices(b: bytes, nameData: nat, nul: nat, nameLen: nat, k: nat)
    requires nameData + nameLen < nameData + k <= nul <= |b|
    ensures b[nameData..nul][..nameLen] == b[nameData..nameData + nameLen]
    ensures b[nameData..nul][nameLen + 1..k] == b[nameData + nameLen + 1..nameData + k]
    ensures b[nameData..nul][nameLen + 1..] == b[nameData + nameLen + 1..nul]
  {
    SliceOfSlice(b, nameData, nul, 0, nameLen);
    SliceOfSlice(b, nameData, nul, nameLen + 1, k);
    SliceOfSlice(b, nameData, nul, nameLen + 1, nul - nameData);
  }

  /** One segment: the inner loop, then the table. None is `return TINZ_ERROR`. */
  method TakeSegment(e: Edition, para: GeneralPara, str: array<byte>, begin: nat, end: nat, nul: nat, nameData: nat,
                     cur: Args,
                     ghost url_args: Args, ghost data: bytes)
    returns (pos: nat, next: Option<Args>)
    requires begin <= nameData < end <= nul <= str.Length
    requires Progress(e, para, url_args, data, str[end..nul], str[begin..nameData], str[nameData..end], cur)
    modifies str
    ensures nameData <= pos <= end
    ensures str[..begin] == old(str[..begin]) && str[end..] == old(str[end..]) && str[end..nul] == old(str[end..nul])
    ensures next.None? ==> ApplyAll(e, para, url_args, FieldsOf(data, str[end..nul])) == None
    ensures next.Some? ==> var m := if pos < end then pos + 1 else end;
                           Progress(e, para, url_args, data, str[end..nul], str[begin..m], str[m..end], next.value)
  {
    hide ApplyField, ApplyAll, FieldsOf, Progress, SegmentScanned, Lowered;
    ghost var done, todo := str[begin..nameData], str[nameData..end];
    var nameLen, valueData, valueLen;
    pos, nameLen, valueData, valueLen := ScanSegmentTo(str, begin, nameData, end, nul);
    SegmentTakenIn(e, para, url_args, data, done, todo, cur, str[..], begin, nameData, end, nul, pos, nameLen,
                   valueLen);
    next := Some(cur);
    if valueLen > 0 && nameLen > 0 {
      next := ApplyField(e, para, cur,
                         Field(str[nameData..nameData + nameLen], str[valueData..valueData + valueLen],
                               str[valueData..nul]));
    }
  }

  /** The field loop. On success the arguments are those of the segment's fields and the buffer
      holds the segment with its keys folded; nothing outside the segment is ever written. */
  method ScanFields(e: Edition, para: GeneralPara, str: array<byte>, begin: nat, end: nat, nul: nat, url_args: Args)
    returns (args: Option<Args>)
    requires begin <= end <= nul <= str.Length
    modifies str
    ensures args == ApplyAll(e, para, url_args, FieldsOf(old(str[begin..end]), old(str[end..nul])))
    ensures args.Some? ==> str[begin..end] == Rewritten(old(str[begin..end]))
    ensures str[..begin] == old(str[..begin]) && str[end..] == old(str[end..])
  {
    hide ApplyAll, FieldsOf, Rewritten, Progress;
    ghost var data, after := str[begin..end], str[end..nul];
    var cur := url_args;
    var pos := begin;
    Started(e, para, url_args, data, after);
    assert str[begin..begin] == [];
    while pos < end
      invariant begin <= pos
      invariant str[..begin] == old(str[..begin]) && str[end..] == old(str[end..])
      invariant str[end..nul] == after
      invariant pos <= end ==> Progress(e, para, url_args, data, after, str[begin..pos], str[pos..end], cur)
      invariant pos > end ==> Progress(e, para, url_args, data, after, str[begin..end], [], cur)
      decreases end - pos
    {
      if str[pos] == AMPERSAND {
        AmpersandStep(e, para, url_args, data, after, str[begin..pos], str[pos..end], cur);
        assert str[begin..pos + 1] == str[begin..pos] + [AMPERSAND];
        assert str[pos + 1..end] == str[pos..end][1..];
        pos := pos + 1;
        continue;
      }
      var next;
      pos, next := TakeSegment(e, para, str, begin, end, nul, pos, cur, url_args, data);
      if next.None? {
        return None;
      }
      assert str[end..end] == [];
      cur := next.value;
      pos := pos + 1;
    }
    assert pos == end ==> str[pos..end] == [];
    Finished(e, para, url_args, data, after, str[begin..end], cur);
    args := Some(cur);
  }

  /** What parse_url makes of a message, given what url_args held beforehand. */
  function Parsed(e: Edition, para: GeneralPara, url_args: Args, s: bytes): Option<Args> {
    match FrameVerdict(e, Terminator(e), s)
    case Accept(start, end) =>
      var args := ApplyAll(e, para, url_args, FieldsOf(s[start..end], s[end..]));
      if args.None? || args.value.cn == 0 || args.value.qn == [] then None else args
    case _ => None
  }

  /** parse_url. The receive buffer holds the message up to `nul`. `hung` says that the checksum
      loop is never left, in which case there is no result and nothing has been written. */
  method ParseUrl(e: Edition, para: GeneralPara, str: array<byte>, nul: nat, url_args: Args)
    returns (args: Option<Args>, hung: bool)
    requires nul < str.Length
    modifies str
    ensures hung <==> e.AsWritten? && RunsAway(Terminator(e), old(str[..nul]))
    ensures hung ==> str[..] == old(str[..])
    ensures !hung ==> args == Parsed(e, para, url_args, old(str[..nul]))
  {
    hide ApplyAll, FieldsOf, FrameVerdict, RunsAway;
    ghost var s := str[..nul];
    var v := CheckFrame(e, Terminator(e), str[..nul]);
    RunsAwayExactly(e, Terminator(e), s);
    if !v.Accept? {
      return None, v.Runaway?;
    }
    hung := false;
    Segment(str[..], nul, v.start, v.end);
    args := ScanFields(e, para, str, v.start, v.end, nul, url_args);
    if args.Some? && (args.value.cn == 0 || |args.value.qn| == 0) {
      return None, false;
    }
  }

  lemma Segment(w: bytes, nul: nat, start: nat, end: nat)
    requires start <= end <= nul <= |w|
    ensures w[..nul][start..end] == w[start..end] && w[..nul][end..] == w[end..nul]
  {
  }
}
