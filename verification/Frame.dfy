/** HJ 212 packets (section 6.3 of HJ 212-2017): what the builder emits and what the first half
    of parse_url accepts. */
module Frame {
  import opened Bytes
  import opened Editions
  import opened NgxParse
  import opened Crc

  const HASHES: bytes := [0x23, 0x23]
  const CRLF: bytes := [0x0D, 0x0A]
  const SLASH_R_SLASH_N: bytes := [0x2F, 0x72, 0x2F, 0x6E]

  function Terminator(e: Edition): bytes {
    if e.AsWritten? then SLASH_R_SLASH_N else CRLF
  }

  /** "##", the length in four digits, the data segment, its checksum, the terminator. */
  function Packet(payload: bytes, terminator: bytes): (p: bytes)
    requires |payload| < 10000
    ensures |p| == |payload| + 10 + |terminator|
  {
    HASHES + Dec4(|payload|) + payload + Hex4(Gb212(payload)) + terminator
  }

  /** Accept delimits the data segment. Runaway is the call CRC16_GB212(pos, -1), whose
      countdown starts below zero and never meets its end. */
  datatype Verdict = Reject | Runaway | Accept(start: nat, end: nat)

  /** parse_url up to the checksum test. `str` is the C string received; the receive buffer is
      zeroed beyond it, so a length field cut short leaves nothing to search. */
  method CheckFrame(e: Edition, terminator: bytes, str: bytes) returns (v: Verdict)
    requires |terminator| > 0
    ensures v == FrameVerdict(e, terminator, str)
  {
    hide StrStr, Atoi, HexToI, Gb212;
    if |str| < 12 {
      return Reject;
    }
    var hashes := StrStr(str, HASHES, 0);
    if hashes.None? {
      return Reject;
    }
    var pos := hashes.value + 2;
    if |str| < pos + 4 {
      return Reject;
    }
    var data_len := NgxAtoi(str[pos..pos + 4]);
    if data_len == NGX_ERROR && e.Repaired? {
      return Reject;
    }
    pos := pos + 4;
    var end := StrStr(str, terminator, pos);
    if end.None? || end.value - pos != data_len + 4 {
      return Reject;
    }
    var crc16 := NgxHexToI(str[end.value - 4..end.value]);
    if crc16 == NGX_ERROR {
      return Reject;
    }
    if data_len < 0 {
      return Runaway;
    }
    var wkg := CRC16Gb212(str[pos..pos + data_len]);
    if crc16 != wkg as int {
      return Reject;
    }
    return Accept(pos, pos + data_len);
  }

  function FrameVerdict(e: Edition, terminator: bytes, str: bytes): (v: Verdict)
    requires |terminator| > 0
    ensures v.Accept? ==> v.start <= v.end <= |str|
  {
    var hashes := StrStr(str, HASHES, 0);
    if |str| < 12 || hashes.None? || |str| < hashes.value + 6 then Reject else
    var pos := hashes.value + 6;
    var data_len := Atoi(str[pos - 4..pos]);
    var end := StrStr(str, terminator, pos);
    if (data_len == NGX_ERROR && e.Repaired?) || end.None? || end.value - pos != data_len + 4 then Reject else
    var crc16 := HexToI(str[end.value - 4..end.value]);
    if crc16 == NGX_ERROR then Reject else
    if data_len < 0 then Runaway else
    if crc16 != Gb212(str[pos..pos + data_len]) as int then Reject else Accept(pos, pos + data_len)
  }

  // ---- Everything accepted is a packet --------------------------------------------------

  /** `str` carries `payload` in a packet that no earlier marker or terminator pre-empts. */
  ghost predicate Carries(str: bytes, terminator: bytes, prefix: bytes, len4: bytes, payload: bytes, crc4: bytes,
                          tail: bytes) {
    && str == prefix + HASHES + len4 + payload + crc4 + terminator + tail
    && |len4| == 4 && Atoi(len4) == |payload|
    && |crc4| == 4 && HexToI(crc4) == Gb212(payload) as int
    && !Contains(prefix + [0x23], HASHES)
    && (forall i :: 0 <= i < |payload| + 4 ==> !MatchesAt(payload + crc4 + terminator + tail, terminator, i))
  }

  lemma MatchInside(a: bytes, b: bytes, pat: bytes, i: int)
    ensures MatchesAt(a + b, pat, |a| + i) && 0 <= i <==> MatchesAt(b, pat, i)
  {
    if 0 <= i <= |b| - |pat| {
      assert (a + b)[|a| + i..|a| + i + |pat|] == b[i..i + |pat|];
    }
  }

  lemma FirstHashes(prefix: bytes, rest: bytes)
    ensures StrStr(prefix + HASHES + rest, HASHES, 0) == Some(|prefix|) <==> !Contains(prefix + [0x23], HASHES)
  {
    var s := prefix + HASHES + rest;
    assert s == (prefix + [0x23]) + ([0x23] + rest);
    assert MatchesAt(s, HASHES, |prefix|);
    forall i | 0 <= i < |prefix| ensures MatchesAt(s, HASHES, i) <==> MatchesAt(prefix + [0x23], HASHES, i) {
      assert s[i..i + 2] == (prefix + [0x23])[i..i + 2];
    }
    if Contains(prefix + [0x23], HASHES) {
      var i :| MatchesAt(prefix + [0x23], HASHES, i);
      assert MatchesAt(s, HASHES, i);
    }
  }

  lemma FirstTerminator(head: bytes, body: bytes, terminator: bytes, tail: bytes)
    requires |terminator| > 0
    ensures StrStr(head + body + terminator + tail, terminator, |head|) == Some(|head| + |body|) <==>
            (forall i :: 0 <= i < |body| ==> !MatchesAt(body + terminator + tail, terminator, i))
  {
    var s, rest := head + body + terminator + tail, body + terminator + tail;
    assert s == head + rest;
    forall i | 0 <= i ensures MatchesAt(s, terminator, |head| + i) <==> MatchesAt(rest, terminator, i) {
      MatchInside(head, rest, terminator, i);
    }
    assert rest[|body|..|body| + |terminator|] == terminator;
    assert MatchesAt(rest, terminator, |body|);
    var r := StrStr(s, terminator, |head|);
    if r == Some(|head| + |body|) {
      forall i | 0 <= i < |body| ensures !MatchesAt(rest, terminator, i) {
        assert !MatchesAt(s, terminator, |head| + i);
      }
    } else {
      assert r.Some? && r.value < |head| + |body|;
      assert MatchesAt(rest, terminator, r.value - |head|);
    }
  }

  lemma Middle(a: bytes, b: bytes, c: bytes)
    ensures (a + (b + c))[|a|..|a| + |b|] == b && (a + (b + c))[|a| + |b|..] == c && (a + (b + c))[..|a|] == a
  {
  }

  lemma Parts(str: bytes, prefix: bytes, len4: bytes, payload: bytes, crc4: bytes, rest: bytes)
    requires str == prefix + HASHES + len4 + payload + crc4 + rest && |len4| == 4 && |crc4| == 4
    ensures var pos := |prefix| + 6;
            && str[pos - 4..pos] == len4
            && str[pos..pos + |payload|] == payload
            && str[pos + |payload|..pos + |payload| + 4] == crc4
            && str[..|prefix|] == prefix
            && str[pos + |payload| + 4..] == rest
  {
    var a := prefix + HASHES;
    var b := a + len4;
    var c := b + payload;
    Assoc(c, crc4, rest);
    Assoc(b, payload, crc4 + rest);
    Assoc(a, len4, payload + (crc4 + rest));
    Assoc(prefix, HASHES, len4 + (payload + (crc4 + rest)));
    Middle(a, len4, payload + (crc4 + rest));
    Middle(b, payload, crc4 + rest);
    Middle(c, crc4, rest);
  }

  /** What the two searches find, in terms of the parts. */
  lemma MarkerSearch(str: bytes, prefix: bytes, rest: bytes)
    requires str == prefix + HASHES + rest
    ensures StrStr(str, HASHES, 0) == Some(|prefix|) <==> !Contains(prefix + [0x23], HASHES)
  {
    FirstHashes(prefix, rest);
  }

  lemma TerminatorSearch(str: bytes, terminator: bytes, head: bytes, payload: bytes, crc4: bytes, tail: bytes)
    requires |terminator| > 0
    requires str == head + payload + crc4 + terminator + tail
    ensures StrStr(str, terminator, |head|) == Some(|head| + |payload| + |crc4|) <==>
            (forall i :: 0 <= i < |payload| + |crc4| ==> !MatchesAt(payload + crc4 + terminator + tail, terminator, i))
  {
    hide StrStr, MatchesAt;
    assert head + payload + crc4 == head + (payload + crc4);
    FirstTerminator(head, payload + crc4, terminator, tail);
  }

  lemma Assoc(a: bytes, b: bytes, c: bytes)
    ensures a + b + c == a + (b + c)
  {
  }

  lemma MarkerInParts(str: bytes, terminator: bytes, prefix: bytes, len4: bytes, payload: bytes, crc4: bytes,
                      tail: bytes)
    requires str == prefix + HASHES + len4 + payload + crc4 + terminator + tail
    ensures StrStr(str, HASHES, 0) == Some(|prefix|) <==> !Contains(prefix + [0x23], HASHES)
  {
    hide StrStr, MatchesAt, Contains;
    var marked := prefix + HASHES;
    var head := marked + len4;
    Assoc(head + payload + crc4, terminator, tail);
    Assoc(head + payload, crc4, terminator + tail);
    Assoc(head, payload, crc4 + (terminator + tail));
    Assoc(marked, len4, payload + (crc4 + (terminator + tail)));
    MarkerSearch(str, prefix, len4 + (payload + (crc4 + (terminator + tail))));
  }

  lemma Searches(str: bytes, terminator: bytes, prefix: bytes, len4: bytes, payload: bytes, crc4: bytes, tail: bytes)
    requires |terminator| > 0 && |len4| == 4 && |crc4| == 4
    requires str == prefix + HASHES + len4 + payload + crc4 + terminator + tail
    ensures StrStr(str, HASHES, 0) == Some(|prefix|) <==> !Contains(prefix + [0x23], HASHES)
    ensures StrStr(str, terminator, |prefix| + 6) == Some(|prefix| + 6 + |payload| + 4) <==>
            (forall i :: 0 <= i < |payload| + 4 ==> !MatchesAt(payload + crc4 + terminator + tail, terminator, i))
  {
    hide StrStr, MatchesAt, Contains;
    MarkerInParts(str, terminator, prefix, len4, payload, crc4, tail);
    TerminatorSearch(str, terminator, prefix + HASHES + len4, payload, crc4, tail);
  }

  /** Whatever carries a packet is accepted, and exactly its data segment is isolated. */
  lemma CarriedIsAccepted(e: Edition, str: bytes, terminator: bytes, prefix: bytes, len4: bytes, payload: bytes,
                          crc4: bytes, tail: bytes)
    requires |terminator| >= 2 && Carries(str, terminator, prefix, len4, payload, crc4, tail)
    ensures FrameVerdict(e, terminator, str) == Accept(|prefix| + 6, |prefix| + 6 + |payload|)
  {
    hide StrStr, MatchesAt, Contains, Atoi, HexToI, Gb212;
    Searches(str, terminator, prefix, len4, payload, crc4, tail);
    assert str == prefix + HASHES + len4 + payload + crc4 + (terminator + tail);
    Parts(str, prefix, len4, payload, crc4, terminator + tail);
  }

  /** Conversely, anything accepted carries a packet around the segment isolated. */
  lemma AcceptedIsCarried(e: Edition, terminator: bytes, str: bytes)
    requires |terminator| > 0 && FrameVerdict(e, terminator, str).Accept?
    ensures var v := FrameVerdict(e, terminator, str);
            && 6 <= v.start <= v.end <= v.end + 4 + |terminator| <= |str|
            && Carries(str, terminator, str[..v.start - 6], str[v.start - 4..v.start], str[v.start..v.end],
                       str[v.end..v.end + 4], str[v.end + 4 + |terminator|..])
  {
    hide Contains, Atoi, HexToI, Gb212, StrStr, FrameVerdict, MatchesAt;
    var v := FrameVerdict(e, terminator, str);
    AcceptedFacts(e, terminator, str);
    Reassembled(str, v.start, v.end, terminator);
    Searches(str, terminator, str[..v.start - 6], str[v.start - 4..v.start], str[v.start..v.end],
             str[v.end..v.end + 4], str[v.end + 4 + |terminator|..]);
  }

  /** What the acceptor has established when it accepts. */
  lemma AcceptedFacts(e: Edition, terminator: bytes, str: bytes)
    requires |terminator| > 0 && FrameVerdict(e, terminator, str).Accept?
    ensures var v := FrameVerdict(e, terminator, str);
            && 6 <= v.start <= v.end <= v.end + 4 + |terminator| <= |str|
            && StrStr(str, HASHES, 0) == Some(v.start - 6) && str[v.start - 6..v.start - 4] == HASHES
            && StrStr(str, terminator, v.start) == Some(v.end + 4)
               && str[v.end + 4..v.end + 4 + |terminator|] == terminator
            && Atoi(str[v.start - 4..v.start]) == v.end - v.start
            && HexToI(str[v.end..v.end + 4]) == Gb212(str[v.start..v.end]) as int
  {
    hide Atoi, HexToI, Gb212, StrStr, MatchesAt;
    var v := FrameVerdict(e, terminator, str);
    StrStrSlice(str, HASHES, 0);
    StrStrSlice(str, terminator, v.start);
  }

  lemma StrStrSlice(s: bytes, pat: bytes, from: nat)
    requires from <= |s| && StrStr(s, pat, from).Some?
    ensures var at := StrStr(s, pat, from).value; from <= at <= at + |pat| <= |s| && s[at..at + |pat|] == pat
  {
  }

  lemma StrStrFinds(s: bytes, pat: bytes, from: nat)
    requires from <= |s| && StrStr(s, pat, from).Some?
    ensures MatchesAt(s, pat, StrStr(s, pat, from).value)
  {
  }

  lemma Reassembled(str: bytes, start: nat, end: nat, terminator: bytes)
    requires 6 <= start <= end <= end + 4 + |terminator| <= |str|
    requires str[start - 6..start - 4] == HASHES && str[end + 4..end + 4 + |terminator|] == terminator
    ensures str == str[..start - 6] + HASHES + str[start - 4..start] + str[start..end] + str[end..end + 4] + terminator
                   + str[end + 4 + |terminator|..]
  {
    assert str[..start - 6] + str[start - 6..start - 4] + str[start - 4..start] == str[..start];
    assert str[..start] + str[start..end] + str[end..end + 4] == str[..end + 4];
    assert str[..end + 4] + str[end + 4..end + 4 + |terminator|] + str[end + 4 + |terminator|..] == str;
  }

  // ---- The builder's packets ------------------------------------------------------------

  /** No byte of the terminator can be mistaken for a printed checksum digit. */
  predicate HexFree(terminator: bytes) {
    forall i :: 0 <= i < |terminator| ==> !(IsDigit(terminator[i]) || 0x41 <= terminator[i] <= 0x46)
  }

  lemma MatchStaysInPayload(payload: bytes, crc4: bytes, terminator: bytes, rest: bytes, i: int)
    requires |terminator| > 0 && HexFree(terminator)
    requires |crc4| == 4 && forall k :: 0 <= k < 4 ==> IsDigit(crc4[k]) || 0x41 <= crc4[k] <= 0x46
    requires 0 <= i < |payload| + 4
    ensures MatchesAt(payload + crc4 + rest, terminator, i) <==> MatchesAt(payload, terminator, i)
  {
    var s := payload + crc4 + rest;
    if i + |terminator| <= |payload| {
      assert s[i..i + |terminator|] == payload[i..i + |terminator|];
    } else if i + |terminator| <= |s| {
      var k := if i < |payload| then |payload| else i;
      assert s[i..i + |terminator|][k - i] == crc4[k - |payload|] != terminator[k - i];
    }
  }

  /** Round trip with resynchronisation: a built packet, behind any prefix and before any tail,
      is found and its data segment isolated exactly when the prefix offers no earlier marker
      and the data does not contain the terminator. */
  lemma BuiltPacketAccepted(e: Edition, terminator: bytes, prefix: bytes, payload: bytes, tail: bytes)
    requires |terminator| >= 2 && HexFree(terminator) && |payload| < 10000
    ensures FrameVerdict(e, terminator, prefix + Packet(payload, terminator) + tail)
              == Accept(|prefix| + 6, |prefix| + 6 + |payload|) <==>
            !Contains(prefix + [0x23], HASHES) && !Contains(payload, terminator)
  {
    hide StrStr, MatchesAt, Contains, Atoi, HexToI, Gb212, Dec4, Hex4, FrameVerdict;
    var len4, crc4 := Dec4(|payload|), Hex4(Gb212(payload));
    var str := prefix + Packet(payload, terminator) + tail;
    assert str == prefix + HASHES + len4 + payload + crc4 + terminator + tail;
    AtoiDec4(|payload|);
    HexToIHex4(Gb212(payload));
    TerminatorOnlyInPayload(payload, terminator, tail);
    assert str == prefix + HASHES + len4 + payload + crc4 + (terminator + tail);
    Parts(str, prefix, len4, payload, crc4, terminator + tail);
    assert str == (prefix + HASHES + len4 + payload + crc4 + terminator) + tail;
    assert str[|prefix| + 6 + |payload| + 4 + |terminator|..] == tail;
    if !Contains(prefix + [0x23], HASHES) && !Contains(payload, terminator) {
      CarriedIsAccepted(e, str, terminator, prefix, len4, payload, crc4, tail);
    } else if FrameVerdict(e, terminator, str) == Accept(|prefix| + 6, |prefix| + 6 + |payload|) {
      AcceptedIsCarried(e, terminator, str);
    }
  }

  lemma TerminatorOnlyInPayload(payload: bytes, terminator: bytes, tail: bytes)
    requires |terminator| > 0 && HexFree(terminator)
    ensures (forall i :: 0 <= i < |payload| + 4 ==>
               !MatchesAt(payload + Hex4(Gb212(payload)) + terminator + tail, terminator, i)) <==>
              !Contains(payload, terminator)
  {
    var crc4 := Hex4(Gb212(payload));
    var s := payload + crc4 + terminator + tail;
    assert s == payload + crc4 + (terminator + tail);
    forall i | 0 <= i < |payload| + 4 ensures MatchesAt(s, terminator, i) <==> MatchesAt(payload, terminator, i) {
      MatchStaysInPayload(payload, crc4, terminator, terminator + tail, i);
    }
    if Contains(payload, terminator) {
      var i :| MatchesAt(payload, terminator, i);
      assert MatchesAt(s, terminator, i);
    }
  }

  // ---- The acceptor as written ----------------------------------------------------------

  /** Looking for `/r/n`, the acceptor refuses every packet the builder ever sends, behind any
      noise without a marker and whatever follows it. */
  lemma AsWrittenRefusesBuilt(prefix: bytes, payload: bytes, tail: bytes)
    requires |payload| < 10000 && !Contains(prefix + [0x23], HASHES)
    ensures FrameVerdict(AsWritten, Terminator(AsWritten), prefix + Packet(payload, CRLF) + tail) == Reject
  {
    hide StrStr, Atoi, HexToI, Gb212, Dec4, Hex4, MatchesAt, Contains;
    var str := prefix + Packet(payload, CRLF) + tail;
    var len4, crc4 := Dec4(|payload|), Hex4(Gb212(payload));
    assert str == prefix + HASHES + len4 + payload + crc4 + CRLF + tail;
    assert str == prefix + HASHES + len4 + payload + crc4 + (CRLF + tail);
    Parts(str, prefix, len4, payload, crc4, CRLF + tail);
    MarkerInParts(str, CRLF, prefix, len4, payload, crc4, tail);
    AtoiDec4(|payload|);
    var pos := |prefix| + 6;
    var at := pos + |payload| + 4;
    assert str[at] == str[at..][0] == 0x0D;
    assert str[pos - 4..pos] == len4 && StrStr(str, HASHES, 0) == Some(|prefix|);
    NotFoundAt(str, pos, at);
  }

  lemma NotFoundAt(str: bytes, pos: nat, at: nat)
    requires pos <= at < |str| && str[at] == 0x0D
    ensures StrStr(str, SLASH_R_SLASH_N, pos) != Some(at)
  {
    hide StrStr, MatchesAt;
    if StrStr(str, SLASH_R_SLASH_N, pos) == Some(at) {
      StrStrSlice(str, SLASH_R_SLASH_N, pos);
      NotSlash(str, at);
    }
  }

  /** And behind a prefix with markers of its own, whatever it may accept is not that packet's data. */
  lemma AsWrittenNeverIsolates(prefix: bytes, payload: bytes, tail: bytes)
    requires |payload| < 10000
    ensures FrameVerdict(AsWritten, Terminator(AsWritten), prefix + Packet(payload, CRLF) + tail)
            != Accept(|prefix| + 6, |prefix| + 6 + |payload|)
  {
    hide StrStr, Atoi, HexToI, Gb212, Dec4, Hex4, MatchesAt, FrameVerdict;
    var str := prefix + Packet(payload, CRLF) + tail;
    var len4, crc4 := Dec4(|payload|), Hex4(Gb212(payload));
    assert str == prefix + HASHES + len4 + payload + crc4 + CRLF + tail;
    assert str == prefix + HASHES + len4 + payload + crc4 + (CRLF + tail);
    Parts(str, prefix, len4, payload, crc4, CRLF + tail);
    var at := |prefix| + 6 + |payload| + 4;
    assert str[at] == str[at..][0] == 0x0D;
    if FrameVerdict(AsWritten, Terminator(AsWritten), str) == Accept(|prefix| + 6, |prefix| + 6 + |payload|) {
      AcceptedFacts(AsWritten, Terminator(AsWritten), str);
      NotSlash(str, at);
    }
  }

  lemma NotSlash(str: bytes, at: nat)
    requires at + 4 <= |str| && str[at..at + 4] == SLASH_R_SLASH_N
    ensures str[at] == 0x2F
  {
    assert str[at] == str[at..at + 4][0];
  }

  lemma SingleHash()
    ensures !Contains([] + [0x23], HASHES)
  {
  }

  /** A packet cut off before its checksum, as a NUL in the send buffer cuts it, is never
      accepted, whichever terminator is searched for. */
  lemma CutPacketRefused(e: Edition, terminator: bytes, payload: bytes)
    requires |terminator| > 0 && |payload| < 10000
    ensures !FrameVerdict(e, terminator, HASHES + Dec4(|payload|) + payload).Accept?
  {
    hide StrStr, Atoi, HexToI, Gb212, Dec4;
    var str := HASHES + Dec4(|payload|) + payload;
    assert !Contains([] + [0x23], HASHES);
    assert str == [] + HASHES + (Dec4(|payload|) + payload);
    FirstHashes([], Dec4(|payload|) + payload);
    assert str[2..6] == Dec4(|payload|);
    AtoiDec4(|payload|);
    if StrStr(str, terminator, 6).Some? {
      StrStrFinds(str, terminator, 6);
    }
  }

  /** Rejecting unreadable lengths is what keeps the checksum loop finite. */
  lemma RepairedNeverRunsAway(terminator: bytes, str: bytes)
    requires |terminator| > 0
    ensures FrameVerdict(Repaired, terminator, str) != Runaway
    ensures FrameVerdict(AsWritten, terminator, str) != Runaway ==>
              FrameVerdict(AsWritten, terminator, str) == FrameVerdict(Repaired, terminator, str)
  {
  }

  lemma StrStrIs(s: bytes, pat: bytes, from: nat, at: nat)
    requires from <= at <= |s| && MatchesAt(s, pat, at) && forall i :: from <= i < at ==> !MatchesAt(s, pat, i)
    ensures StrStr(s, pat, from) == Some(at)
  {
  }

  /** The messages the checksum loop never finishes: behind the marker four characters that are
      no number, the last of which begins four hexadecimal digits with the terminator behind them. */
  predicate RunsAway(terminator: bytes, str: bytes)
    requires |terminator| > 0
  {
    var hashes := StrStr(str, HASHES, 0);
    && |str| >= 12 && hashes.Some?
    && hashes.value + 9 <= |str|
    && Atoi(str[hashes.value + 2..hashes.value + 6]) == NGX_ERROR
    && StrStr(str, terminator, hashes.value + 6) == Some(hashes.value + 9)
    && HexToI(str[hashes.value + 5..hashes.value + 9]) != NGX_ERROR
  }

  /** As written the check runs away on those messages and on no others. */
  lemma RunsAwayExactly(e: Edition, terminator: bytes, str: bytes)
    requires |terminator| > 0
    ensures FrameVerdict(e, terminator, str) == Runaway <==> e.AsWritten? && RunsAway(terminator, str)
  {
    hide StrStr, Atoi, HexToI, Gb212;
    if StrStr(str, HASHES, 0).Some? && StrStr(str, HASHES, 0).value + 6 <= |str| {
      AtoiRange(str[StrStr(str, HASHES, 0).value + 2..StrStr(str, HASHES, 0).value + 6]);
    }
  }

  /** One of them: "##000A123/r/n". */
  lemma SomeMessageRunsAway()
    ensures FrameVerdict(AsWritten, SLASH_R_SLASH_N,
                         [0x23, 0x23, 0x30, 0x30, 0x30, 0x41, 0x31, 0x32, 0x33, 0x2F, 0x72, 0x2F, 0x6E]) == Runaway
  {
    hide StrStr;
    var s: bytes := [0x23, 0x23, 0x30, 0x30, 0x30, 0x41, 0x31, 0x32, 0x33, 0x2F, 0x72, 0x2F, 0x6E];
    assert s[0..2] == HASHES;
    StrStrIs(s, HASHES, 0, 0);
    assert s[9..13] == SLASH_R_SLASH_N;
    forall i | 6 <= i < 9 ensures !MatchesAt(s, SLASH_R_SLASH_N, i) {
      assert s[i..i + 4][0] == s[i] != SLASH_R_SLASH_N[0];
    }
    StrStrIs(s, SLASH_R_SLASH_N, 6, 9);
    assert s[2..6][3] == 0x41;
    assert s[5..9] == [0x41, 0x31, 0x32, 0x33];
    HexValueOf4(0x41, 0x31, 0x32, 0x33);
  }
}
