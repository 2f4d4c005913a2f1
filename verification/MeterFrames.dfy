/** Finding and decoding the answers of the two serial meters (protocol.c). */
module MeterFrames {
  import opened Bytes
  import opened Modular

  // ---- The scanner ----------------------------------------------------------------------

  predicate CandidateAt(buf: bytes, start: byte, end: byte, datalen: nat, i: int)
    requires datalen >= 1
  {
    0 <= i <= |buf| - datalen && buf[i] == start && buf[i + datalen - 1] == end
  }

  /** The least candidate. */
  ghost predicate FirstCandidate(buf: bytes, start: byte, end: byte, datalen: nat, i: int)
    requires datalen >= 1
  {
    CandidateAt(buf, start, end, datalen, i) && forall j :: 0 <= j < i ==> !CandidateAt(buf, start, end, datalen, j)
  }

  /** find_start_and_end: it succeeds iff there is a candidate, and then on the least one; giving
      up at the first start byte too close to the end loses nothing. */
  method FindStartAndEnd(readbuf: array<byte>, nread: nat, start: byte, end: byte, datalen: nat)
    returns (found: bool, start_index: nat, end_index: nat)
    requires nread <= readbuf.Length && datalen >= 1
    ensures found ==> FirstCandidate(readbuf[..nread], start, end, datalen, start_index)
    ensures found ==> end_index == start_index + datalen - 1
    ensures !found ==> forall i :: !CandidateAt(readbuf[..nread], start, end, datalen, i)
  {
    var iLoop := 0;
    while iLoop < nread
      invariant iLoop <= nread
      invariant forall i :: 0 <= i < iLoop ==> !CandidateAt(readbuf[..nread], start, end, datalen, i)
    {
      if start == readbuf[iLoop] {
        if nread - iLoop >= datalen {
          if end == readbuf[iLoop + datalen - 1] {
            return true, iLoop, iLoop + datalen - 1;
          }
        } else {
          return false, 0, 0;
        }
      }
      iLoop := iLoop + 1;
    }
    return false, 0, 0;
  }

  /** The frame a scan settles on. */
  function FirstFrame(buf: bytes, start: byte, end: byte, datalen: nat, from: nat): (r: Option<nat>)
    requires datalen >= 1 && from <= |buf|
    ensures r.Some? ==> from <= r.value && CandidateAt(buf, start, end, datalen, r.value)
    ensures r.Some? ==> forall i :: from <= i < r.value ==> !CandidateAt(buf, start, end, datalen, i)
    ensures r.None? ==> forall i :: from <= i ==> !CandidateAt(buf, start, end, datalen, i)
    decreases |buf| - from
  {
    if CandidateAt(buf, start, end, datalen, from) then Some(from)
    else if from == |buf| then None
    else FirstFrame(buf, start, end, datalen, from + 1)
  }

  lemma FirstIs(buf: bytes, start: byte, end: byte, datalen: nat, i: nat)
    requires datalen >= 1 && FirstCandidate(buf, start, end, datalen, i)
    ensures FirstFrame(buf, start, end, datalen, 0) == Some(i)
  {
  }

  lemma NoneIs(buf: bytes, start: byte, end: byte, datalen: nat)
    requires datalen >= 1 && forall i :: !CandidateAt(buf, start, end, datalen, i)
    ensures FirstFrame(buf, start, end, datalen, 0) == None
  {
  }

  /** The noise in front of a frame starts no candidate of its own. */
  ghost predicate Quiet(noise: bytes, frame: bytes, tail: bytes, start: byte, end: byte)
    requires |frame| >= 1
  {
    var buf := noise + frame + tail;
    forall i :: 0 <= i < |noise| ==> !CandidateAt(buf, start, end, |frame|, i)
  }

  /** Behind noise a frame is the one found exactly when the noise starts no candidate. */
  lemma FrameBehindNoise(noise: bytes, frame: bytes, tail: bytes, start: byte, end: byte)
    requires |frame| >= 1 && frame[0] == start && frame[|frame| - 1] == end
    ensures FirstFrame(noise + frame + tail, start, end, |frame|, 0) == Some(|noise|) <==>
              Quiet(noise, frame, tail, start, end)
  {
    var buf := noise + frame + tail;
    assert CandidateAt(buf, start, end, |frame|, |noise|);
  }

  // ---- Checksums ------------------------------------------------------------------------

  function Total(s: bytes): nat {
    if s == [] then 0 else Total(s[..|s| - 1]) + s[|s| - 1] as int
  }

  /** `check += b` on a u_char. */
  function SumCheck(s: bytes): (check: nat)
    ensures check < 256
  {
    Total(s) % 256
  }

  /** XORValid. */
  function XorCheck(s: bytes): byte {
    if s == [] then 0 else Mix(XorCheck(s[..|s| - 1]), s[|s| - 1])
  }

  lemma SumOneMore(s: bytes, b: byte)
    ensures SumCheck(s + [b]) == (SumCheck(s) + b as int) % 256
  {
    assert (s + [b])[..|s|] == s;
    RemainderOf(Total(s), b as int, 256);
  }

  lemma NothingSummed()
    ensures SumCheck([]) == 0
  {
  }

  method SumValid(buf: array<byte>, from: nat, to: nat) returns (check: nat)
    requires from <= to <= buf.Length
    ensures check == SumCheck(buf[from..to])
  {
    NothingSummed();
    hide SumCheck;
    assert buf[from..from] == [];
    check := 0;
    var iLoop := from;
    while iLoop < to
      invariant from <= iLoop <= to && check == SumCheck(buf[from..iLoop])
    {
      SumOneMore(buf[from..iLoop], buf[iLoop]);
      assert buf[from..iLoop + 1] == buf[from..iLoop] + [buf[iLoop]];
      check := (check + buf[iLoop] as int) % 256;
      iLoop := iLoop + 1;
    }
  }

  method XorValid(buf: array<byte>, from: nat, to: nat) returns (checksum: byte)
    requires from <= to <= buf.Length
    ensures checksum == XorCheck(buf[from..to])
  {
    checksum := 0;
    var i := from;
    while i < to
      invariant from <= i <= to && checksum == XorCheck(buf[from..i])
    {
      assert buf[from..i + 1][..i - from] == buf[from..i];
      checksum := checksum ^ buf[i];
      i := i + 1;
    }
  }

  lemma MixGroups(a: byte, b: byte, c: byte)
    ensures Mix(a, Mix(b, c)) == Mix(Mix(a, b), c)
  {
  }

  lemma MixZero(a: byte)
    ensures Mix(a, 0) == a && Mix(0, a) == a
  {
  }

  lemma MixCancels(p: byte, x: byte, y: byte, q: byte)
    ensures Mix(Mix(p, x), q) == Mix(Mix(p, y), q) <==> x == y
  {
  }

  lemma {:induction false} TotalConcat(s: bytes, t: bytes)
    ensures Total(s + t) == Total(s) + Total(t)
  {
    if t == [] {
      assert s + t == s;
    } else {
      assert (s + t)[..|s + t| - 1] == s + t[..|t| - 1];
      TotalConcat(s, t[..|t| - 1]);
    }
  }

  lemma {:induction false} XorConcat(s: bytes, t: bytes)
    ensures XorCheck(s + t) == Mix(XorCheck(s), XorCheck(t))
  {
    hide Mix;
    if t == [] {
      assert s + t == s;
      MixZero(XorCheck(s));
    } else {
      assert (s + t)[..|s + t| - 1] == s + t[..|t| - 1];
      XorConcat(s, t[..|t| - 1]);
      MixGroups(XorCheck(s), XorCheck(t[..|t| - 1]), t[|t| - 1]);
    }
  }

  lemma InContext(p: bytes, x: byte, q: bytes)
    ensures Total(p + [x] + q) == Total(p) + x as int + Total(q)
    ensures XorCheck(p + [x] + q) == Mix(Mix(XorCheck(p), x), XorCheck(q))
  {
    hide Mix;
    TotalConcat(p + [x], q);
    XorConcat(p + [x], q);
    assert (p + [x])[..|p|] == p;
  }

  lemma SumSeesDifference(t: nat, x: byte, y: byte)
    ensures (t + x as int) % 256 == (t + y as int) % 256 <==> x == y
  {
    SameResidue(t, x as int, y as int);
    SameOrdinal(x, y);
  }

  lemma SameResidue(t: nat, x: nat, y: nat)
    requires x < 256 && y < 256
    ensures (t + x) % 256 == (t + y) % 256 <==> x == y
  {
  }

  /** Both checksums notice every single-byte substitution. */
  lemma SubstitutionNoticed(s: bytes, i: nat, b: byte)
    requires i < |s|
    ensures SumCheck(s[i := b]) == SumCheck(s) <==> b == s[i]
    ensures XorCheck(s[i := b]) == XorCheck(s) <==> b == s[i]
  {
    hide Total, XorCheck, Mix;
    var p, q := s[..i], s[i + 1..];
    InContext(p, s[i], q);
    InContext(p, b, q);
    assert s == p + [s[i]] + q && s[i := b] == p + [b] + q;
    MixCancels(XorCheck(p), s[i], b, XorCheck(q));
    SumSeesDifference(Total(p) + Total(q), s[i], b);
  }
}
