/** Bytes and byte strings, with the one C library search the daemons rely on. */
module Bytes {

  datatype Option<+T> = None | Some(value: T)

  /** The C code's `char` buffers, read as unsigned bytes. */
  type byte = bv8

  type bytes = seq<byte>

  /** What a C string holds: anything but its terminator. */
  predicate NulFree(s: bytes) {
    0 !in s
  }

  predicate MatchesAt(s: bytes, pat: bytes, i: int) {
    0 <= i <= |s| - |pat| && s[i..i + |pat|] == pat
  }

  ghost predicate Contains(s: bytes, pat: bytes) {
    exists i :: MatchesAt(s, pat, i)
  }

  /** `strstr(s + from, pat)`: the least match position at or after `from`. */
  function StrStr(s: bytes, pat: bytes, from: nat): (r: Option<nat>)
    requires from <= |s|
    ensures r.None? ==> forall i :: from <= i ==> !MatchesAt(s, pat, i)
    ensures r.Some? ==> from <= r.value && MatchesAt(s, pat, r.value)
    ensures r.Some? ==> forall i :: from <= i < r.value ==> !MatchesAt(s, pat, i)
    decreases |s| - from
  {
    if MatchesAt(s, pat, from) then Some(from)
    else if from == |s| then None
    else StrStr(s, pat, from + 1)
  }

  /** The two bytes of a 16-bit word. */
  function High(w: bv16): (x: bv16)
    ensures x < 0x100
  {
    w >> 8
  }

  function Low(w: bv16): (x: bv16)
    ensures x < 0x100
  {
    w & 0xFF
  }

  function Mix(a: byte, b: byte): byte {
    a ^ b
  }

  lemma SameOrdinal(a: byte, b: byte)
    ensures a as int == b as int <==> a == b
  {
  }

  lemma NibbleAsByte(n: nat)
    requires n < 16
    ensures n as bv8 as int == n && n as bv8 < 16
  {
  }

  lemma JoinNibbles(h: byte, l: byte)
    requires h < 16 && l < 16
    ensures ((h << 4) | l) as int == h as int * 16 + l as int
  {
  }

  /** An int stored in a u_char it fits. */
  function ToByte(n: nat): (b: byte)
    requires n < 256
    ensures b as int == n
  {
    NibbleAsByte(n / 16);
    NibbleAsByte(n % 16);
    JoinNibbles((n / 16) as bv8, (n % 16) as bv8);
    (((n / 16) as bv8) << 4) | ((n % 16) as bv8)
  }

  lemma SliceOfSlice(w: bytes, a: nat, c: nat, i: nat, j: nat)
    requires a + i <= a + j <= c <= |w|
    ensures w[a..c][i..j] == w[a + i..a + j]
  {
    var s, t := w[a..c][i..j], w[a + i..a + j];
    assert |s| == |t|;
    forall x | 0 <= x < |s| ensures s[x] == t[x] {
      assert s[x] == w[a..c][i + x] == w[a + (i + x)];
    }
  }
}
