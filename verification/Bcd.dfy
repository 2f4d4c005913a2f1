/** Packed decimal: the conversions of tinz_base_def.h and the flow meter's eight-byte total. */
module Bcd {
  import opened Bytes
  import opened Editions

  /** BCD2BIN. */
  function Bcd2Bin(b: byte): (v: nat)
    ensures v <= 165
  {
    (b & 15) as int + (b >> 4) as int * 10
  }

  function Nibble(d: nat): (b: byte)
    requires d < 10
    ensures b < 10 && b as int == d
  {
    d as bv8
  }

  /** BIN2BCD. */
  function Bin2Bcd(v: nat): byte
    requires v < 100
  {
    (Nibble(v / 10) << 4) + Nibble(v % 10)
  }

  /** Both halves are decimal digits. */
  predicate IsBcd(b: byte) {
    b & 15 < 10 && b >> 4 < 10
  }

  lemma Halves(h: byte, l: byte)
    requires h < 10 && l < 10
    ensures ((h << 4) + l) & 15 == l && ((h << 4) + l) >> 4 == h
  {
  }

  lemma Bcd2BinInverts(v: nat)
    requires v < 100
    ensures IsBcd(Bin2Bcd(v)) && Bcd2Bin(Bin2Bcd(v)) == v
  {
    Halves(Nibble(v / 10), Nibble(v % 10));
  }

  lemma Bin2BcdInverts(b: byte)
    requires IsBcd(b)
    ensures Bcd2Bin(b) < 100 && Bin2Bcd(Bcd2Bin(b)) == b
  {
    DigitsApart((b & 15) as int, (b >> 4) as int);
    SameNibble(b & 15, Nibble(Bcd2Bin(b) % 10));
    SameNibble(b >> 4, Nibble(Bcd2Bin(b) / 10));
    Rejoin(b);
  }

  lemma DigitsApart(l: nat, h: nat)
    requires l < 10 && h < 10
    ensures (l + h * 10) % 10 == l && (l + h * 10) / 10 == h
  {
  }

  lemma SameNibble(x: byte, y: byte)
    requires x as int == y as int
    ensures x == y
  {
  }

  lemma Rejoin(b: byte)
    ensures ((b >> 4) << 4) + (b & 15) == b
  {
  }

  /** The tens are in the upper half. */
  lemma HalvesAreDigits(b: byte)
    ensures Bcd2Bin(b) == b as int / 16 * 10 + b as int % 16
  {
    HalfValues(b);
    Quotient16(b as int, (b >> 4) as int, (b & 15) as int);
  }

  lemma HalfValues(b: byte)
    ensures b as int == (b >> 4) as int * 16 + (b & 15) as int && (b & 15) as int < 16
  {
  }

  lemma Quotient16(n: nat, q: nat, r: nat)
    requires n == q * 16 + r && r < 16
    ensures n / 16 == q && n % 16 == r
  {
  }

  // ---- The meter total ------------------------------------------------------------------

  /** The value of little-endian base-100 digits. */
  function Positional(p: bytes): nat {
    if p == [] then 0 else Bcd2Bin(p[0]) + 100 * Positional(p[1..])
  }

  function Pow100(k: nat): nat {
    if k == 0 then 1 else 100 * Pow100(k - 1)
  }

  /** What a 32-bit int keeps of a product. */
  function Int32(x: int): int {
    (x + 0x8000_0000) % 0x1_0000_0000 - 0x8000_0000
  }

  /** The sum in Protocol_15, in thousandths. As written the second term is an int product. */
  function MeterTotal(e: Edition, p: bytes): int
    requires |p| == 8
  {
    var second := Bcd2Bin(p[6]) * 1_000_000_000;
    Bcd2Bin(p[7]) * 100_000_000_000_000
    + (if e.AsWritten? then Int32(second) else second) * 1000
    + Bcd2Bin(p[5]) * 10_000_000_000
    + Bcd2Bin(p[4]) * 100_000_000
    + Bcd2Bin(p[3]) * 1_000_000
    + Bcd2Bin(p[2]) * 10_000
    + Bcd2Bin(p[1]) * 100
    + Bcd2Bin(p[0])
  }

  /** The sum is the positional value of the eight digits. */
  lemma TotalIsPositional(p: bytes)
    requires |p| == 8
    ensures MeterTotal(Repaired, p) == Positional(p)
  {
    hide Bcd2Bin;
    assert Positional(p[8..]) == 0;
    Shift(p, 7);
    Shift(p, 6);
    Shift(p, 5);
    Shift(p, 4);
    Shift(p, 3);
    Shift(p, 2);
    Shift(p, 1);
    Shift(p, 0);
    assert p[0..] == p;
  }

  /** 78 56 34 12 00 00 00 00 is 12345.678. */
  lemma TotalInBytes()
    ensures MeterTotal(Repaired, [0x78, 0x56, 0x34, 0x12, 0x00, 0x00, 0x00, 0x00]) == 12_345_678
  {
    HalvesAreDigits(0x78);
    HalvesAreDigits(0x56);
    HalvesAreDigits(0x34);
    HalvesAreDigits(0x12);
    HalvesAreDigits(0x00);
    hide Bcd2Bin;
  }

  lemma Shift(p: bytes, i: nat)
    requires i < |p|
    ensures Positional(p[i..]) == Bcd2Bin(p[i]) + 100 * Positional(p[i + 1..])
  {
    assert p[i..][1..] == p[i + 1..];
  }

  /** As written the total is right exactly while its second digit is at most two. */
  lemma AsWrittenTotal(p: bytes)
    requires |p| == 8
    ensures MeterTotal(AsWritten, p) == Positional(p) <==> Bcd2Bin(p[6]) <= 2
  {
    hide Bcd2Bin, Positional;
    TotalIsPositional(p);
    IntProduct(Bcd2Bin(p[6]));
  }

  lemma IntProduct(v: nat)
    requires v <= 165
    ensures Int32(v * 1_000_000_000) == v * 1_000_000_000 <==> v <= 2
  {
  }

  /** What a meter showing n thousandths sends. */
  function Encode(n: nat, k: nat): (p: bytes)
    ensures |p| == k
  {
    if k == 0 then [] else [Bin2Bcd(n % 100)] + Encode(n / 100, k - 1)
  }

  predicate AllBcd(p: bytes) {
    forall i :: 0 <= i < |p| ==> IsBcd(p[i])
  }

  lemma {:induction false} DecodeEncode(n: nat, k: nat)
    requires n < Pow100(k)
    ensures AllBcd(Encode(n, k)) && Positional(Encode(n, k)) == n
  {
    if k > 0 {
      DecodeEncode(n / 100, k - 1);
      Bcd2BinInverts(n % 100);
      assert Encode(n, k)[1..] == Encode(n / 100, k - 1);
    }
  }

  lemma {:induction false} EncodeDecode(p: bytes)
    requires AllBcd(p)
    ensures Positional(p) < Pow100(|p|) && Encode(Positional(p), |p|) == p
  {
    if p != [] {
      EncodeDecode(p[1..]);
      Bin2BcdInverts(p[0]);
      LowDigit(Bcd2Bin(p[0]), Positional(p[1..]));
    }
  }

  lemma LowDigit(d: nat, r: nat)
    requires d < 100
    ensures (d + 100 * r) % 100 == d && (d + 100 * r) / 100 == r
  {
  }

  lemma TenToTheSixteenth()
    ensures Pow100(8) == 10_000_000_000_000_000
  {
    assert Pow100(4) == 100_000_000;
  }

  /** Every reading below 10^16 thousandths comes back as sent. */
  lemma TotalRoundTrip(n: nat)
    requires n < 10_000_000_000_000_000
    ensures MeterTotal(Repaired, Encode(n, 8)) == n
  {
    hide Pow100;
    TenToTheSixteenth();
    DecodeEncode(n, 8);
    TotalIsPositional(Encode(n, 8));
  }

  /** Two valid readings with the same total are the same bytes, and no reading exceeds the range. */
  lemma TotalInjective(p: bytes, q: bytes)
    requires |p| == |q| == 8 && AllBcd(p) && AllBcd(q)
    ensures MeterTotal(Repaired, p) == MeterTotal(Repaired, q) <==> p == q
    ensures 0 <= MeterTotal(Repaired, p) < 10_000_000_000_000_000
  {
    hide Pow100, MeterTotal;
    TenToTheSixteenth();
    TotalIsPositional(p);
    TotalIsPositional(q);
    EncodeDecode(p);
    EncodeDecode(q);
  }
}
