/** The two CRCs of tinz_common_helper.c, both over the reflected polynomial 0xA001. */
module Crc {
  import opened Bytes

  // ---- The register ---------------------------------------------------------------------

  /** One pass of the innermost loop of CRC16_GB212. */
  function Shift(w: bv16): bv16 {
    if w & 1 == 1 then (w >> 1) ^ 0xA001 else w >> 1
  }

  function Shift8(w: bv16): bv16 {
    Shift(Shift(Shift(Shift(Shift(Shift(Shift(Shift(w))))))))
  }

  function Xor(x: bv16, y: bv16): bv16 {
    x ^ y
  }

  /** A byte enters the GB212 register after its low half has been dropped. */
  function Enter(w: bv16, b: byte): bv16 {
    (w >> 8) ^ (b as bv16)
  }

  function GbByte(w: bv16, b: byte): bv16 {
    Shift8(Enter(w, b))
  }

  function GbFrom(w: bv16, s: bytes): bv16 {
    if s == [] then w else GbByte(GbFrom(w, s[..|s| - 1]), s[|s| - 1])
  }

  function Gb212(s: bytes): bv16 {
    GbFrom(0xFFFF, s)
  }

  /** What one byte does to the bit-serial Modbus register: all sixteen bits take part. */
  function ModbusByte(w: bv16, b: byte): bv16 {
    Shift8(Xor(w, b as bv16))
  }

  function Modbus(s: bytes): bv16 {
    if s == [] then 0xFFFF else ModbusByte(Modbus(s[..|s| - 1]), s[|s| - 1])
  }

  /** The innermost loop of CRC16_GB212. */
  method EightShifts(entered: bv16) returns (wkg: bv16)
    ensures wkg == Shift8(entered)
  {
    wkg := entered;
    var i: bv8 := 0;
    while i < 8
      invariant i <= 8
      invariant i == 0 ==> wkg == entered
      invariant i == 1 ==> wkg == Shift(entered)
      invariant i == 2 ==> wkg == Shift(Shift(entered))
      invariant i == 3 ==> wkg == Shift(Shift(Shift(entered)))
      invariant i == 4 ==> wkg == Shift(Shift(Shift(Shift(entered))))
      invariant i == 5 ==> wkg == Shift(Shift(Shift(Shift(Shift(entered)))))
      invariant i == 6 ==> wkg == Shift(Shift(Shift(Shift(Shift(Shift(entered))))))
      invariant i == 7 ==> wkg == Shift(Shift(Shift(Shift(Shift(Shift(Shift(entered)))))))
      invariant i == 8 ==> wkg == Shift8(entered)
      decreases 8 - (i as int)
    {
      if wkg & 0x0001 != 0 {
        wkg := (wkg >> 1) ^ 0xA001;
      } else {
        wkg := wkg >> 1;
      }
      i := i + 1;
    }
  }

  lemma DropLowHalf(w: bv16, b: byte)
    ensures ((w >> 8) & 0x00FF) ^ (b as bv16) == Enter(w, b)
  {
  }

  /** CRC16_GB212. */
  method CRC16Gb212(databuff: bytes) returns (wkg: bv16)
    ensures wkg == Gb212(databuff)
  {
    hide Shift8, Enter;
    wkg := 0xFFFF;
    var at := 0;
    while at < |databuff|
      invariant at <= |databuff|
      invariant wkg == Gb212(databuff[..at])
    {
      DropLowHalf(wkg, databuff[at]);
      wkg := (wkg >> 8) & 0x00FF;
      wkg := wkg ^ (databuff[at] as bv16);
      wkg := EightShifts(wkg);
      assert databuff[..at + 1][..at] == databuff[..at];
      at := at + 1;
    }
    assert databuff[..at] == databuff;
  }
}

/** What a corrupted payload does to the GB212 checksum. */
module CrcDetection {
  import opened Bytes
  import opened Crc

  /** On single bytes, the high half of eight shifts is a permutation. */
  lemma Shift8Permutes(x: bv16, y: bv16)
    requires x < 0x100 && y < 0x100
    ensures High(Shift8(x)) == High(Shift8(y)) <==> x == y
  {
  }

  lemma EnterIsByte(w: bv16, b: byte)
    ensures Enter(w, b) < 0x100
  {
  }

  lemma XorUndone(x: bv16, y: bv16)
    ensures Xor(Xor(x, y), y) == x && Xor(0, y) == y && Xor(x, x) == 0
  {
  }

  lemma XorZero(x: bv16, y: bv16)
    ensures Xor(x, y) == 0 <==> x == y
  {
    hide Xor;
    XorUndone(x, y);
  }

  lemma EnterXor(x: bv16, y: bv16, b: byte)
    ensures Xor(Enter(x, b), Enter(y, b)) == Xor(High(x), High(y))
  {
  }

  lemma EnterSameByte(x: bv16, y: bv16, b: byte)
    ensures Enter(x, b) == Enter(y, b) <==> High(x) == High(y)
  {
    hide Enter, High, Xor;
    EnterXor(x, y, b);
    XorZero(Enter(x, b), Enter(y, b));
    XorZero(High(x), High(y));
  }

  /** Reading the same byte, two registers agree afterwards iff their high halves agreed. */
  lemma SameByte(x: bv16, y: bv16, b: byte)
    ensures High(GbByte(x, b)) == High(GbByte(y, b)) <==> High(x) == High(y)
    ensures GbByte(x, b) == GbByte(y, b) <==> High(x) == High(y)
  {
    hide Shift8, Enter, High;
    EnterIsByte(x, b);
    EnterIsByte(y, b);
    EnterSameByte(x, y, b);
    Shift8Permutes(Enter(x, b), Enter(y, b));
  }

  lemma {:induction false} SuffixKeepsDifference(x: bv16, y: bv16, s: bytes)
    ensures High(GbFrom(x, s)) == High(GbFrom(y, s)) <==> High(x) == High(y)
    ensures s != [] ==> (GbFrom(x, s) == GbFrom(y, s) <==> High(x) == High(y))
  {
    hide GbByte, High;
    if s != [] {
      SuffixKeepsDifference(x, y, s[..|s| - 1]);
      SameByte(GbFrom(x, s[..|s| - 1]), GbFrom(y, s[..|s| - 1]), s[|s| - 1]);
    }
  }

  lemma {:induction false} GbFromConcat(w: bv16, s: bytes, t: bytes)
    ensures GbFrom(w, s + t) == GbFrom(GbFrom(w, s), t)
  {
    hide GbByte;
    if t == [] {
      assert s + t == s;
    } else {
      assert (s + t)[..|s + t| - 1] == s + t[..|t| - 1];
      GbFromConcat(w, s, t[..|t| - 1]);
    }
  }

  /** The checksum carries eight bits: two non-empty messages collide iff the high halves do. */
  lemma HighHalfDecides(s: bytes, t: bytes)
    requires s != [] && t != []
    ensures Gb212(s) == Gb212(t) <==> High(Gb212(s)) == High(Gb212(t))
  {
    hide Shift8, Enter, High;
    var x, y := GbFrom(0xFFFF, s[..|s| - 1]), GbFrom(0xFFFF, t[..|t| - 1]);
    EnterIsByte(x, s[|s| - 1]);
    EnterIsByte(y, t[|t| - 1]);
    Shift8Permutes(Enter(x, s[|s| - 1]), Enter(y, t[|t| - 1]));
  }

  lemma ShiftLinear(x: bv16, y: bv16)
    ensures Shift(x ^ y) == Shift(x) ^ Shift(y)
  {
    if x & 1 == 1 {
      if y & 1 == 1 {} else {}
    } else {
      if y & 1 == 1 {} else {}
    }
  }

  lemma Shift8Linear(x: bv16, y: bv16)
    ensures Shift8(Xor(x, y)) == Xor(Shift8(x), Shift8(y))
  {
    hide Shift8;
    Shift8LinearBits(x, y);
  }

  lemma Shift8LinearBits(x: bv16, y: bv16)
    ensures Shift8(x ^ y) == Shift8(x) ^ Shift8(y)
  {
    hide Shift;
    forall p: bv16, q: bv16 ensures Shift(p ^ q) == Shift(p) ^ Shift(q) {
      ShiftLinear(p, q);
    }
  }

  lemma EnterLinear(x: bv16, y: bv16, a: byte, b: byte)
    ensures Enter(Xor(x, y), Mix(a, b)) == Xor(Enter(x, a), Enter(y, b))
  {
  }

  lemma ByteLinear(x: bv16, y: bv16, a: byte, b: byte)
    ensures GbByte(Xor(x, y), Mix(a, b)) == Xor(GbByte(x, a), GbByte(y, b))
  {
    hide Shift8, Enter, Xor, Mix;
    EnterLinear(x, y, a, b);
    Shift8Linear(Enter(x, a), Enter(y, b));
  }

  /** Two messages, byte against byte. */
  function Difference(s: bytes, t: bytes): (d: bytes)
    requires |s| == |t|
    ensures |d| == |s|
  {
    seq(|s|, i requires 0 <= i < |s| => Mix(s[i], t[i]))
  }

  lemma {:induction false} RegisterLinear(x: bv16, y: bv16, s: bytes, t: bytes)
    requires |s| == |t|
    ensures GbFrom(Xor(x, y), Difference(s, t)) == Xor(GbFrom(x, s), GbFrom(y, t))
  {
    hide GbByte, Xor, Mix;
    if s != [] {
      var n := |s| - 1;
      RegisterLinear(x, y, s[..n], t[..n]);
      assert Difference(s, t)[..n] == Difference(s[..n], t[..n]);
      ByteLinear(GbFrom(x, s[..n]), GbFrom(y, t[..n]), s[n], t[n]);
    }
  }

  lemma HighXor(x: bv16, y: bv16)
    ensures High(Xor(x, y)) == Xor(High(x), High(y)) && Xor(x, x) == 0
  {
  }

  /** Exactly which messages of equal length collide: those whose difference, run through a
      register that starts at zero, leaves its high half zero. */
  lemma CollideExactly(s: bytes, t: bytes)
    requires |s| == |t|
    ensures Gb212(s) == Gb212(t) <==> High(GbFrom(0, Difference(s, t))) == 0
  {
    hide GbFrom, High, Xor;
    HighXor(0xFFFF, 0xFFFF);
    RegisterLinear(0xFFFF, 0xFFFF, s, t);
    HighXor(Gb212(s), Gb212(t));
    XorZero(High(Gb212(s)), High(Gb212(t)));
    if s == [] {
      assert s == t;
    } else {
      HighHalfDecides(s, t);
    }
  }

  function Zeros(n: nat): (z: bytes)
    ensures |z| == n && forall i :: 0 <= i < n ==> z[i] == 0
  {
    seq(n, _ => 0)
  }

  lemma ZeroByte()
    ensures GbByte(0, 0) == 0 && High(0) == 0
  {
  }

  lemma {:induction false} ZerosLeaveZero(n: nat)
    ensures GbFrom(0, Zeros(n)) == 0
  {
    hide GbByte;
    if n > 0 {
      ZeroByte();
      ZerosLeaveZero(n - 1);
      assert Zeros(n)[..n - 1] == Zeros(n - 1);
    }
  }

  /** What the register starts from: all ones. The first byte then leaves nothing iff it is all
      ones itself. */
  lemma StartValue(n: nat)
    ensures Gb212([]) == 0xFFFF
    ensures Gb212([0xFF] + Zeros(n)) == 0
  {
    GbFromConcat(0xFFFF, [0xFF], Zeros(n));
    FirstByteCancels();
    ZerosLeaveZero(n);
  }

  lemma FirstByteCancels()
    ensures GbFrom(0xFFFF, [0xFF]) == 0
  {
    assert [0xFF as byte][..0] == [];
    assert GbFrom(0xFFFF, [0xFF]) == GbByte(0xFFFF, 0xFF);
  }

  /** A difference shows iff it shows on its own, wherever it lies in the message. */
  lemma LocalDifference(m: nat, d: bytes, n: nat)
    ensures High(GbFrom(0, Zeros(m) + d + Zeros(n))) == 0 <==> High(GbFrom(0, d)) == 0
  {
    hide GbFrom, High;
    ZeroByte();
    ZerosLeaveZero(m);
    ZerosLeaveZero(n);
    GbFromConcat(0, Zeros(m) + d, Zeros(n));
    GbFromConcat(0, Zeros(m), d);
    SuffixKeepsDifference(GbFrom(0, d), 0, Zeros(n));
  }

  lemma OneByteShows(x: byte)
    ensures High(GbByte(0, x)) == 0 <==> x == 0
  {
  }

  lemma MixZero(a: byte, b: byte)
    ensures Mix(a, b) == 0 <==> a == b
  {
  }

  /** Replacing one byte by a different one always changes the CRC. */
  lemma SubstitutionDetected(m: bytes, i: nat, b: byte)
    requires i < |m|
    ensures Gb212(m[i := b]) == Gb212(m) <==> b == m[i]
  {
    hide GbByte, High, Mix;
    var x := Mix(b, m[i]);
    CollideExactly(m[i := b], m);
    forall a: byte, c: byte ensures Mix(a, c) == 0 <==> a == c {
      MixZero(a, c);
    }
    assert Difference(m[i := b], m) == Zeros(i) + [x] + Zeros(|m| - i - 1);
    LocalDifference(i, [x], |m| - i - 1);
    assert [x][..0] == [] && GbFrom(0, [x]) == GbByte(0, x);
    OneByteShows(x);
  }

  /** The pairs whose exchange the checksum cannot see: equal bytes, and one difference. */
  predicate SwapBlind(a: byte, b: byte) {
    Mix(a, b) == 0 || Mix(a, b) == 0xB6
  }

  lemma TwiceShows(x: byte)
    ensures High(GbByte(GbByte(0, x), x)) == 0 <==> x == 0 || x == 0xB6
  {
  }

  lemma MixCommutes(a: byte, b: byte)
    ensures Mix(a, b) == Mix(b, a)
  {
  }

  ghost function Swapped(m: bytes, i: nat): bytes
    requires i + 1 < |m|
  {
    m[i := m[i + 1]][i + 1 := m[i]]
  }

  /** Exchanging two neighbours goes unnoticed for exactly one non-zero difference. */
  lemma SwapDetected(m: bytes, i: nat)
    requires i + 1 < |m|
    ensures Gb212(Swapped(m, i)) == Gb212(m) <==> SwapBlind(m[i], m[i + 1])
  {
    hide GbByte, High, Mix;
    var x := Mix(m[i], m[i + 1]);
    CollideExactly(Swapped(m, i), m);
    forall a: byte ensures Mix(a, a) == 0 {
      MixZero(a, a);
    }
    MixCommutes(m[i], m[i + 1]);
    assert Difference(Swapped(m, i), m) == Zeros(i) + [x, x] + Zeros(|m| - i - 2);
    LocalDifference(i, [x, x], |m| - i - 2);
    assert [x, x][..1] == [x] && [x][..0] == [] && GbFrom(0, [x]) == GbByte(0, x);
    assert GbFrom(0, [x, x]) == GbByte(GbByte(0, x), x);
    TwiceShows(x);
  }

  lemma SevenBits(a: byte, b: byte)
    requires a < 0x80 && b < 0x80 && a != b
    ensures !SwapBlind(a, b)
  {
  }

  /** In seven-bit text, which is all HJ 212 carries, every exchange of unequal neighbours shows. */
  lemma SwapDetectedInText(m: bytes, i: nat)
    requires i + 1 < |m| && m[i] < 0x80 && m[i + 1] < 0x80 && m[i] != m[i + 1]
    ensures Gb212(Swapped(m, i)) != Gb212(m)
  {
    SevenBits(m[i], m[i + 1]);
    SwapDetected(m, i);
  }
}

/** The table-driven CRC16_Modbus. */
module ModbusTables {
  import opened Bytes
  import opened Crc
  import opened CrcDetection

  // The two flat 256-entry tables, written as sixteen rows of sixteen.
  const AUCH_CRC_HI: seq<seq<bv16>> := [
    [0x00, 0xC1, 0x81, 0x40, 0x01, 0xC0, 0x80, 0x41, 0x01, 0xC0, 0x80, 0x41, 0x00, 0xC1, 0x81, 0x40],
    [0x01, 0xC0, 0x80, 0x41, 0x00, 0xC1, 0x81, 0x40, 0x00, 0xC1, 0x81, 0x40, 0x01, 0xC0, 0x80, 0x41],
    [0x01, 0xC0, 0x80, 0x41, 0x00, 0xC1, 0x81, 0x40, 0x00, 0xC1, 0x81, 0x40, 0x01, 0xC0, 0x80, 0x41],
    [0x00, 0xC1, 0x81, 0x40, 0x01, 0xC0, 0x80, 0x41, 0x01, 0xC0, 0x80, 0x41, 0x00, 0xC1, 0x81, 0x40],
    [0x01, 0xC0, 0x80, 0x41, 0x00, 0xC1, 0x81, 0x40, 0x00, 0xC1, 0x81, 0x40, 0x01, 0xC0, 0x80, 0x41],
    [0x00, 0xC1, 0x81, 0x40, 0x01, 0xC0, 0x80, 0x41, 0x01, 0xC0, 0x80, 0x41, 0x00, 0xC1, 0x81, 0x40],
    [0x00, 0xC1, 0x81, 0x40, 0x01, 0xC0, 0x80, 0x41, 0x01, 0xC0, 0x80, 0x41, 0x00, 0xC1, 0x81, 0x40],
    [0x01, 0xC0, 0x80, 0x41, 0x00, 0xC1, 0x81, 0x40, 0x00, 0xC1, 0x81, 0x40, 0x01, 0xC0, 0x80, 0x41],
    [0x01, 0xC0, 0x80, 0x41, 0x00, 0xC1, 0x81, 0x40, 0x00, 0xC1, 0x81, 0x40, 0x01, 0xC0, 0x80, 0x41],
    [0x00, 0xC1, 0x81, 0x40, 0x01, 0xC0, 0x80, 0x41, 0x01, 0xC0, 0x80, 0x41, 0x00, 0xC1, 0x81, 0x40],
    [0x00, 0xC1, 0x81, 0x40, 0x01, 0xC0, 0x80, 0x41, 0x01, 0xC0, 0x80, 0x41, 0x00, 0xC1, 0x81, 0x40],
    [0x01, 0xC0, 0x80, 0x41, 0x00, 0xC1, 0x81, 0x40, 0x00, 0xC1, 0x81, 0x40, 0x01, 0xC0, 0x80, 0x41],
    [0x00, 0xC1, 0x81, 0x40, 0x01, 0xC0, 0x80, 0x41, 0x01, 0xC0, 0x80, 0x41, 0x00, 0xC1, 0x81, 0x40],
    [0x01, 0xC0, 0x80, 0x41, 0x00, 0xC1, 0x81, 0x40, 0x00, 0xC1, 0x81, 0x40, 0x01, 0xC0, 0x80, 0x41],
    [0x01, 0xC0, 0x80, 0x41, 0x00, 0xC1, 0x81, 0x40, 0x00, 0xC1, 0x81, 0x40, 0x01, 0xC0, 0x80, 0x41],
    [0x00, 0xC1, 0x81, 0x40, 0x01, 0xC0, 0x80, 0x41, 0x01, 0xC0, 0x80, 0x41, 0x00, 0xC1, 0x81, 0x40]
  ]

  const AUCH_CRC_LO: seq<seq<bv16>> := [
    [0x00, 0xC0, 0xC1, 0x01, 0xC3, 0x03, 0x02, 0xC2, 0xC6, 0x06, 0x07, 0xC7, 0x05, 0xC5, 0xC4, 0x04],
    [0xCC, 0x0C, 0x0D, 0xCD, 0x0F, 0xCF, 0xCE, 0x0E, 0x0A, 0xCA, 0xCB, 0x0B, 0xC9, 0x09, 0x08, 0xC8],
    [0xD8, 0x18, 0x19, 0xD9, 0x1B, 0xDB, 0xDA, 0x1A, 0x1E, 0xDE, 0xDF, 0x1F, 0xDD, 0x1D, 0x1C, 0xDC],
    [0x14, 0xD4, 0xD5, 0x15, 0xD7, 0x17, 0x16, 0xD6, 0xD2, 0x12, 0x13, 0xD3, 0x11, 0xD1, 0xD0, 0x10],
    [0xF0, 0x30, 0x31, 0xF1, 0x33, 0xF3, 0xF2, 0x32, 0x36, 0xF6, 0xF7, 0x37, 0xF5, 0x35, 0x34, 0xF4],
    [0x3C, 0xFC, 0xFD, 0x3D, 0xFF, 0x3F, 0x3E, 0xFE, 0xFA, 0x3A, 0x3B, 0xFB, 0x39, 0xF9, 0xF8, 0x38],
    [0x28, 0xE8, 0xE9, 0x29, 0xEB, 0x2B, 0x2A, 0xEA, 0xEE, 0x2E, 0x2F, 0xEF, 0x2D, 0xED, 0xEC, 0x2C],
    [0xE4, 0x24, 0x25, 0xE5, 0x27, 0xE7, 0xE6, 0x26, 0x22, 0xE2, 0xE3, 0x23, 0xE1, 0x21, 0x20, 0xE0],
    [0xA0, 0x60, 0x61, 0xA1, 0x63, 0xA3, 0xA2, 0x62, 0x66, 0xA6, 0xA7, 0x67, 0xA5, 0x65, 0x64, 0xA4],
    [0x6C, 0xAC, 0xAD, 0x6D, 0xAF, 0x6F, 0x6E, 0xAE, 0xAA, 0x6A, 0x6B, 0xAB, 0x69, 0xA9, 0xA8, 0x68],
    [0x78, 0xB8, 0xB9, 0x79, 0xBB, 0x7B, 0x7A, 0xBA, 0xBE, 0x7E, 0x7F, 0xBF, 0x7D, 0xBD, 0xBC, 0x7C],
    [0xB4, 0x74, 0x75, 0xB5, 0x77, 0xB7, 0xB6, 0x76, 0x72, 0xB2, 0xB3, 0x73, 0xB1, 0x71, 0x70, 0xB0],
    [0x50, 0x90, 0x91, 0x51, 0x93, 0x53, 0x52, 0x92, 0x96, 0x56, 0x57, 0x97, 0x55, 0x95, 0x94, 0x54],
    [0x9C, 0x5C, 0x5D, 0x9D, 0x5F, 0x9F, 0x9E, 0x5E, 0x5A, 0x9A, 0x9B, 0x5B, 0x99, 0x59, 0x58, 0x98],
    [0x88, 0x48, 0x49, 0x89, 0x4B, 0x8B, 0x8A, 0x4A, 0x4E, 0x8E, 0x8F, 0x4F, 0x8D, 0x4D, 0x4C, 0x8C],
    [0x44, 0x84, 0x85, 0x45, 0x87, 0x47, 0x46, 0x86, 0x82, 0x42, 0x43, 0x83, 0x41, 0x81, 0x80, 0x40]
  ]

  function CrcHi(b: byte): bv16 {
    AUCH_CRC_HI[(b >> 4) as int][(b & 15) as int]
  }

  function CrcLo(b: byte): bv16 {
    AUCH_CRC_LO[(b >> 4) as int][(b & 15) as int]
  }

  function Glue(hi: bv16, lo: bv16): bv16 {
    (hi << 8) | lo
  }

  /** The two table entries for a byte, glued together, are eight shifts of that byte. */
  ghost predicate TabulatesShift8(b: byte) {
    CrcLo(b) < 0x100 && CrcHi(b) < 0x100 && Glue(CrcLo(b), CrcHi(b)) == Shift8(b as bv16)
  }

  lemma TableRow0(b: byte)
    requires b >> 4 == 0
    ensures TabulatesShift8(b)
  {
  }

  lemma TableRow1(b: byte)
    requires b >> 4 == 1
    ensures TabulatesShift8(b)
  {
  }

  lemma TableRow2(b: byte)
    requires b >> 4 == 2
    ensures TabulatesShift8(b)
  {
  }

  lemma TableRow3(b: byte)
    requires b >> 4 == 3
    ensures TabulatesShift8(b)
  {
  }

  lemma TableRow4(b: byte)
    requires b >> 4 == 4
    ensures TabulatesShift8(b)
  {
  }

  lemma TableRow5(b: byte)
    requires b >> 4 == 5
    ensures TabulatesShift8(b)
  {
  }

  lemma TableRow6(b: byte)
    requires b >> 4 == 6
    ensures TabulatesShift8(b)
  {
  }

  lemma TableRow7(b: byte)
    requires b >> 4 == 7
    ensures TabulatesShift8(b)
  {
  }

  lemma TableRow8(b: byte)
    requires b >> 4 == 8
    ensures TabulatesShift8(b)
  {
  }

  lemma TableRow9(b: byte)
    requires b >> 4 == 9
    ensures TabulatesShift8(b)
  {
  }

  lemma TableRowA(b: byte)
    requires b >> 4 == 10
    ensures TabulatesShift8(b)
  {
  }

  lemma TableRowB(b: byte)
    requires b >> 4 == 11
    ensures TabulatesShift8(b)
  {
  }

  lemma TableRowC(b: byte)
    requires b >> 4 == 12
    ensures TabulatesShift8(b)
  {
  }

  lemma TableRowD(b: byte)
    requires b >> 4 == 13
    ensures TabulatesShift8(b)
  {
  }

  lemma TableRowE(b: byte)
    requires b >> 4 == 14
    ensures TabulatesShift8(b)
  {
  }

  lemma TableRowF(b: byte)
    requires b >> 4 == 15
    ensures TabulatesShift8(b)
  {
  }

  lemma TablesAreShift8(b: byte)
    ensures TabulatesShift8(b)
  {
    hide TabulatesShift8;
    match b >> 4
    case 0 => TableRow0(b);
    case 1 => TableRow1(b);
    case 2 => TableRow2(b);
    case 3 => TableRow3(b);
    case 4 => TableRow4(b);
    case 5 => TableRow5(b);
    case 6 => TableRow6(b);
    case 7 => TableRow7(b);
    case 8 => TableRow8(b);
    case 9 => TableRow9(b);
    case 10 => TableRowA(b);
    case 11 => TableRowB(b);
    case 12 => TableRowC(b);
    case 13 => TableRowD(b);
    case 14 => TableRowE(b);
    case 15 => TableRowF(b);
  }

  function Upper(w: bv16): bv16 {
    w & 0xFF00
  }

  lemma UpperAndLow(w: bv16)
    ensures Xor(Upper(w), Low(w)) == w
  {
  }

  lemma UpperMovesDown(w: bv16)
    ensures Shift8(Upper(w)) == High(w)
  {
  }

  /** Eight shifts move the high byte down untouched and look only at the low byte. */
  lemma Shift8Splits(w: bv16)
    ensures Shift8(w) == Xor(High(w), Shift8(Low(w)))
  {
    hide Shift8, Xor, High, Low, Upper;
    UpperAndLow(w);
    UpperMovesDown(w);
    Shift8Linear(Upper(w), Low(w));
  }

  function Index(lo: bv16, b: byte): byte {
    ((lo & 0xFF) as bv8) ^ b
  }

  lemma GlueHalves(hi: bv16, lo: bv16, b: byte)
    requires hi < 0x100 && lo < 0x100
    ensures Low(Xor(Glue(hi, lo), b as bv16)) == Index(lo, b) as bv16
    ensures High(Xor(Glue(hi, lo), b as bv16)) == hi
  {
  }

  lemma GlueXor(hi: bv16, tableLo: bv16, tableHi: bv16)
    requires hi < 0x100 && tableHi < 0x100
    ensures Glue(tableLo, Xor(hi, tableHi)) == Xor(hi, Glue(tableLo, tableHi))
    ensures Xor(hi, tableHi) < 0x100
  {
  }

  /** The loop body of CRC16_Modbus. */
  method TableStep(hi: bv16, lo: bv16, b: byte) returns (uchCRCHi: bv16, uchCRCLo: bv16)
    requires hi < 0x100 && lo < 0x100
    ensures uchCRCHi < 0x100 && uchCRCLo < 0x100
    ensures Glue(uchCRCHi, uchCRCLo) == ModbusByte(Glue(hi, lo), b)
  {
    hide Shift8, Glue, CrcHi, CrcLo, Xor, Low, High, Index;
    var uIndex: byte := Index(lo, b);
    uchCRCLo := Xor(hi, CrcHi(uIndex));
    uchCRCHi := CrcLo(uIndex);
    TablesAreShift8(uIndex);
    GlueXor(hi, CrcLo(uIndex), CrcHi(uIndex));
    GlueHalves(hi, lo, b);
    Shift8Splits(Xor(Glue(hi, lo), b as bv16));
  }

  lemma {:induction false} ModbusTrace(s: bytes, regs: seq<bv16>)
    requires |s| == |regs| > 0 && regs[0] == ModbusByte(0xFFFF, s[0])
    requires forall i :: 0 < i < |s| ==> regs[i] == ModbusByte(regs[i - 1], s[i])
    ensures Modbus(s) == regs[|s| - 1]
  {
    hide ModbusByte;
    var n := |s| - 1;
    if n > 0 {
      ModbusTrace(s[..n], regs[..n]);
    } else {
      ModbusStart();
      assert s[..0] == [];
    }
  }

  /** The published check value of this CRC, over the digits one to nine. */
  lemma ModbusCheckValue()
    ensures Modbus([]) == 0xFFFF
    ensures Modbus([0x31, 0x32, 0x33, 0x34, 0x35, 0x36, 0x37, 0x38, 0x39]) == 0x4B37
  {
    var s: bytes := [0x31, 0x32, 0x33, 0x34, 0x35, 0x36, 0x37, 0x38, 0x39];
    var r: seq<bv16> := [0x947E, 0xF595, 0x7A75, 0x30BA, 0xA471, 0x32E4, 0x9D73, 0x37DD, 0x4B37];
    assert r[0] == ModbusByte(0xFFFF, s[0]) && r[1] == ModbusByte(r[0], s[1]) && r[2] == ModbusByte(r[1], s[2]);
    assert r[3] == ModbusByte(r[2], s[3]) && r[4] == ModbusByte(r[3], s[4]) && r[5] == ModbusByte(r[4], s[5]);
    assert r[6] == ModbusByte(r[5], s[6]) && r[7] == ModbusByte(r[6], s[7]) && r[8] == ModbusByte(r[7], s[8]);
    hide ModbusByte, Modbus;
    ModbusStart();
    ModbusTrace(s, r);
  }

  lemma ModbusStart()
    ensures Modbus([]) == 0xFFFF
  {
  }

  /** CRC16_Modbus: the table-driven loop computes the bit-serial CRC. */
  method CRC16Modbus(databuff: bytes) returns (crc: bv16)
    ensures crc == Modbus(databuff)
  {
    hide ModbusByte;
    var uchCRCHi: bv16, uchCRCLo: bv16 := 0xFF, 0xFF;
    var at := 0;
    while at < |databuff|
      invariant at <= |databuff|
      invariant uchCRCHi < 0x100 && uchCRCLo < 0x100
      invariant Glue(uchCRCHi, uchCRCLo) == Modbus(databuff[..at])
    {
      assert databuff[..at + 1][..at] == databuff[..at];
      uchCRCHi, uchCRCLo := TableStep(uchCRCHi, uchCRCLo, databuff[at]);
      at := at + 1;
    }
    assert databuff[..at] == databuff;
    crc := (uchCRCHi << 8) | uchCRCLo;
  }
}
