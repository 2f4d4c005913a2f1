/** The overflow-guarded number readers of nginx_helper.c, and the digits the packet builder prints. */
module NgxParse {
  import opened Bytes

  const NGX_OK := 0
  const NGX_ERROR := -1
  const NGX_MAX_INT_T_VALUE := 2147483647

  // ---- What the texts denote ------------------------------------------------------------

  predicate IsDigit(b: byte) {
    0x30 <= b <= 0x39
  }

  function DigitOf(b: byte): (d: nat)
    requires IsDigit(b)
    ensures d <= 9
  {
    b as int - 48
  }

  predicate IsHexDigit(b: byte) {
    IsDigit(b) || 0x41 <= b <= 0x46 || 0x61 <= b <= 0x66
  }

  function HexDigitOf(b: byte): (d: nat)
    requires IsHexDigit(b)
    ensures d <= 15
  {
    if b <= 0x39 then b as int - 48
    else if b <= 0x46 then b as int - 65 + 10
    else b as int - 97 + 10
  }

  predicate AllDigits(s: bytes) {
    forall i :: 0 <= i < |s| ==> IsDigit(s[i])
  }

  predicate AllHexDigits(s: bytes) {
    forall i :: 0 <= i < |s| ==> IsHexDigit(s[i])
  }

  /** Positional value, most significant digit first. */
  function DecValue(s: bytes): nat
    requires AllDigits(s)
  {
    if s == [] then 0 else DecValue(s[..|s| - 1]) * 10 + DigitOf(s[|s| - 1])
  }

  function HexValue(s: bytes): nat
    requires AllHexDigits(s)
  {
    if s == [] then 0 else HexValue(s[..|s| - 1]) * 16 + HexDigitOf(s[|s| - 1])
  }

  /** The value a guarded reader owes: the number if there is one and it fits, else -1. */
  function Atoi(s: bytes): int {
    if s != [] && AllDigits(s) && DecValue(s) <= NGX_MAX_INT_T_VALUE then DecValue(s) else NGX_ERROR
  }

  function HexToI(s: bytes): int {
    if s != [] && AllHexDigits(s) && HexValue(s) <= NGX_MAX_INT_T_VALUE then HexValue(s) else NGX_ERROR
  }

  lemma AtoiRange(v: bytes)
    ensures Atoi(v) >= NGX_ERROR
  {
  }

  // ---- The readers ----------------------------------------------------------------------

  method NgxIsNumbers(line: bytes) returns (r: int)
    ensures r == NGX_OK <==> line != [] && AllDigits(line)
    ensures r != NGX_OK ==> r == NGX_ERROR
  {
    var n := |line|;
    if n == 0 {
      return NGX_ERROR;
    }
    while n > 0
      invariant 0 <= n <= |line|
      invariant AllDigits(line[..|line| - n])
    {
      var c := line[|line| - n];
      n := n - 1;
      if c < 0x30 || c > 0x39 {
        return NGX_ERROR;
      }
    }
    return NGX_OK;
  }

  lemma {:induction false} DecValueGrows(s: bytes, k: nat)
    requires k <= |s| && AllDigits(s)
    ensures DecValue(s[..k]) <= DecValue(s)
  {
    if k == |s| {
      assert s[..k] == s;
    } else {
      DecValueGrows(s[..|s| - 1], k);
      assert s[..|s| - 1][..k] == s[..k];
    }
  }

  lemma {:induction false} HexValueGrows(s: bytes, k: nat)
    requires k <= |s| && AllHexDigits(s)
    ensures HexValue(s[..k]) <= HexValue(s)
  {
    if k == |s| {
      assert s[..k] == s;
    } else {
      HexValueGrows(s[..|s| - 1], k);
      assert s[..|s| - 1][..k] == s[..k];
    }
  }

  /** ngx_atoi: no intermediate value ever exceeds the bound. */
  method NgxAtoi(line: bytes) returns (value: int)
    ensures value == Atoi(line)
  {
    var n := |line|;
    if n == 0 {
      return NGX_ERROR;
    }
    var cutoff := NGX_MAX_INT_T_VALUE / 10;
    var cutlim := NGX_MAX_INT_T_VALUE % 10;
    value := 0;
    while n > 0
      invariant 0 <= n <= |line|
      invariant AllDigits(line[..|line| - n])
      invariant value == DecValue(line[..|line| - n]) <= NGX_MAX_INT_T_VALUE
    {
      var at := |line| - n;
      n := n - 1;
      if line[at] < 0x30 || line[at] > 0x39 {
        return NGX_ERROR;
      }
      assert line[..at + 1][..at] == line[..at];
      if value >= cutoff && (value > cutoff || line[at] as int - 48 > cutlim) {
        if AllDigits(line) {
          DecValueGrows(line, at + 1);
        }
        return NGX_ERROR;
      }
      value := value * 10 + (line[at] as int - 48);
    }
    assert line[..|line|] == line;
  }

  /** The bit the reader sets to fold case. */
  lemma FoldedHexLetter(b: byte)
    requires !IsDigit(b)
    ensures 0x61 <= b | 0x20 <= 0x66 <==> IsHexDigit(b)
    ensures IsHexDigit(b) ==> (b | 0x20) as int - 97 + 10 == HexDigitOf(b)
  {
  }

  /** ngx_hextoi. */
  method NgxHexToI(line: bytes) returns (value: int)
    ensures value == HexToI(line)
  {
    var n := |line|;
    if n == 0 {
      return NGX_ERROR;
    }
    var cutoff := NGX_MAX_INT_T_VALUE / 16;
    value := 0;
    while n > 0
      invariant 0 <= n <= |line|
      invariant AllHexDigits(line[..|line| - n])
      invariant value == HexValue(line[..|line| - n]) <= NGX_MAX_INT_T_VALUE
    {
      var at := |line| - n;
      n := n - 1;
      assert line[..at + 1][..at] == line[..at];
      if value > cutoff {
        if AllHexDigits(line) {
          HexValueGrows(line, at + 1);
        }
        return NGX_ERROR;
      }
      var ch := line[at];
      if ch >= 0x30 && ch <= 0x39 {
        value := value * 16 + (ch as int - 48);
        continue;
      }
      FoldedHexLetter(ch);
      var c := ch | 0x20;
      if c >= 0x61 && c <= 0x66 {
        value := value * 16 + (c as int - 97 + 10);
        continue;
      }
      return NGX_ERROR;
    }
    assert line[..|line|] == line;
  }

  // ---- The digits the builder prints ----------------------------------------------------

  function Digit(d: nat): (b: byte)
    requires d <= 9
    ensures IsDigit(b) && DigitOf(b) == d
  {
    (d + 48) as bv8
  }

  /** The four decimal length digits a packet starts with. */
  function Dec4(n: nat): (s: bytes)
    requires n < 10000
    ensures |s| == 4 && AllDigits(s)
  {
    [Digit(n / 1000), Digit(n % 1000 / 100), Digit(n % 100 / 10), Digit(n % 10)]
  }

  lemma ZeroAndOne()
    ensures Digit(0) == 0x30 && Digit(1) == 0x31
  {
  }

  lemma FourDigits(n: nat, a: nat, b: nat, c: nat, d: nat)
    requires n < 10000 && a == n / 1000 && b == n % 1000 / 100 && c == n % 100 / 10 && d == n % 10
    ensures Dec4(n) == [Digit(a), Digit(b), Digit(c), Digit(d)]
  {
    hide Digit;
  }

  function HexDigit(d: bv16): (b: byte)
    requires d < 16
    ensures IsHexDigit(b) && HexDigitOf(b) == d as int
    ensures IsDigit(b) || 0x41 <= b <= 0x46
  {
    if d < 10 then (d as bv8) + 0x30 else (d as bv8) - 10 + 0x41
  }

  /** The two digits of a byte. */
  function FirstDigit(x: bv16): (d: bv16)
    requires x < 256
    ensures d < 16
  {
    x >> 4
  }

  function SecondDigit(x: bv16): (d: bv16)
    ensures d < 16
  {
    x & 15
  }

  /** `%.4X`. */
  function Hex4(w: bv16): (s: bytes)
    ensures |s| == 4 && AllHexDigits(s)
    ensures forall i :: 0 <= i < 4 ==> IsDigit(s[i]) || 0x41 <= s[i] <= 0x46
  {
    [HexDigit(FirstDigit(High(w))), HexDigit(SecondDigit(High(w))), HexDigit(FirstDigit(Low(w))),
     HexDigit(SecondDigit(Low(w)))]
  }

  lemma DecValueOf4(a: byte, b: byte, c: byte, d: byte)
    requires IsDigit(a) && IsDigit(b) && IsDigit(c) && IsDigit(d)
    ensures DecValue([a, b, c, d]) == DigitOf(a) * 1000 + DigitOf(b) * 100 + DigitOf(c) * 10 + DigitOf(d)
  {
    assert [a, b, c, d][..3] == [a, b, c] && [a, b, c][..2] == [a, b] && [a, b][..1] == [a];
    assert DecValue([a]) == DecValue([]) * 10 + DigitOf(a);
    assert DecValue([a, b]) == DecValue([a]) * 10 + DigitOf(b);
    assert DecValue([a, b, c]) == DecValue([a, b]) * 10 + DigitOf(c);
  }

  lemma HexValueOf4(a: byte, b: byte, c: byte, d: byte)
    requires IsHexDigit(a) && IsHexDigit(b) && IsHexDigit(c) && IsHexDigit(d)
    ensures HexValue([a, b, c, d]) == HexDigitOf(a) * 4096 + HexDigitOf(b) * 256 + HexDigitOf(c) * 16 + HexDigitOf(d)
  {
    assert [a, b, c, d][..3] == [a, b, c] && [a, b, c][..2] == [a, b] && [a, b][..1] == [a];
    assert HexValue([a]) == HexValue([]) * 16 + HexDigitOf(a);
    assert HexValue([a, b]) == HexValue([a]) * 16 + HexDigitOf(b);
    assert HexValue([a, b, c]) == HexValue([a, b]) * 16 + HexDigitOf(c);
  }

  lemma DigitsOf(n: nat)
    requires n < 10000
    ensures n / 1000 * 1000 + n % 1000 / 100 * 100 + n % 100 / 10 * 10 + n % 10 == n
  {
    var a, r := n / 1000, n % 1000;
    var b, q := r / 100, r % 100;
    var c, d := q / 10, q % 10;
    Remainder100(n, 10 * a + b, q);
    Remainder10(n, 100 * a + 10 * b + c, d);
  }

  lemma Remainder100(n: nat, q: nat, r: nat)
    requires n == 100 * q + r && r < 100
    ensures n % 100 == r
  {
  }

  lemma Remainder10(n: nat, q: nat, r: nat)
    requires n == 10 * q + r && r < 10
    ensures n % 10 == r
  {
  }

  /** The acceptor reads back the length the builder printed. */
  lemma AtoiDec4(n: nat)
    requires n < 10000
    ensures Atoi(Dec4(n)) == n
  {
    hide DecValue;
    DecValueOf4(Digit(n / 1000), Digit(n % 1000 / 100), Digit(n % 100 / 10), Digit(n % 10));
    DigitsOf(n);
  }

  lemma {:induction false} DecTrace(s: bytes, vs: seq<nat>)
    requires |s| == |vs| > 0 && AllDigits(s) && vs[0] == DigitOf(s[0])
    requires forall i :: 0 < i < |s| ==> vs[i] == vs[i - 1] * 10 + DigitOf(s[i])
    ensures DecValue(s) == vs[|s| - 1]
  {
    var n := |s| - 1;
    if n > 0 {
      DecTrace(s[..n], vs[..n]);
    } else {
      assert s[..0] == [];
    }
  }

  /** The bound in digits: 2147483647 is read, 2147483648 is not. */
  lemma BoundInDigits()
    ensures Atoi([0x32, 0x31, 0x34, 0x37, 0x34, 0x38, 0x33, 0x36, 0x34, 0x37]) == 2147483647
    ensures Atoi([0x32, 0x31, 0x34, 0x37, 0x34, 0x38, 0x33, 0x36, 0x34, 0x38]) == -1
  {
    LastDigit(0x37);
    LastDigit(0x38);
  }

  lemma LastDigit(b: byte)
    requires IsDigit(b)
    ensures var s := [0x32, 0x31, 0x34, 0x37, 0x34, 0x38, 0x33, 0x36, 0x34, b];
            AllDigits(s) && DecValue(s) == 2147483640 + DigitOf(b)
  {
    hide DecValue;
    DecTrace([0x32, 0x31, 0x34, 0x37, 0x34, 0x38, 0x33, 0x36, 0x34, b],
             [2, 21, 214, 2147, 21474, 214748, 2147483, 21474836, 214748364, 2147483640 + DigitOf(b)]);
  }

  /** Hexadecimal digits in either case: 1C80, 9aBf and FFFF. */
  lemma HexInDigits()
    ensures HexToI([0x31, 0x43, 0x38, 0x30]) == 0x1C80
    ensures HexToI([0x39, 0x61, 0x42, 0x66]) == 0x9ABF
    ensures HexToI([0x46, 0x46, 0x46, 0x46]) == 0xFFFF
  {
    HexValueOf4(0x31, 0x43, 0x38, 0x30);
    HexValueOf4(0x39, 0x61, 0x42, 0x66);
    HexValueOf4(0x46, 0x46, 0x46, 0x46);
    hide HexValue;
  }

  lemma ShiftAndMask(w: bv16)
    ensures w as int == (w >> 8) as int * 256 + (w & 0xFF) as int
  {
  }

  lemma HalvesOf(w: bv16)
    ensures w as int == High(w) as int * 256 + Low(w) as int
  {
    ShiftAndMask(w);
  }

  lemma NibblesOfByte(x: bv16)
    requires x < 256
    ensures x as int == FirstDigit(x) as int * 16 + SecondDigit(x) as int
  {
  }

  lemma NibblesOf(w: bv16)
    ensures FirstDigit(High(w)) as int * 4096 + SecondDigit(High(w)) as int * 256 + FirstDigit(Low(w)) as int * 16
            + SecondDigit(Low(w)) as int == w as int
  {
    hide High, Low, FirstDigit, SecondDigit;
    HalvesOf(w);
    NibblesOfByte(High(w));
    NibblesOfByte(Low(w));
  }

  /** The acceptor reads back the checksum the builder printed. */
  lemma HexToIHex4(w: bv16)
    ensures HexToI(Hex4(w)) == w as int
  {
    var s := Hex4(w);
    HexValueOf4(s[0], s[1], s[2], s[3]);
    assert s == [s[0], s[1], s[2], s[3]];
    NibblesOf(w);
  }
}
