/** Remainders, for the counters and checksums that wrap. */
module Modular {

  lemma {:induction false} DropMultiple(x: nat, q: nat, m: nat)
    requires m > 0
    ensures (x + m * q) % m == x % m
  {
    if q > 0 {
      DropMultiple(x, q - 1, m);
      var y := x + m * (q - 1);
      assert x + m * q == y + m;
      DropOne(y, m);
    }
  }

  lemma DropOne(y: nat, m: nat)
    requires m > 0
    ensures (y + m) % m == y % m
  {
    var q, r := y / m, y % m;
    assert y + m == m * (q + 1) + r;
    RemainderIs(y + m, q + 1, r, m);
  }

  lemma TimesGrows(m: nat, d: int)
    ensures (d > 0 ==> m * d >= m) && (d < 0 ==> m * d + m <= 0)
  {
  }

  lemma RemainderIs(n: nat, q: nat, r: nat, m: nat)
    requires m > 0 && r < m && n == m * q + r
    ensures n % m == r
  {
    var d := n / m - q;
    assert m * d == r - n % m;
    TimesGrows(m, d);
  }

  /** Adding to a remainder is adding to the number. */
  lemma RemainderOf(x: nat, y: nat, m: nat)
    requires m > 0
    ensures (x % m + y) % m == (x + y) % m
  {
    var q := x / m;
    assert x + y == (x % m + y) + m * q;
    DropMultiple(x % m + y, q, m);
  }
}
