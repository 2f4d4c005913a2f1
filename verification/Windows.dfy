/** One averaging window (stMeterData): what streaming readings into it computes. */
module Windows {
  import opened Modular

  /** A flagged reading: the instantaneous value and the meter total that came with it. */
  datatype Reading = Reading(rtd: real, total: real)

  datatype Window = Window(cnt: nat, rtdMax: real, rtdMin: real, rtdSum: real, totalStart: real, totalEnd: real)

  /** The body of the calc functions; CNT is a uint16_t. */
  function Accumulate(w: Window, r: Reading, recordsTotal: bool): Window {
    Window((w.cnt + 1) % 0x1_0000,
           if w.rtdMax < r.rtd then r.rtd else w.rtdMax,
           if w.rtdMin > r.rtd || w.rtdMin < 0.0 then r.rtd else w.rtdMin,
           w.rtdSum + r.rtd,
           w.totalStart,
           if recordsTotal then r.total else w.totalEnd)
  }

  function Fresh(total: real): Window {
    Window(0, 0.0, -1.0, 0.0, total, total)
  }

  function Streamed(start: real, rs: seq<Reading>, recordsTotal: bool): Window {
    if rs == [] then Fresh(start)
    else Accumulate(Streamed(start, rs[..|rs| - 1], recordsTotal), rs[|rs| - 1], recordsTotal)
  }

  /** double_div_uint(RtdSum, CNT). */
  function Average(w: Window): real {
    if w.cnt == 0 then 0.0 else w.rtdSum / w.cnt as real
  }

  /** The increment a record reports. */
  function Increment(w: Window): real {
    if w.totalStart >= 0.0 && w.totalEnd > w.totalStart then w.totalEnd - w.totalStart else 0.0
  }

  /** An increment is never negative; it is positive iff the total rose from a total that was not
      negative, and then it is the rise. */
  lemma IncrementIs(w: Window)
    ensures Increment(w) >= 0.0
    ensures Increment(w) > 0.0 <==> 0.0 <= w.totalStart < w.totalEnd
    ensures Increment(w) > 0.0 ==> w.totalStart + Increment(w) == w.totalEnd
  {
  }

  // ---- The batch view -------------------------------------------------------------------

  function Sum(rs: seq<Reading>): real {
    if rs == [] then 0.0 else rs[0].rtd + Sum(rs[1..])
  }

  function Max(rs: seq<Reading>): (m: real)
    requires rs != []
    ensures (exists i :: 0 <= i < |rs| && rs[i].rtd == m) && forall i :: 0 <= i < |rs| ==> rs[i].rtd <= m
  {
    if |rs| == 1 then rs[0].rtd
    else
      var m := Max(rs[1..]);
      assert forall i :: 0 < i < |rs| ==> rs[i] == rs[1..][i - 1];
      assert forall i :: 0 <= i < |rs| - 1 ==> rs[1..][i] == rs[i + 1];
      if rs[0].rtd > m then rs[0].rtd else m
  }

  function Min(rs: seq<Reading>): (m: real)
    requires rs != []
    ensures (exists i :: 0 <= i < |rs| && rs[i].rtd == m) && forall i :: 0 <= i < |rs| ==> rs[i].rtd >= m
  {
    if |rs| == 1 then rs[0].rtd
    else
      var m := Min(rs[1..]);
      assert forall i :: 0 < i < |rs| ==> rs[i] == rs[1..][i - 1];
      assert forall i :: 0 <= i < |rs| - 1 ==> rs[1..][i] == rs[i + 1];
      if rs[0].rtd < m then rs[0].rtd else m
  }

  predicate NonNegative(rs: seq<Reading>) {
    forall i :: 0 <= i < |rs| ==> rs[i].rtd >= 0.0
  }

  lemma {:induction false} SumConcat(a: seq<Reading>, b: seq<Reading>)
    ensures Sum(a + b) == Sum(a) + Sum(b)
  {
    if a == [] {
      assert a + b == b;
    } else {
      assert (a + b)[1..] == a[1..] + b;
      SumConcat(a[1..], b);
    }
  }

  lemma CountStep(u: nat, v: nat)
    ensures ((u + v) % 0x1_0000 + 1) % 0x1_0000 == (u + (v + 1) % 0x1_0000) % 0x1_0000
  {
    RemainderOf(u + v, 1, 0x1_0000);
    RemainderOf(v + 1, u, 0x1_0000);
  }

  lemma SumOfOne(r: Reading)
    ensures Sum([r]) == r.rtd
  {
    assert [r][1..] == [];
  }

  /** Count (on its 16 bits), sum and totals of a streamed window. */
  lemma {:induction false} StreamedTotals(start: real, rs: seq<Reading>, recordsTotal: bool)
    ensures var w := Streamed(start, rs, recordsTotal);
            && w.cnt == |rs| % 0x1_0000
            && w.rtdSum == Sum(rs)
            && w.totalStart == start
            && w.totalEnd == if recordsTotal && rs != [] then rs[|rs| - 1].total else start
  {
    if rs != [] {
      var front := rs[..|rs| - 1];
      StreamedTotals(start, front, recordsTotal);
      RemainderOf(|front|, 1, 0x1_0000);
      assert rs == front + [rs[|rs| - 1]];
      SumConcat(front, [rs[|rs| - 1]]);
      SumOfOne(rs[|rs| - 1]);
    }
  }

  /** The maximum starts at zero, so it is the true one iff some reading is not negative. */
  lemma {:induction false} StreamedMax(start: real, rs: seq<Reading>, recordsTotal: bool)
    ensures var m := Streamed(start, rs, recordsTotal).rtdMax;
            && m >= 0.0
            && (forall i :: 0 <= i < |rs| ==> rs[i].rtd <= m)
            && (m == 0.0 || exists i :: 0 <= i < |rs| && rs[i].rtd == m)
    ensures rs != [] ==> (Streamed(start, rs, recordsTotal).rtdMax == Max(rs) <==>
                            exists i :: 0 <= i < |rs| && rs[i].rtd >= 0.0)
  {
    if rs != [] {
      var front, last := rs[..|rs| - 1], rs[|rs| - 1];
      StreamedMax(start, front, recordsTotal);
      assert forall i :: 0 <= i < |front| ==> rs[i] == front[i];
    }
  }

  /** The minimum as the sentinel leaves it: a negative reading makes the next one start over. */
  lemma {:induction false} StreamedMin(start: real, rs: seq<Reading>, recordsTotal: bool)
    ensures rs == [] ==> Streamed(start, rs, recordsTotal).rtdMin == -1.0
    ensures rs != [] ==> exists i :: 0 <= i < |rs| && rs[i].rtd == Streamed(start, rs, recordsTotal).rtdMin
    ensures rs != [] && rs[|rs| - 1].rtd < 0.0 ==> Streamed(start, rs, recordsTotal).rtdMin == rs[|rs| - 1].rtd
    ensures rs != [] && rs[|rs| - 1].rtd >= 0.0 ==> Streamed(start, rs, recordsTotal).rtdMin >= 0.0
    ensures NonNegative(rs) ==> forall i :: 0 <= i < |rs| ==> rs[i].rtd >= Streamed(start, rs, recordsTotal).rtdMin
  {
    if rs != [] {
      var front, last := rs[..|rs| - 1], rs[|rs| - 1];
      StreamedMin(start, front, recordsTotal);
      assert forall i :: 0 <= i < |front| ==> rs[i] == front[i];
    }
  }

  /** The reported minimum is the true one iff no reading is negative or the last is the least. */
  lemma MinimumExactly(start: real, rs: seq<Reading>, recordsTotal: bool)
    requires rs != []
    ensures Streamed(start, rs, recordsTotal).rtdMin == Min(rs) <==> NonNegative(rs) || rs[|rs| - 1].rtd == Min(rs)
  {
    hide Streamed;
    StreamedMin(start, rs, recordsTotal);
    if !NonNegative(rs) && rs[|rs| - 1].rtd >= 0.0 {
      var i :| 0 <= i < |rs| && rs[i].rtd < 0.0;
      assert Min(rs) < 0.0;
    }
  }

  /** Streaming equals batch: for non-negative readings every figure is what the sequence says. */
  lemma StreamingEqualsBatch(start: real, rs: seq<Reading>, recordsTotal: bool)
    requires rs != [] && NonNegative(rs)
    ensures var w := Streamed(start, rs, recordsTotal);
            w.cnt == |rs| % 0x1_0000 && w.rtdSum == Sum(rs) && w.rtdMax == Max(rs) && w.rtdMin == Min(rs)
  {
    hide Streamed;
    StreamedTotals(start, rs, recordsTotal);
    StreamedMax(start, rs, recordsTotal);
    MinimumExactly(start, rs, recordsTotal);
    assert rs[0].rtd >= 0.0;
  }

  lemma {:induction false} SumBounds(rs: seq<Reading>, lo: real, hi: real)
    requires forall i :: 0 <= i < |rs| ==> lo <= rs[i].rtd <= hi
    ensures |rs| as real * lo <= Sum(rs) <= |rs| as real * hi
  {
    if rs != [] {
      SumBounds(rs[1..], lo, hi);
      assert |rs| as real == |rs[1..]| as real + 1.0;
      OneMoreTerm(|rs[1..]| as real, lo);
      OneMoreTerm(|rs[1..]| as real, hi);
    }
  }

  lemma OneMoreTerm(n: real, x: real)
    ensures (n + 1.0) * x == n * x + x
  {
  }

  lemma QuotientBounds(s: real, n: real, lo: real, hi: real)
    requires n > 0.0 && n * lo <= s <= n * hi
    ensures lo <= s / n <= hi
  {
  }

  lemma Unwrapped(n: nat)
    requires n < 0x1_0000
    ensures n % 0x1_0000 == n
  {
  }

  lemma AverageIs(start: real, rs: seq<Reading>, recordsTotal: bool)
    requires |rs| < 0x1_0000
    ensures Average(Streamed(start, rs, recordsTotal)) == if rs == [] then 0.0 else Sum(rs) / |rs| as real
  {
    hide Streamed, Sum;
    StreamedTotals(start, rs, recordsTotal);
    Unwrapped(|rs|);
  }

  /** While the counter has not wrapped, the reported average lies between the true minimum and
      maximum; an empty window reports zero. */
  lemma AverageBetween(start: real, rs: seq<Reading>, recordsTotal: bool)
    requires |rs| < 0x1_0000
    ensures rs == [] ==> Average(Streamed(start, rs, recordsTotal)) == 0.0
    ensures rs != [] ==> Min(rs) <= Average(Streamed(start, rs, recordsTotal)) <= Max(rs)
  {
    hide Streamed, Sum, Min, Max, Average;
    AverageIs(start, rs, recordsTotal);
    if rs != [] {
      SumBounds(rs, Min(rs), Max(rs));
      QuotientBounds(Sum(rs), |rs| as real, Min(rs), Max(rs));
    }
  }

  // ---- Merging --------------------------------------------------------------------------

  /** Two minima of which either may be the sentinel. */
  function MergeMin(x: real, y: real): real {
    if x < 0.0 then y else if y < 0.0 then x else if y < x then y else x
  }

  function MergeMax(x: real, y: real): real {
    if x < y then y else x
  }

  /** `w` counts, adds up and peaks as `u` and `v` do together. */
  ghost predicate Merged(w: Window, u: Window, v: Window) {
    w.cnt == (u.cnt + v.cnt) % 0x1_0000 && w.rtdSum == u.rtdSum + v.rtdSum && w.rtdMax == MergeMax(u.rtdMax, v.rtdMax)
  }

  lemma MergeStep(w: Window, u: Window, v: Window, r: Reading, ra: bool, rb: bool)
    requires Merged(w, u, v)
    ensures Merged(Accumulate(w, r, ra), u, Accumulate(v, r, rb))
  {
    CountStep(u.cnt, v.cnt);
  }

  /** A window over a concatenation is the merge of the windows over its parts, whatever the
      signs of the readings. */
  lemma {:induction false} StreamedConcat(s: real, a: seq<Reading>, ra: bool, s1: real, s2: real, b: seq<Reading>,
                                          rb: bool)
    ensures Merged(Streamed(s, a + b, ra), Streamed(s1, a, rb), Streamed(s2, b, rb))
    decreases |b|
  {
    hide Accumulate;
    if b == [] {
      assert a + b == a;
      SameFigures(s, ra, s1, rb, a);
      StreamedMax(s1, a, rb);
      StreamedTotals(s1, a, rb);
    } else {
      var front, last := b[..|b| - 1], b[|b| - 1];
      assert (a + b)[..|a + b| - 1] == a + front && (a + b)[|a + b| - 1] == last;
      StreamedConcat(s, a, ra, s1, s2, front, rb);
      MergeStep(Streamed(s, a + front, ra), Streamed(s1, a, rb), Streamed(s2, front, rb), last, ra, rb);
    }
  }

  /** The minimum of a concatenation, whatever the signs: once the second part holds a negative
      reading only the second part counts. */
  lemma {:induction false} MinimumConcat(s: real, a: seq<Reading>, ra: bool, s1: real, s2: real, b: seq<Reading>,
                                         rb: bool)
    ensures var u, v := Streamed(s1, a, rb).rtdMin, Streamed(s2, b, rb).rtdMin;
            Streamed(s, a + b, ra).rtdMin == if b == [] then u else if NonNegative(b) then MergeMin(u, v) else v
    decreases |b|
  {
    hide Streamed;
    if b == [] {
      assert a + b == a;
      SameFigures(s, ra, s1, rb, a);
    } else {
      var front, last := b[..|b| - 1], b[|b| - 1];
      MinimumConcat(s, a, ra, s1, s2, front, rb);
      StreamedMin(s2, front, rb);
      assert (a + b)[..|a + b| - 1] == a + front && (a + b)[|a + b| - 1] == last;
      MinimumStep(s, a + b, ra);
      MinimumStep(s2, b, rb);
      assert NonNegative(b) <==> NonNegative(front) && last.rtd >= 0.0 by {
        assert forall i :: 0 <= i < |front| ==> front[i] == b[i];
      }
    }
  }

  lemma MinimumStep(s: real, a: seq<Reading>, ra: bool)
    requires a != []
    ensures var m, last := Streamed(s, a[..|a| - 1], ra).rtdMin, a[|a| - 1].rtd;
            Streamed(s, a, ra).rtdMin == if m > last || m < 0.0 then last else m
  {
  }

  /** Where a window starts has no bearing on its statistics. */
  lemma {:induction false} SameFigures(s: real, ra: bool, s1: real, rb: bool, a: seq<Reading>)
    ensures var w, u := Streamed(s, a, ra), Streamed(s1, a, rb);
            w.cnt == u.cnt && w.rtdSum == u.rtdSum && w.rtdMax == u.rtdMax && w.rtdMin == u.rtdMin
  {
    if a != [] {
      SameFigures(s, ra, s1, rb, a[..|a| - 1]);
    }
  }
}
