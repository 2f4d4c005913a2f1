/** When the 16-bit counters of the windows can wrap. */
module Counters {
  import opened Editions
  import opened Windows
  import opened Scheduler
  import opened RunProperties

  /** The clock never runs backwards, the configured reading interval is at least r and the minute
      interval fits its byte. */
  ghost predicate Steady(r: nat, t0: nat, xs: seq<Input>) {
    && (forall i :: 0 <= i < |xs| ==> t0 <= xs[i].now && xs[i].rtdInterval >= r && xs[i].minInterval < 256)
    && (forall i, j :: 0 <= i < j < |xs| ==> xs[i].now <= xs[j].now)
  }

  /** The seconds n readings take at the least: one more each than the interval. */
  function Seconds(r: nat, n: nat): nat {
    (r + 1) * n
  }

  lemma OneMoreGap(r: nat, n: nat)
    ensures Seconds(r, n + 1) == Seconds(r, n) + r + 1
    ensures Seconds(r, 0) == 0
  {
  }

  lemma LongerRun(r: nat, m: nat, n: nat)
    requires m <= n
    ensures Seconds(r, m) <= Seconds(r, n)
  {
  }

  function Span(level: Level): nat {
    match level case Minute => 256 case Hour => 3600 case Day => 86400
  }

  /** When the period the marker lies in is over at the latest. */
  function Deadline(c: Clock, level: Level): nat {
    match level
    case Minute => c.oldMin + 256
    case Hour => 3600 * (c.oldHour / 3600) + 3600
    case Day => 86400 * (c.oldDay / 86400) + 86400
  }

  /** When a run from t0 on can take its first reading. */
  function Earliest(r: nat, t0: nat, c: Clock): nat {
    if t0 < c.oldSec + r + 1 then c.oldSec + r + 1 else t0
  }

  /** The seconds for the readings a window can receive, one of them as it closes: the period's
      length, or for the first window what the marker leaves of it, and almost two gaps. */
  function Limit(r: nat, t0: nat, c: Clock, level: Level): int {
    var first := Deadline(c, level) - Earliest(r, t0, c);
    (if first < Span(level) then Span(level) else first) + 2 * r + 1
  }

  /** Between iterations: the open window's readings were taken with at least the gap between
      them, the last at oldSec, and by the deadline there cannot be more than the limit allows. */
  ghost predicate Paced(r: nat, c: Clock, level: Level, open: nat, latest: nat, limit: int) {
    && Span(level) + 2 * r + 1 <= limit
    && Deadline(c, level) - Earliest(r, latest, c) + 2 * r + 1 <= limit
    && (open > 0 ==>
          c.oldSec <= latest < Deadline(c, level) && Seconds(r, open) + Deadline(c, level) - c.oldSec + r <= limit)
  }

  lemma DeadlineMoves(c: Clock, level: Level, x: Input)
    requires x.minInterval < 256
    ensures if Rolls(c, level, x) then Deadline(NextClock(c, x), level) <= x.now + Span(level)
            else x.now < Deadline(c, level) == Deadline(NextClock(c, x), level)
  {
  }

  lemma PaceStep(r: nat, c: Clock, level: Level, open: nat, latest: nat, limit: int, x: Input)
    requires Paced(r, c, level, open, latest, limit) && latest <= x.now && x.rtdInterval >= r && x.minInterval < 256
    ensures Seconds(r, open + |Sample(c, x)|) <= limit
    ensures Paced(r, NextClock(c, x), level, if Rolls(c, level, x) then 0 else open + |Sample(c, x)|, x.now, limit)
  {
    DeadlineMoves(c, level, x);
    OneMoreGap(r, open);
    OneMoreGap(r, 0);
    hide Rolls, Deadline, Seconds;
  }

  /** From any markers and with any reading interval from r up: no window receives more readings
      than the limit allows. */
  lemma {:induction false} WindowsNeverOverflow(r: nat, t0: nat, c: Clock, level: Level, start: real, xs: seq<Input>,
                                                recordsTotal: bool)
    requires Steady(r, t0, xs)
    ensures var b, limit := Keep(c, level, start, xs, recordsTotal), Limit(r, t0, c, level);
            && (forall i :: 0 <= i < |b.closed| ==> Seconds(r, |b.closed[i].readings|) <= limit)
            && Seconds(r, |b.open|) <= limit
            && Paced(r, ClockAfter(c, xs), level, |b.open|, if xs == [] then t0 else xs[|xs| - 1].now, limit)
  {
    hide Sample, Paced, Rolls, NextClock, Limit, Seconds;
    if xs == [] {
      PacedStart(r, t0, c, level);
    } else {
      var front, x := xs[..|xs| - 1], xs[|xs| - 1];
      assert front != [] ==> front[|front| - 1] == xs[|xs| - 2];
      WindowsNeverOverflow(r, t0, c, level, start, front, recordsTotal);
      var latest, limit := if front == [] then t0 else front[|front| - 1].now, Limit(r, t0, c, level);
      PaceStep(r, ClockAfter(c, front), level, |Keep(c, level, start, front, recordsTotal).open|, latest, limit, x);
      PacedOpen(r, ClockAfter(c, xs), level, |Keep(c, level, start, xs, recordsTotal).open|, x.now, limit);
    }
  }

  lemma PacedOpen(r: nat, c: Clock, level: Level, open: nat, latest: nat, limit: int)
    requires Paced(r, c, level, open, latest, limit)
    ensures Seconds(r, open) <= limit
  {
    OneMoreGap(r, 0);
    hide Seconds, Deadline;
  }

  lemma PacedStart(r: nat, t0: nat, c: Clock, level: Level)
    ensures Paced(r, c, level, 0, t0, Limit(r, t0, c, level)) && Seconds(r, 0) <= Limit(r, t0, c, level)
  {
  }

  /** With every marker started together the limit is the period's own: at one second or more
      43201 readings a day and 1801 an hour, at zero seconds 3601 an hour. */
  lemma StartedTogether(r: nat, t0: nat, level: Level)
    ensures Limit(r, t0, Clock(t0, t0, t0, t0), level) == Span(level) + 2 * r + 1
  {
  }

  /** No window of the run, closed or open, receives as many readings as would wrap its counter. */
  ghost predicate NoneWraps(c: Clock, level: Level, start: real, xs: seq<Input>, recordsTotal: bool) {
    var b := Keep(c, level, start, xs, recordsTotal);
    SmallWindows(b.closed) && |b.open| < 0x1_0000
  }

  /** The marker's period and every later one are over before 65536 readings fit in. */
  predicate RoomEnough(r: nat, t0: nat, c: Clock, level: Level) {
    && Deadline(c, level) - Earliest(r, t0, c) <= 65534 * (r + 1)
    && Span(level) <= 65534 * (r + 1)
  }

  lemma FewReadings(r: nat, n: nat, limit: int)
    requires Seconds(r, n) <= limit < 65536 * (r + 1)
    ensures n < 0x1_0000
  {
    if n >= 0x1_0000 {
      LongerRun(r, 0x1_0000, n);
    }
  }

  lemma SteadyUnwrapped(r: nat, t0: nat, c: Clock, level: Level, start: real, xs: seq<Input>, recordsTotal: bool)
    requires Steady(r, t0, xs) && RoomEnough(r, t0, c, level)
    ensures NoneWraps(c, level, start, xs, recordsTotal)
  {
    var b, limit := Keep(c, level, start, xs, recordsTotal), Limit(r, t0, c, level);
    assert limit < 65536 * (r + 1);
    hide Keep, Paced, Steady, Limit, Seconds;
    WindowsNeverOverflow(r, t0, c, level, start, xs, recordsTotal);
    forall i | 0 <= i < |b.closed| ensures |b.closed[i].readings| < 0x1_0000 {
      FewReadings(r, |b.closed[i].readings|, limit);
    }
    FewReadings(r, |b.open|, limit);
  }

  // ---- Runs that wrap a counter ---------------------------------------------------------

  function Spaced(r: nat, first: nat, i: nat): Input {
    Input(first + Seconds(r, i), r, 255, Para(true, true, 1.0, 0.0))
  }

  /** n readings with the least gap between them. */
  function EveryGap(r: nat, first: nat, n: nat): (xs: seq<Input>)
    ensures |xs| == n
  {
    seq(n, i requires 0 <= i < n => Spaced(r, first, i))
  }

  lemma OneMoreReading(r: nat, first: nat, n: nat)
    ensures EveryGap(r, first, n + 1) == EveryGap(r, first, n) + [Spaced(r, first, n)]
  {
  }

  lemma {:induction false} EveryGapStaysOpen(r: nat, t0: nat, c: Clock, level: Level, start: real, n: nat,
                                             recordsTotal: bool)
    requires n > 0 ==> Earliest(r, t0, c) + Seconds(r, n - 1) < Deadline(c, level)
    ensures var xs := EveryGap(r, Earliest(r, t0, c), n);
            var b, after := Keep(c, level, start, xs, recordsTotal), ClockAfter(c, xs);
            && b.closed == [] && |b.open| == n
            && Marker(after, level) == Marker(c, level)
            && (if n == 0 then after == c else after.oldSec == Earliest(r, t0, c) + Seconds(r, n - 1))
  {
    hide Earliest, Seconds, EveryGap, Deadline;
    var first := Earliest(r, t0, c);
    if n > 0 {
      OneMoreReading(r, first, n - 1);
      var front, x := EveryGap(r, first, n - 1), Spaced(r, first, n - 1);
      assert (front + [x])[..n - 1] == front;
      if n > 1 {
        OneMoreGap(r, n - 2);
      }
      EveryGapStaysOpen(r, t0, c, level, start, n - 1, recordsTotal);
      EarliestTicks(r, t0, c);
      OneMoreGap(r, 0);
      BeforeDeadline(c, ClockAfter(c, front), level, x);
    }
  }

  lemma EarliestTicks(r: nat, t0: nat, c: Clock)
    ensures t0 <= Earliest(r, t0, c) && c.oldSec + r < Earliest(r, t0, c)
  {
  }

  lemma BeforeDeadline(c: Clock, d: Clock, level: Level, x: Input)
    requires Marker(c, level) == Marker(d, level) && x.now < Deadline(c, level) && x.minInterval == 255
    ensures !Rolls(d, level, x)
  {
  }

  lemma EveryGapSteady(r: nat, t0: nat, c: Clock, n: nat)
    ensures Steady(r, t0, EveryGap(r, Earliest(r, t0, c), n))
  {
    hide Seconds;
    forall i: nat, j: nat | i <= j ensures Seconds(r, i) <= Seconds(r, j) {
      LongerRun(r, i, j);
    }
  }

  lemma OneSample(c: Clock, x: Input)
    requires x.now > c.oldSec + x.rtdInterval && x.para.isValid && x.para.flag
    ensures |Sample(c, x)| == 1
  {
  }

  lemma EveryGapWraps(r: nat, t0: nat, c: Clock, level: Level, start: real, recordsTotal: bool)
    requires Deadline(c, level) - Earliest(r, t0, c) > 65534 * (r + 1)
    ensures !NoneWraps(c, level, start, EveryGap(r, Earliest(r, t0, c), 0x1_0000), recordsTotal)
  {
    var first := Earliest(r, t0, c);
    var xs, front := EveryGap(r, first, 0x1_0000), EveryGap(r, first, 0xFFFF);
    assert Seconds(r, 0xFFFE) == 65534 * (r + 1);
    hide Sample, Rolls, EveryGap, Earliest, Seconds, Deadline;
    OneMoreReading(r, first, 0xFFFF);
    OneMoreGap(r, 0xFFFE);
    EveryGapStaysOpen(r, t0, c, level, start, 0xFFFF, recordsTotal);
    var before, x := ClockAfter(c, front), xs[0xFFFF];
    assert xs[..0xFFFF] == front;
    OneSample(before, x);
    var b := Keep(c, level, start, xs, recordsTotal);
    if Rolls(before, level, x) {
      assert |b.closed[0].readings| == 0x1_0000;
    }
  }

  lemma KeptBehind(gs: seq<Group>, b: Book, c: Clock, level: Level, x: Input, recordsTotal: bool)
    ensures var d := Kept(b, c, level, x, recordsTotal);
            Kept(b.(closed := gs + b.closed), c, level, x, recordsTotal) == d.(closed := gs + d.closed)
  {
    hide Sample, Rolls, EndTotal;
    var g := Group(Marker(c, level), x.para.isValid, b.start, b.open + Sample(c, x));
    assert gs + b.closed + [g] == gs + (b.closed + [g]);
  }

  /** A run that closes its first window at once goes on as one from the clock it then has. */
  lemma {:induction false} AfterFirst(c: Clock, level: Level, start: real, x: Input, ys: seq<Input>, recordsTotal: bool)
    requires Rolls(c, level, x) && Sample(c, x) == []
    ensures ClockAfter(c, [x] + ys) == ClockAfter(NextClock(c, x), ys)
    ensures var d := Keep(NextClock(c, x), level, start, ys, recordsTotal);
            Keep(c, level, start, [x] + ys, recordsTotal) ==
            d.(closed := [Group(Marker(c, level), x.para.isValid, start, [])] + d.closed)
    decreases |ys|
  {
    hide Rolls, Sample, NextClock, Kept;
    if ys == [] {
      OnlyFirst(c, level, start, x, recordsTotal);
    } else {
      var front, y := ys[..|ys| - 1], ys[|ys| - 1];
      AfterFirst(c, level, start, x, front, recordsTotal);
      assert [x] + ys == ([x] + front) + [y] && ys == front + [y];
      OneStep(c, level, start, [x] + front, y, recordsTotal);
      OneStep(NextClock(c, x), level, start, front, y, recordsTotal);
      KeptBehind([Group(Marker(c, level), x.para.isValid, start, [])],
                 Keep(NextClock(c, x), level, start, front, recordsTotal), ClockAfter(NextClock(c, x), front), level, y,
                 recordsTotal);
    }
  }

  lemma OnlyFirst(c: Clock, level: Level, start: real, x: Input, recordsTotal: bool)
    requires Rolls(c, level, x) && Sample(c, x) == []
    ensures [x] + [] == [x] && ClockAfter(c, [x]) == NextClock(c, x)
            && ClockAfter(NextClock(c, x), []) == NextClock(c, x)
    ensures Keep(NextClock(c, x), level, start, [], recordsTotal) == Book([], start, [])
    ensures Keep(c, level, start, [x], recordsTotal)
            == Book([Group(Marker(c, level), x.para.isValid, start, [])], start, [])
  {
    hide Rolls, Sample, NextClock;
    OneStep(c, level, start, [], x, recordsTotal);
    assert [] + [x] == [x] && [x] + [] == [x];
    var none: seq<Reading> := [];
    assert none + Sample(c, x) == none;
    var g := Group(Marker(c, level), x.para.isValid, start, none);
    assert Keep(c, level, start, [], recordsTotal) == Book([], start, none);
    assert Book([], start, none).closed + [g] == [g];
  }

  /** The next midnight at or after t that the marker has not passed, with nothing read. */
  function Midnight(t0: nat, c: Clock): Input {
    Input(86400 * (c.oldDay / 86400 + 1 + t0 + c.oldSec), 0, 255, Para(false, false, 0.0, 0.0))
  }

  lemma MidnightRolls(t0: nat, c: Clock)
    ensures var x := Midnight(t0, c);
            && x.now >= t0 && Rolls(c, Day, x) && Sample(c, x) == []
            && Deadline(NextClock(c, x), Day) - Earliest(0, x.now, NextClock(c, x)) > 65534
  {
    var m := c.oldDay / 86400 + 1 + t0 + c.oldSec;
    assert 86400 * m / 86400 == m;
  }

  lemma MidnightSteady(t0: nat, x: Input, ys: seq<Input>)
    requires x.now >= t0 && x.minInterval < 256 && Steady(0, x.now, ys)
    ensures Steady(0, t0, [x] + ys)
  {
    var xs := [x] + ys;
    forall i, j | 0 <= i < j < |xs| ensures xs[i].now <= xs[j].now {
      assert xs[j] == ys[j - 1] && (i > 0 ==> xs[i] == ys[i - 1]);
    }
  }

  lemma ZeroIntervalDayWraps(t0: nat, c: Clock, start: real, recordsTotal: bool)
    ensures exists xs :: Steady(0, t0, xs) && !NoneWraps(c, Day, start, xs, recordsTotal)
  {
    hide Keep, Steady, EveryGap, Midnight, Rolls, Sample, Deadline, Earliest, NextClock;
    var x := Midnight(t0, c);
    MidnightRolls(t0, c);
    var d := NextClock(c, x);
    var ys := EveryGap(0, Earliest(0, x.now, d), 0x1_0000);
    EveryGapSteady(0, x.now, d, 0x1_0000);
    EveryGapWraps(0, x.now, d, Day, start, recordsTotal);
    MidnightInterval(t0, c);
    MidnightSteady(t0, x, ys);
    AfterFirst(c, Day, start, x, ys, recordsTotal);
    LaterWraps(Group(Marker(c, Day), x.para.isValid, start, []), Keep(d, Day, start, ys, recordsTotal).closed);
    assert !NoneWraps(c, Day, start, [x] + ys, recordsTotal);
  }

  lemma MidnightInterval(t0: nat, c: Clock)
    ensures Midnight(t0, c).minInterval < 256
  {
  }

  lemma LaterWraps(g: Group, gs: seq<Group>)
    ensures SmallWindows([g] + gs) ==> SmallWindows(gs)
  {
    assert forall i :: 0 <= i < |gs| ==> gs[i] == ([g] + gs)[i + 1];
  }

  /** Which markers, levels and reading intervals keep every run from wrapping a counter: exactly
      those that leave no room for 65536 readings, neither in what remains of the first period nor
      in a later one. The latter excludes interval zero for days, and nothing else. */
  lemma UnwrappedExactly(r: nat, t0: nat, c: Clock, level: Level, start: real, recordsTotal: bool)
    ensures (forall xs: seq<Input> :: Steady(r, t0, xs) ==> NoneWraps(c, level, start, xs, recordsTotal)) <==>
              RoomEnough(r, t0, c, level)
    ensures Span(level) <= 65534 * (r + 1) <==> !level.Day? || r >= 1
  {
    hide Keep, Paced, Steady, EveryGap, NoneWraps, Deadline, Earliest;
    if RoomEnough(r, t0, c, level) {
      forall xs: seq<Input> | Steady(r, t0, xs) ensures NoneWraps(c, level, start, xs, recordsTotal) {
        SteadyUnwrapped(r, t0, c, level, start, xs, recordsTotal);
      }
    } else if Deadline(c, level) - Earliest(r, t0, c) > 65534 * (r + 1) {
      EveryGapSteady(r, t0, c, 0x1_0000);
      EveryGapWraps(r, t0, c, level, start, recordsTotal);
    } else {
      ZeroIntervalDayWraps(t0, c, start, recordsTotal);
    }
  }

  /** A marker no later than the current period leaves none, whatever the interval for hours and
      minutes, and from one second up for days. */
  lemma EarlierMarkerFits(r: nat, t0: nat, c: Clock, level: Level)
    requires Bucket(level, Marker(c, level)) <= Bucket(level, t0) && (level.Day? ==> r >= 1)
    ensures RoomEnough(r, t0, c, level)
  {
  }

  /** Hence on such a run the rows, the open window and the windows that filed no row count the
      run's readings exactly at every level, and the rows and the open window alone iff none of
      those had a reading, as for a meter that stays configured. */
  lemma CountsExact(e: Edition, r: nat, t0: nat, c: Clock, lane: Lane, xs: seq<Input>, level: Level)
    requires Initial(lane) && Steady(r, t0, xs) && RoomEnough(r, t0, c, level)
    ensures var after := LaneAfter(e, c, lane, xs);
            var rows, open := TableOf(after.tables, level), WindowOf(after.meter, level);
            var missing := Dropped(Keep(c, level, WindowOf(lane.meter, level).totalEnd, xs,
                                        RecordsTotal(e, level)).closed);
            && CountOf(rows) + open.cnt + |missing| == |Samples(c, xs)|
            && (CountOf(rows) + open.cnt == |Samples(c, xs)| <==> missing == [])
            && (SumOf(rows) + open.rtdSum == Sum(Samples(c, xs)) <==> Sum(missing) == 0.0)
            && (AlwaysValid(xs) ==> missing == [])
  {
    hide Keep, LaneAfter, Sum, CountOf, SumOf, Samples, Steady, RoomEnough, Dropped;
    var start := WindowOf(lane.meter, level).totalEnd;
    Conserved(e, c, lane, xs, level);
    SteadyUnwrapped(r, t0, c, level, start, xs, RecordsTotal(e, level));
    if AlwaysValid(xs) {
      ValidDropsNothing(c, level, start, xs, RecordsTotal(e, level));
    }
  }

  /** Seconds one to n after midnight, with interval zero and a valid flagged reading in each. */
  function EverySecond(n: nat): seq<Input> {
    seq(n, i requires 0 <= i < n => Input(i + 1, 0, 60, Para(true, true, 1.0, 0.0)))
  }

  lemma {:induction false} EverySecondFillsTheDay(n: nat, start: real, recordsTotal: bool)
    requires n < 86400
    ensures var c := Clock(0, 0, 0, 0);
            var b := Keep(c, Day, start, EverySecond(n), recordsTotal);
            && b.closed == [] && |b.open| == n && b.start == start
            && ClockAfter(c, EverySecond(n)).oldSec == n && ClockAfter(c, EverySecond(n)).oldDay == 0
  {
    if n > 0 {
      assert EverySecond(n)[..n - 1] == EverySecond(n - 1);
      EverySecondFillsTheDay(n - 1, start, recordsTotal);
    }
  }

  /** With interval zero the bound fails: after 65536 readings in one day the counter shows none. */
  lemma ZeroIntervalWraps(e: Edition, lane: Lane)
    requires Initial(lane)
    ensures var after := LaneAfter(e, Clock(0, 0, 0, 0), lane, EverySecond(65536));
            after.meter.dayData.cnt == 0 && Average(after.meter.dayData) == 0.0
    ensures var start, rt := lane.meter.dayData.totalEnd, RecordsTotal(e, Day);
            |Keep(Clock(0, 0, 0, 0), Day, start, EverySecond(65536), rt).open| == 65536
  {
    hide LaneAfter, Keep, Streamed, EverySecond;
    var rt := RecordsTotal(e, Day);
    RunShowsBook(e, Clock(0, 0, 0, 0), lane, EverySecond(65536), Day);
    EverySecondFillsTheDay(65536, lane.meter.dayData.totalEnd, rt);
    var b := Keep(Clock(0, 0, 0, 0), Day, lane.meter.dayData.totalEnd, EverySecond(65536), rt);
    StreamedTotals(b.start, b.open, rt);
  }
}
