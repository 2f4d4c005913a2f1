/** Whole-run properties of the data processor, read off the books its levels keep. */
module RunProperties {
  import opened Editions
  import opened Modular
  import opened Windows
  import opened Scheduler

  // ---- Conservation ---------------------------------------------------------------------

  function Flat(gs: seq<Group>): seq<Reading> {
    if gs == [] then [] else Flat(gs[..|gs| - 1]) + gs[|gs| - 1].readings
  }

  /** At every level the closed windows and the open one partition the run's readings in order:
      none lost, none counted twice. */
  lemma {:induction false} BooksPartitionSamples(c: Clock, level: Level, start: real, xs: seq<Input>,
                                                 recordsTotal: bool)
    ensures var b := Keep(c, level, start, xs, recordsTotal);
            Flat(b.closed) + b.open == Samples(c, xs)
  {
    hide Sample;
    if xs != [] {
      var front := xs[..|xs| - 1];
      BooksPartitionSamples(c, level, start, front, recordsTotal);
      var b, now := Keep(c, level, start, front, recordsTotal), ClockAfter(c, front);
      var x := xs[|xs| - 1];
      var s := Sample(now, x);
      assert Flat(b.closed) + (b.open + s) == Flat(b.closed) + b.open + s;
      if Rolls(now, level, x) {
        var closed := Kept(b, now, level, x, recordsTotal).closed;
        assert closed[..|closed| - 1] == b.closed;
        assert Flat(closed) + [] == Flat(closed);
      }
    }
  }

  function CountOf(rows: seq<Record>): nat {
    if rows == [] then 0 else CountOf(rows[..|rows| - 1]) + rows[|rows| - 1].figures.cnt
  }

  function SumOf(rows: seq<Record>): real {
    if rows == [] then 0.0 else SumOf(rows[..|rows| - 1]) + rows[|rows| - 1].figures.rtdSum
  }

  /** The readings of windows that closed while the meter was switched off. */
  function Dropped(gs: seq<Group>): seq<Reading> {
    if gs == [] then [] else
    Dropped(gs[..|gs| - 1]) + if gs[|gs| - 1].kept then [] else gs[|gs| - 1].readings
  }

  predicate SmallWindows(gs: seq<Group>) {
    forall i :: 0 <= i < |gs| ==> |gs[i].readings| < 0x1_0000
  }

  lemma RowAppended(rows: seq<Record>, r: Record)
    ensures CountOf(rows + [r]) == CountOf(rows) + r.figures.cnt && SumOf(rows + [r]) == SumOf(rows) + r.figures.rtdSum
  {
    assert (rows + [r])[..|rows|] == rows;
  }

  lemma {:induction false} RowsSumUp(gs: seq<Group>, recordsTotal: bool)
    ensures SumOf(Rows(gs, recordsTotal)) + Sum(Dropped(gs)) == Sum(Flat(gs))
  {
    hide Streamed, Sum;
    NothingToSum();
    if gs != [] {
      var front, g := gs[..|gs| - 1], gs[|gs| - 1];
      RowsSumUp(front, recordsTotal);
      SumConcat(Flat(front), g.readings);
      if g.kept {
        StreamedTotals(g.start, g.readings, recordsTotal);
        RowAppended(Rows(front, recordsTotal), Record(g.stamp, Streamed(g.start, g.readings, recordsTotal)));
        assert Dropped(front) + [] == Dropped(front);
      } else {
        SumConcat(Dropped(front), g.readings);
        assert Rows(front, recordsTotal) + [] == Rows(front, recordsTotal);
      }
    }
  }

  lemma {:induction false} RowsCountUp(gs: seq<Group>, recordsTotal: bool)
    requires SmallWindows(gs)
    ensures CountOf(Rows(gs, recordsTotal)) + |Dropped(gs)| == |Flat(gs)|
  {
    hide Streamed;
    if gs != [] {
      var front, g := gs[..|gs| - 1], gs[|gs| - 1];
      RowsCountUp(front, recordsTotal);
      if g.kept {
        StreamedTotals(g.start, g.readings, recordsTotal);
        Unwrapped(|g.readings|);
        RowAppended(Rows(front, recordsTotal), Record(g.stamp, Streamed(g.start, g.readings, recordsTotal)));
      } else {
        assert Rows(front, recordsTotal) + [] == Rows(front, recordsTotal);
      }
    }
  }

  lemma NothingToSum()
    ensures Sum([]) == 0.0
  {
  }

  /** Conservation over any run, at any level: filed rows plus the open window account for every
      flagged reading except those of windows that closed while the meter was invalid. */
  lemma Conserved(e: Edition, c: Clock, lane: Lane, xs: seq<Input>, level: Level)
    requires Initial(lane)
    ensures var b := Keep(c, level, WindowOf(lane.meter, level).totalEnd, xs, RecordsTotal(e, level));
            var after := LaneAfter(e, c, lane, xs);
            && SumOf(TableOf(after.tables, level)) + WindowOf(after.meter, level).rtdSum + Sum(Dropped(b.closed))
               == Sum(Samples(c, xs))
            && (SmallWindows(b.closed) && |b.open| < 0x1_0000 ==>
                  CountOf(TableOf(after.tables, level)) + WindowOf(after.meter, level).cnt + |Dropped(b.closed)|
                    == |Samples(c, xs)|)
  {
    hide Keep, LaneAfter, Streamed, Sum, CountOf, SumOf, Rows;
    var rt := RecordsTotal(e, level);
    var b := Keep(c, level, WindowOf(lane.meter, level).totalEnd, xs, rt);
    RunShowsBook(e, c, lane, xs, level);
    BooksPartitionSamples(c, level, WindowOf(lane.meter, level).totalEnd, xs, rt);
    RowsSumUp(b.closed, rt);
    if SmallWindows(b.closed) {
      RowsCountUp(b.closed, rt);
    }
    StreamedTotals(b.start, b.open, rt);
    SumConcat(Flat(b.closed), b.open);
  }

  predicate AllKept(gs: seq<Group>) {
    forall i :: 0 <= i < |gs| ==> gs[i].kept
  }

  /** The meter stays configured throughout. */
  predicate AlwaysValid(xs: seq<Input>) {
    forall i :: 0 <= i < |xs| ==> xs[i].para.isValid
  }

  lemma {:induction false} KeptDropNothing(gs: seq<Group>)
    requires AllKept(gs)
    ensures Dropped(gs) == []
  {
    if gs != [] {
      KeptDropNothing(gs[..|gs| - 1]);
    }
  }

  lemma KeptMore(b: Book, c: Clock, level: Level, x: Input, recordsTotal: bool)
    requires AllKept(b.closed) && x.para.isValid
    ensures AllKept(Kept(b, c, level, x, recordsTotal).closed)
  {
    hide Sample, Rolls, EndTotal;
  }

  lemma {:induction false} ValidAllKept(c: Clock, level: Level, start: real, xs: seq<Input>, recordsTotal: bool)
    requires AlwaysValid(xs)
    ensures AllKept(Keep(c, level, start, xs, recordsTotal).closed)
  {
    hide Kept;
    if xs != [] {
      var front := xs[..|xs| - 1];
      ValidAllKept(c, level, start, front, recordsTotal);
      KeptMore(Keep(c, level, start, front, recordsTotal), ClockAfter(c, front), level, xs[|xs| - 1], recordsTotal);
    }
  }

  /** Then nothing is dropped. */
  lemma ValidDropsNothing(c: Clock, level: Level, start: real, xs: seq<Input>, recordsTotal: bool)
    requires AlwaysValid(xs)
    ensures var b := Keep(c, level, start, xs, recordsTotal); Dropped(b.closed) == [] && AllKept(b.closed)
  {
    hide Keep, Dropped;
    ValidAllKept(c, level, start, xs, recordsTotal);
    KeptDropNothing(Keep(c, level, start, xs, recordsTotal).closed);
  }

  // ---- Labels ---------------------------------------------------------------------------

  /** The period a marker falls in, as far as a row's label shows it: minute rows are labelled to
      the minute. */
  function Bucket(level: Level, t: nat): nat {
    match level case Minute => t / 60 case Hour => t / 3600 case Day => t / 86400
  }

  /** Minute windows stay open long enough for each to close in a later minute. */
  predicate WideMinutes(level: Level, xs: seq<Input>) {
    level.Minute? ==> forall i :: 0 <= i < |xs| ==> xs[i].minInterval >= 59
  }

  ghost predicate Ascending(level: Level, gs: seq<Group>, marker: nat) {
    && (forall i, j :: 0 <= i < j < |gs| ==> Bucket(level, gs[i].stamp) < Bucket(level, gs[j].stamp))
    && (forall i :: 0 <= i < |gs| ==> Bucket(level, gs[i].stamp) < Bucket(level, marker))
  }

  /** Whatever the clock does, no two hours or days are filed under the same period, and later
      ones get later periods; so do minutes if their interval is wide enough. */
  lemma {:induction false} LabelsAscend(c: Clock, level: Level, start: real, xs: seq<Input>, recordsTotal: bool)
    requires WideMinutes(level, xs)
    ensures Ascending(level, Keep(c, level, start, xs, recordsTotal).closed, Marker(ClockAfter(c, xs), level))
  {
    hide Sample;
    if xs != [] {
      var front, x := xs[..|xs| - 1], xs[|xs| - 1];
      LabelsAscend(c, level, start, front, recordsTotal);
      RollsForward(ClockAfter(c, front), level, x);
    }
  }

  lemma RollsForward(c: Clock, level: Level, x: Input)
    requires level.Minute? ==> x.minInterval >= 59
    ensures if Rolls(c, level, x) then Bucket(level, Marker(c, level)) < Bucket(level, Marker(NextClock(c, x), level))
            else Marker(NextClock(c, x), level) == Marker(c, level)
  {
  }

  ghost predicate RowsBefore(level: Level, rows: seq<Record>, marker: nat) {
    && (forall i, j :: 0 <= i < j < |rows| ==> Bucket(level, rows[i].stamp) < Bucket(level, rows[j].stamp))
    && (forall i :: 0 <= i < |rows| ==> Bucket(level, rows[i].stamp) < Bucket(level, marker))
  }

  lemma {:induction false} RowsAscend(level: Level, gs: seq<Group>, marker: nat, recordsTotal: bool)
    requires Ascending(level, gs, marker)
    ensures RowsBefore(level, Rows(gs, recordsTotal), marker)
  {
    hide Streamed, Bucket, RowsBefore;
    if gs == [] {
      NoRowsBefore(level, marker);
    } else {
      var front, g := gs[..|gs| - 1], gs[|gs| - 1];
      AscendingFront(level, gs, marker);
      RowsAscend(level, front, g.stamp, recordsTotal);
      RowAfter(level, Rows(front, recordsTotal), g.stamp, marker,
               Record(g.stamp, Streamed(g.start, g.readings, recordsTotal)));
      assert Rows(front, recordsTotal) + [] == Rows(front, recordsTotal);
    }
  }

  lemma AscendingFront(level: Level, gs: seq<Group>, marker: nat)
    requires gs != [] && Ascending(level, gs, marker)
    ensures Ascending(level, gs[..|gs| - 1], gs[|gs| - 1].stamp)
    ensures Bucket(level, gs[|gs| - 1].stamp) < Bucket(level, marker)
  {
    hide Bucket;
  }

  lemma NoRowsBefore(level: Level, marker: nat)
    ensures RowsBefore(level, [], marker)
  {
  }

  lemma RowAfter(level: Level, rows: seq<Record>, stamp: nat, marker: nat, row: Record)
    requires RowsBefore(level, rows, stamp) && row.stamp == stamp && Bucket(level, stamp) < Bucket(level, marker)
    ensures RowsBefore(level, rows + [row], marker) && RowsBefore(level, rows, marker)
  {
    hide Bucket;
  }

  /** The rows of any run carry strictly increasing periods, minute rows under that condition. */
  lemma TableLabelsAscend(e: Edition, c: Clock, lane: Lane, xs: seq<Input>, level: Level)
    requires Initial(lane) && WideMinutes(level, xs)
    ensures RowsBefore(level, TableOf(LaneAfter(e, c, lane, xs).tables, level), Marker(ClockAfter(c, xs), level))
  {
    hide Keep, LaneAfter, Rows, Streamed, Bucket;
    var start := WindowOf(lane.meter, level).totalEnd;
    RunShowsBook(e, c, lane, xs, level);
    LabelsAscend(c, level, start, xs, RecordsTotal(e, level));
    RowsAscend(level, Keep(c, level, start, xs, RecordsTotal(e, level)).closed, Marker(ClockAfter(c, xs), level),
               RecordsTotal(e, level));
  }

  /** Every iteration of the run sees this minute interval. */
  predicate IntervalIs(xs: seq<Input>, minInterval: nat) {
    forall i :: 0 <= i < |xs| ==> xs[i].minInterval == minInterval
  }

  predicate LabelsDiffer(level: Level, rows: seq<Record>) {
    forall i, j :: 0 <= i < j < |rows| ==> Bucket(level, rows[i].stamp) != Bucket(level, rows[j].stamp)
  }

  /** Minute rows never share a label, in any run, iff the interval is at least 59. It is compared
      in seconds, so the values its comment asks for, a few minutes, make labels repeat. */
  lemma MinuteLabelsExactly(e: Edition, lane: Lane, minInterval: nat)
    requires Initial(lane)
    ensures (forall c, xs :: IntervalIs(xs, minInterval) ==>
               LabelsDiffer(Minute, LaneAfter(e, c, lane, xs).tables.mins)) <==>
              minInterval >= 59
  {
    hide LaneAfter, LabelsDiffer;
    if minInterval >= 59 {
      forall c, xs | IntervalIs(xs, minInterval) ensures LabelsDiffer(Minute, LaneAfter(e, c, lane, xs).tables.mins) {
        TableLabelsAscend(e, c, lane, xs, Minute);
        BeforeDiffer(Minute, LaneAfter(e, c, lane, xs).tables.mins, Marker(ClockAfter(c, xs), Minute));
      }
    } else {
      LabelsRepeat(e, lane, minInterval);
    }
  }

  lemma BeforeDiffer(level: Level, rows: seq<Record>, marker: nat)
    requires RowsBefore(level, rows, marker)
    ensures LabelsDiffer(level, rows)
  {
    hide Bucket;
  }

  /** Two minute windows that close as early as the interval lets them. */
  function TwoMinutes(minInterval: nat): seq<Input> {
    var p := Para(true, false, 0.0, 0.0);
    [Input(minInterval + 1, 600, minInterval, p), Input(2 * minInterval + 2, 600, minInterval, p)]
  }

  lemma TwoMinutesKept(minInterval: nat, first: real)
    requires minInterval < 59
    ensures IntervalIs(TwoMinutes(minInterval), minInterval)
    ensures Keep(Clock(0, 0, 0, 0), Minute, first, TwoMinutes(minInterval), true).closed ==
            [Group(0, true, first, []), Group(minInterval + 1, true, first, [])]
  {
    var c, xs := Clock(0, 0, 0, 0), TwoMinutes(minInterval);
    assert xs[..1] == [xs[0]] && xs[..1][..0] == [];
    assert ClockAfter(c, xs[..1]) == NextClock(c, xs[0]) by {
      assert ClockAfter(c, []) == c;
    }
    assert Keep(c, Minute, first, xs[..1], true) == Book([Group(0, true, first, [])], first, []) by {
      assert Keep(c, Minute, first, [], true) == Book([], first, []);
    }
  }

  lemma LabelsRepeat(e: Edition, lane: Lane, minInterval: nat)
    requires Initial(lane) && minInterval < 59
    ensures IntervalIs(TwoMinutes(minInterval), minInterval)
    ensures !LabelsDiffer(Minute, LaneAfter(e, Clock(0, 0, 0, 0), lane, TwoMinutes(minInterval)).tables.mins)
  {
    hide LaneAfter, Streamed, Keep, Rows, TwoMinutes, IntervalIs;
    var c, first := Clock(0, 0, 0, 0), lane.meter.minData.totalEnd;
    TwoMinutesKept(minInterval, first);
    RunShowsBook(e, c, lane, TwoMinutes(minInterval), Minute);
    var rows := LaneAfter(e, c, lane, TwoMinutes(minInterval)).tables.mins;
    RowsOfKept(Keep(c, Minute, first, TwoMinutes(minInterval), true).closed, true);
    assert Bucket(Minute, rows[0].stamp) == Bucket(Minute, rows[1].stamp);
  }

  // ---- Days are made of hours -----------------------------------------------------------

  /** The hour marker's day does not lie beyond the day marker's. */
  predicate HourNotAhead(c: Clock) {
    c.oldHour / 86400 <= c.oldDay / 86400
  }

  lemma HoursPerDay(t: nat)
    ensures t / 86400 == t / 3600 / 24
  {
    var h, r := t / 3600, t % 3600;
    var d, q := h / 24, h % 24;
    assert t == 86400 * d + (3600 * q + r);
    DivBy(t, d, 3600 * q + r);
  }

  lemma DivBy(t: nat, d: nat, r: nat)
    requires t == 86400 * d + r && r < 86400
    ensures t / 86400 == d
  {
  }

  /** From such a clock, an iteration that rolls the day also rolls the hour, and the relation holds on. */
  lemma DayRollRollsHour(c: Clock, x: Input)
    requires HourNotAhead(c)
    ensures Rolls(c, Day, x) ==> Rolls(c, Hour, x)
    ensures HourNotAhead(NextClock(c, x))
  {
    HoursPerDay(x.now);
    HoursPerDay(c.oldHour);
    HoursPerDay(c.oldDay);
  }

  lemma {:induction false} HourStaysBehind(c: Clock, xs: seq<Input>)
    requires HourNotAhead(c)
    ensures HourNotAhead(ClockAfter(c, xs))
  {
    if xs != [] {
      HourStaysBehind(c, xs[..|xs| - 1]);
      DayRollRollsHour(ClockAfter(c, xs[..|xs| - 1]), xs[|xs| - 1]);
    }
  }

  /** In every iteration of the run, the day rolls only together with the hour. */
  ghost predicate Nested(c: Clock, xs: seq<Input>) {
    forall i :: 0 <= i < |xs| && Rolls(ClockAfter(c, xs[..i]), Day, xs[i]) ==>
        Rolls(ClockAfter(c, xs[..i]), Hour, xs[i])
  }

  /** Every run nests iff the hour marker does not start in a later day than the day marker. The
      markers are never initialised as written; starting both at the same time, as the other two
      are, meets the condition. */
  lemma NestingExactly(c: Clock)
    ensures (forall xs: seq<Input> :: Nested(c, xs)) <==> HourNotAhead(c)
  {
    if HourNotAhead(c) {
      forall xs: seq<Input> ensures Nested(c, xs) {
        forall i | 0 <= i < |xs| && Rolls(ClockAfter(c, xs[..i]), Day, xs[i])
          ensures Rolls(ClockAfter(c, xs[..i]), Hour, xs[i])
        {
          HourStaysBehind(c, xs[..i]);
          DayRollRollsHour(ClockAfter(c, xs[..i]), xs[i]);
        }
      }
    } else {
      var x := Input(86400 * (c.oldDay / 86400 + 1), 0, 0, Para(false, false, 0.0, 0.0));
      HoursPerDay(c.oldHour);
      DayStart(c.oldDay / 86400 + 1);
      assert ClockAfter(c, [x][..0]) == c;
      assert Rolls(c, Day, x) && !Rolls(c, Hour, x);
      assert !Nested(c, [x]);
    }
  }

  lemma DayStart(d: nat)
    ensures 86400 * d / 86400 == d && 86400 * d / 3600 == 24 * d
  {
    DivBy(86400 * d, d, 0);
  }

  /** How many hours had closed when each day closed. */
  function Cuts(c: Clock, start: real, xs: seq<Input>, recordsTotal: bool): seq<nat> {
    if xs == [] then [] else
    var front := xs[..|xs| - 1];
    Cuts(c, start, front, recordsTotal)
    + if Rolls(ClockAfter(c, front), Day, xs[|xs| - 1]) then [|Keep(c, Hour, start, xs, recordsTotal).closed|] else []
  }

  function CutBefore(cuts: seq<nat>, k: nat): nat
    requires k <= |cuts|
  {
    if k == 0 then 0 else cuts[k - 1]
  }

  /** Each closed day holds exactly the readings of the hours closed since the previous day. */
  ghost predicate ClosedDays(hours: seq<Group>, days: seq<Group>, cuts: seq<nat>) {
    && |cuts| == |days|
    && (forall k :: 0 <= k < |cuts| ==> CutBefore(cuts, k) <= cuts[k] <= |hours|)
    && (forall k :: 0 <= k < |cuts| ==> days[k].readings == Flat(hours[CutBefore(cuts, k)..cuts[k]]))
  }

  /** And the open day holds those closed since the last one plus the open hour. */
  ghost predicate DaysFromHours(hours: Book, days: Book, cuts: seq<nat>) {
    && ClosedDays(hours.closed, days.closed, cuts)
    && CutBefore(cuts, |cuts|) <= |hours.closed|
    && days.open == Flat(hours.closed[CutBefore(cuts, |cuts|)..]) + hours.open
  }

  lemma FlatOne(a: seq<Group>, g: Group)
    ensures Flat(a + [g]) == Flat(a) + g.readings
  {
    assert (a + [g])[..|a|] == a;
  }

  lemma HourClosed(hours: seq<Group>, days: seq<Group>, cuts: seq<nat>, g: Group)
    requires ClosedDays(hours, days, cuts) && CutBefore(cuts, |cuts|) <= |hours|
    ensures ClosedDays(hours + [g], days, cuts)
    ensures Flat((hours + [g])[CutBefore(cuts, |cuts|)..]) == Flat(hours[CutBefore(cuts, |cuts|)..]) + g.readings
  {
    hide Flat;
    var more, cut := hours + [g], CutBefore(cuts, |cuts|);
    forall k | 0 <= k < |cuts| ensures more[CutBefore(cuts, k)..cuts[k]] == hours[CutBefore(cuts, k)..cuts[k]] {
    }
    assert more[cut..] == hours[cut..] + [g];
    FlatOne(hours[cut..], g);
  }

  lemma DayClosed(hours: seq<Group>, days: seq<Group>, cuts: seq<nat>, g: Group)
    requires ClosedDays(hours, days, cuts) && CutBefore(cuts, |cuts|) <= |hours|
    requires g.readings == Flat(hours[CutBefore(cuts, |cuts|)..])
    ensures ClosedDays(hours, days + [g], cuts + [|hours|])
  {
    hide Flat;
    var n, more := cuts + [|hours|], days + [g];
    assert hours[CutBefore(cuts, |cuts|)..|hours|] == hours[CutBefore(cuts, |cuts|)..];
    forall k | 0 <= k < |n|
      ensures CutBefore(n, k) <= n[k] <= |hours| && more[k].readings == Flat(hours[CutBefore(n, k)..n[k]])
    {
      assert CutBefore(n, k) == CutBefore(cuts, k);
      if k < |cuts| {
        assert n[k] == cuts[k] && more[k] == days[k];
      } else {
        assert n[k] == |hours| && more[k] == g;
      }
    }
  }

  /** One iteration keeps days made of hours, provided the day rolls only with the hour. */
  lemma NestStep(c: Clock, x: Input, hours: Book, days: Book, cuts: seq<nat>, recordsTotal: bool)
    requires DaysFromHours(hours, days, cuts) && (Rolls(c, Day, x) ==> Rolls(c, Hour, x))
    ensures var h, d := Kept(hours, c, Hour, x, recordsTotal), Kept(days, c, Day, x, recordsTotal);
            DaysFromHours(h, d, cuts + if Rolls(c, Day, x) then [|h.closed|] else [])
  {
    hide Sample, Rolls, ClosedDays, Flat;
    var h, d := Kept(hours, c, Hour, x, recordsTotal), Kept(days, c, Day, x, recordsTotal);
    var cut := CutBefore(cuts, |cuts|);
    var more := hours.open + Sample(c, x);
    assert days.open + Sample(c, x) == Flat(hours.closed[cut..]) + more;
    assert cuts + [] == cuts;
    if Rolls(c, Hour, x) {
      var g := Group(Marker(c, Hour), x.para.isValid, hours.start, more);
      HourClosed(hours.closed, days.closed, cuts, g);
      assert Flat(h.closed[cut..]) + [] == Flat(h.closed[cut..]);
      if Rolls(c, Day, x) {
        DayClosed(h.closed, days.closed, cuts,
                  Group(Marker(c, Day), x.para.isValid, days.start, days.open + Sample(c, x)));
        NothingFlat();
        assert h.closed[|h.closed|..] == [] && [] + h.open == h.open;
      }
    }
  }

  lemma NothingFlat()
    ensures Flat([]) == []
  {
  }

  /** Nesting over whole runs. */
  lemma {:induction false} DaysAreMadeOfHours(c: Clock, startHour: real, startDay: real, xs: seq<Input>,
                                              recordsTotal: bool)
    requires HourNotAhead(c)
    ensures DaysFromHours(Keep(c, Hour, startHour, xs, recordsTotal), Keep(c, Day, startDay, xs, recordsTotal),
                          Cuts(c, startHour, xs, recordsTotal))
  {
    hide Kept;
    if xs != [] {
      var front, x := xs[..|xs| - 1], xs[|xs| - 1];
      DaysAreMadeOfHours(c, startHour, startDay, front, recordsTotal);
      HourStaysBehind(c, front);
      DayRollRollsHour(ClockAfter(c, front), x);
      NestStep(ClockAfter(c, front), x, Keep(c, Hour, startHour, front, recordsTotal),
               Keep(c, Day, startDay, front, recordsTotal), Cuts(c, startHour, front, recordsTotal), recordsTotal);
    }
  }

  // ---- A day's figures from its hours' figures ------------------------------------------

  /** Rows shown together: counts and sums add up, the maximum is the rows' maximum, and the
      minimum that of the rows that have one. */
  function Together(rows: seq<Record>): Window {
    if rows == [] then Fresh(0.0) else
    var u, v := Together(rows[..|rows| - 1]), rows[|rows| - 1].figures;
    Window((u.cnt + v.cnt) % 0x1_0000, MergeMax(u.rtdMax, v.rtdMax), MergeMin(u.rtdMin, v.rtdMin),
           u.rtdSum + v.rtdSum, 0.0, 0.0)
  }

  /** A minimum that is a reading's or the sentinel. */
  predicate IsMinimum(m: real) {
    m == -1.0 || m >= 0.0
  }

  /** `w` shows what `u` and `v` show together; its minimum too if asked for. */
  ghost predicate Joined(w: Window, u: Window, v: Window, minimumToo: bool) {
    && Merged(w, u, v)
    && (minimumToo ==> IsMinimum(u.rtdMin) && IsMinimum(v.rtdMin) && w.rtdMin == MergeMin(u.rtdMin, v.rtdMin))
  }

  lemma NonNegativeParts(a: seq<Reading>, b: seq<Reading>)
    requires NonNegative(a + b)
    ensures NonNegative(a) && NonNegative(b)
  {
    assert forall i :: 0 <= i < |a| ==> a[i] == (a + b)[i];
    assert forall i :: 0 <= i < |b| ==> b[i] == (a + b)[|a| + i];
  }

  lemma StreamedIsMinimum(start: real, a: seq<Reading>, recordsTotal: bool)
    requires NonNegative(a)
    ensures IsMinimum(Streamed(start, a, recordsTotal).rtdMin)
  {
    hide Streamed;
    StreamedMin(start, a, recordsTotal);
  }

  /** Two windows joined are the window over both their readings. */
  lemma StreamedJoined(s: real, a: seq<Reading>, s1: real, s2: real, b: seq<Reading>, recordsTotal: bool)
    ensures Joined(Streamed(s, a + b, recordsTotal), Streamed(s1, a, recordsTotal), Streamed(s2, b, recordsTotal),
                   NonNegative(a + b))
  {
    hide Streamed, NonNegative;
    StreamedConcat(s, a, recordsTotal, s1, s2, b, recordsTotal);
    if NonNegative(a + b) {
      NonNegativeParts(a, b);
      MinimumConcat(s, a, recordsTotal, s1, s2, b, recordsTotal);
      StreamedIsMinimum(s1, a, recordsTotal);
      StreamedIsMinimum(s2, b, recordsTotal);
      if b == [] {
        StreamedMin(s2, b, recordsTotal);
      }
    }
  }

  /** Joining a third window to the whole or to the first part comes to the same. */
  lemma JoinFirst(w: Window, u: Window, v: Window, g: Window, w2: Window, u2: Window, minimumToo: bool)
    requires Joined(w, u, v, minimumToo) && Joined(w2, w, g, minimumToo) && Joined(u2, u, g, minimumToo)
    ensures Joined(w2, u2, v, minimumToo)
  {
    RemainderOf(u.cnt + v.cnt, g.cnt, 0x1_0000);
    RemainderOf(u.cnt + g.cnt, v.cnt, 0x1_0000);
  }

  /** And to the second part. */
  lemma JoinSecond(w: Window, u: Window, v: Window, g: Window, w2: Window, v2: Window, minimumToo: bool)
    requires Joined(w, u, v, minimumToo) && Joined(w2, w, g, minimumToo) && Joined(v2, v, g, minimumToo)
    ensures Joined(w2, u, v2, minimumToo)
  {
    RemainderOf(u.cnt + v.cnt, g.cnt, 0x1_0000);
    RemainderOf(v.cnt + g.cnt, u.cnt, 0x1_0000);
  }

  lemma JoinedLess(w: Window, u: Window, v: Window, minimumToo: bool, less: bool)
    requires Joined(w, u, v, minimumToo) && (less ==> minimumToo)
    ensures Joined(w, u, v, less)
  {
  }

  lemma TogetherMore(rows: seq<Record>, row: Record, minimumToo: bool)
    requires minimumToo ==> IsMinimum(Together(rows).rtdMin) && IsMinimum(row.figures.rtdMin)
    ensures Joined(Together(rows + [row]), Together(rows), row.figures, minimumToo)
  {
    assert (rows + [row])[..|rows|] == rows;
  }

  lemma NothingTogether(start: real, recordsTotal: bool)
    ensures Joined(Streamed(start, [], recordsTotal), Together([]), Streamed(0.0, [], recordsTotal), true)
  {
  }

  /** A window over several hours shows what the hours' rows show together with the readings of
      the hours that filed no row; its minimum does if no reading in it is negative. */
  lemma {:induction false} FiguresMerge(start: real, gs: seq<Group>, recordsTotal: bool)
    ensures Joined(Streamed(start, Flat(gs), recordsTotal), Together(Rows(gs, recordsTotal)),
                   Streamed(0.0, Dropped(gs), recordsTotal), NonNegative(Flat(gs)))
  {
    hide Joined, NonNegative, Streamed, Together;
    if gs == [] {
      NothingTogether(start, recordsTotal);
      JoinedLess(Streamed(start, [], recordsTotal), Together([]), Streamed(0.0, [], recordsTotal), true,
                 NonNegative([]));
    } else {
      var front, g := gs[..|gs| - 1], gs[|gs| - 1];
      FiguresMerge(start, front, recordsTotal);
      if g.kept {
        RowsMore(front, g, recordsTotal);
        assert front + [g] == gs;
        assert Dropped(front) + [] == Dropped(front);
        OneRowMore(start, front, g, recordsTotal);
      } else {
        assert Rows(front, recordsTotal) + [] == Rows(front, recordsTotal);
        OneDroppedMore(start, front, g, recordsTotal);
      }
    }
  }

  lemma OneRowMore(start: real, front: seq<Group>, g: Group, recordsTotal: bool)
    requires Joined(Streamed(start, Flat(front), recordsTotal), Together(Rows(front, recordsTotal)),
                    Streamed(0.0, Dropped(front), recordsTotal), NonNegative(Flat(front)))
    ensures var row := Record(g.stamp, Streamed(g.start, g.readings, recordsTotal));
            Joined(Streamed(start, Flat(front) + g.readings, recordsTotal), Together(Rows(front, recordsTotal) + [row]),
                   Streamed(0.0, Dropped(front), recordsTotal), NonNegative(Flat(front) + g.readings))
  {
    hide NonNegative, Streamed, Together, MergeMin, MergeMax, Merged, Rows, Flat, Dropped;
    var m := NonNegative(Flat(front) + g.readings);
    if m {
      NonNegativeParts(Flat(front), g.readings);
      StreamedIsMinimum(g.start, g.readings, recordsTotal);
    }
    var w, u := Streamed(start, Flat(front), recordsTotal), Together(Rows(front, recordsTotal));
    var v, figures := Streamed(0.0, Dropped(front), recordsTotal), Streamed(g.start, g.readings, recordsTotal);
    var row := Record(g.stamp, figures);
    JoinedLess(w, u, v, NonNegative(Flat(front)), m);
    StreamedJoined(start, Flat(front), start, g.start, g.readings, recordsTotal);
    TogetherMore(Rows(front, recordsTotal), row, m);
    JoinFirst(w, u, v, figures, Streamed(start, Flat(front) + g.readings, recordsTotal),
              Together(Rows(front, recordsTotal) + [row]), m);
  }

  lemma OneDroppedMore(start: real, front: seq<Group>, g: Group, recordsTotal: bool)
    requires Joined(Streamed(start, Flat(front), recordsTotal), Together(Rows(front, recordsTotal)),
                    Streamed(0.0, Dropped(front), recordsTotal), NonNegative(Flat(front)))
    ensures Joined(Streamed(start, Flat(front) + g.readings, recordsTotal), Together(Rows(front, recordsTotal)),
                   Streamed(0.0, Dropped(front) + g.readings, recordsTotal), NonNegative(Flat(front) + g.readings))
  {
    hide NonNegative, Streamed, Together, MergeMin, MergeMax, Merged, Rows, Flat, Dropped;
    var m := NonNegative(Flat(front) + g.readings);
    if m {
      NonNegativeParts(Flat(front), g.readings);
      DroppedOfFlat(front);
      NonNegativeJoin(Dropped(front), g.readings);
    }
    var w, u := Streamed(start, Flat(front), recordsTotal), Together(Rows(front, recordsTotal));
    var v, figures := Streamed(0.0, Dropped(front), recordsTotal), Streamed(g.start, g.readings, recordsTotal);
    JoinedLess(w, u, v, NonNegative(Flat(front)), m);
    StreamedJoined(start, Flat(front), start, g.start, g.readings, recordsTotal);
    StreamedJoined(0.0, Dropped(front), 0.0, g.start, g.readings, recordsTotal);
    var v2 := Streamed(0.0, Dropped(front) + g.readings, recordsTotal);
    JoinedLess(v2, v, figures, NonNegative(Dropped(front) + g.readings), m);
    JoinSecond(w, u, v, figures, Streamed(start, Flat(front) + g.readings, recordsTotal), v2, m);
  }

  lemma NonNegativeJoin(a: seq<Reading>, b: seq<Reading>)
    requires NonNegative(a) && NonNegative(b)
    ensures NonNegative(a + b)
  {
  }

  lemma {:induction false} DroppedOfFlat(gs: seq<Group>)
    requires NonNegative(Flat(gs))
    ensures NonNegative(Dropped(gs))
  {
    hide NonNegative;
    if gs != [] {
      var front, g := gs[..|gs| - 1], gs[|gs| - 1];
      NonNegativeParts(Flat(front), g.readings);
      DroppedOfFlat(front);
      NonNegativeJoin(Dropped(front), g.readings);
      assert Dropped(front) + [] == Dropped(front);
    }
  }

  /** The minimum of a window over several hours, whatever the signs: an hour with a negative
      reading makes it start over. */
  function MinimumOver(gs: seq<Group>, recordsTotal: bool): real {
    if gs == [] then -1.0 else
    var m, g := MinimumOver(gs[..|gs| - 1], recordsTotal), gs[|gs| - 1];
    var v := Streamed(g.start, g.readings, recordsTotal).rtdMin;
    if g.readings == [] then m else if NonNegative(g.readings) then MergeMin(m, v) else v
  }

  lemma {:induction false} MinimumFolds(start: real, gs: seq<Group>, recordsTotal: bool)
    ensures Streamed(start, Flat(gs), recordsTotal).rtdMin == MinimumOver(gs, recordsTotal)
  {
    hide Streamed, NonNegative;
    if gs == [] {
      StreamedMin(start, [], recordsTotal);
    } else {
      var front, g := gs[..|gs| - 1], gs[|gs| - 1];
      MinimumFolds(start, front, recordsTotal);
      MinimumConcat(start, Flat(front), recordsTotal, start, g.start, g.readings, recordsTotal);
    }
  }

  /** `w` accounts for the rows and the readings no row shows. */
  ghost predicate Accounts(w: Window, rows: seq<Record>, missing: seq<Reading>, minimumToo: bool) {
    var u, v := Together(rows), Streamed(0.0, missing, true);
    && w.cnt == (u.cnt + |missing|) % 0x1_0000
    && w.rtdSum == u.rtdSum + Sum(missing)
    && w.rtdMax == MergeMax(u.rtdMax, v.rtdMax)
    && (minimumToo ==> w.rtdMin == MergeMin(u.rtdMin, v.rtdMin))
  }

  lemma WindowAccounts(start: real, gs: seq<Group>, recordsTotal: bool)
    ensures Accounts(Streamed(start, Flat(gs), recordsTotal), Rows(gs, recordsTotal), Dropped(gs),
                     NonNegative(Flat(gs)))
  {
    hide Streamed, Sum, Together, NonNegative, Rows, MergeMin, MergeMax;
    FiguresMerge(start, gs, recordsTotal);
    StreamedTotals(0.0, Dropped(gs), recordsTotal);
    SameFigures(0.0, recordsTotal, 0.0, true, Dropped(gs));
    RemainderOf(|Dropped(gs)|, Together(Rows(gs, recordsTotal)).cnt, 0x1_0000);
  }

  lemma {:induction false} RowsConcat(a: seq<Group>, b: seq<Group>, recordsTotal: bool)
    ensures Rows(a + b, recordsTotal) == Rows(a, recordsTotal) + Rows(b, recordsTotal)
  {
    hide Rows, Streamed;
    if b == [] {
      assert a + b == a;
      NoRows(recordsTotal);
    } else {
      var front, g := b[..|b| - 1], b[|b| - 1];
      RowsConcat(a, front, recordsTotal);
      assert a + b == (a + front) + [g] && b == front + [g];
      RowsMore(a + front, g, recordsTotal);
      RowsMore(front, g, recordsTotal);
      var x, y := Rows(a, recordsTotal), Rows(front, recordsTotal);
      var z := [Record(g.stamp, Streamed(g.start, g.readings, recordsTotal))];
      assert x + y + z == x + (y + z);
    }
  }

  lemma NoRows(recordsTotal: bool)
    ensures Rows([], recordsTotal) == []
  {
  }

  /** Where the rows of some windows stand in the table. */
  lemma RowsOfSlice(gs: seq<Group>, a: nat, b: nat, recordsTotal: bool)
    requires a <= b <= |gs|
    ensures var at, mine := |Rows(gs[..a], recordsTotal)|, Rows(gs[a..b], recordsTotal);
            at + |mine| <= |Rows(gs, recordsTotal)| && Rows(gs, recordsTotal)[at..at + |mine|] == mine
  {
    hide Rows;
    assert gs == gs[..a] + (gs[a..b] + gs[b..]);
    RowsConcat(gs[..a], gs[a..b] + gs[b..], recordsTotal);
    RowsConcat(gs[a..b], gs[b..], recordsTotal);
  }

  /** The row of a window, if it filed one. */
  lemma RowOfOne(gs: seq<Group>, k: nat, recordsTotal: bool)
    requires k < |gs| && gs[k].kept
    ensures var at, g := |Rows(gs[..k], recordsTotal)|, gs[k];
            at < |Rows(gs, recordsTotal)|
            && Rows(gs, recordsTotal)[at] == Record(g.stamp, Streamed(g.start, g.readings, recordsTotal))
  {
    hide Streamed;
    RowsOfSlice(gs, k, k + 1, recordsTotal);
    assert gs[k..k + 1] == [gs[k]] && [gs[k]][..0] == [];
    assert Rows([gs[k]], recordsTotal) == [Record(gs[k].stamp, Streamed(gs[k].start, gs[k].readings, recordsTotal))];
    assert Rows(gs, recordsTotal)[|Rows(gs[..k], recordsTotal)|..|Rows(gs[..k], recordsTotal)| + 1][0]
           == Rows(gs, recordsTotal)[|Rows(gs[..k], recordsTotal)|];
  }

  /** The k-th day of a run against the hour table: which rows are its hours', and that its
      figures account for them and for the readings of its hours that filed none. */
  ghost predicate DayAccounts(hours: seq<Group>, days: seq<Group>, cuts: seq<nat>, k: nat, rows: seq<Record>, rt: bool)
    requires k < |days|
  {
    && |cuts| == |days| && CutBefore(cuts, k) <= cuts[k] <= |hours|
    && var mine, at := hours[CutBefore(cuts, k)..cuts[k]], |Rows(hours[..CutBefore(cuts, k)], rt)|;
       var day := Streamed(days[k].start, days[k].readings, rt);
       && at + |Rows(mine, rt)| <= |rows| && rows[at..at + |Rows(mine, rt)|] == Rows(mine, rt)
       && Accounts(day, Rows(mine, rt), Dropped(mine), NonNegative(days[k].readings))
       && day.rtdMin == MinimumOver(mine, rt)
  }

  /** Over any run, each day's figures account for exactly the rows its hours filed in the hour
      table and the readings of its hours that closed while the meter was switched off: count, sum
      and maximum always, the minimum if no reading of that day is negative, and the minimum hour
      by hour in any case. If the day filed a row, that row shows these figures. */
  lemma DayRowsMergeHourRows(e: Edition, c: Clock, lane: Lane, xs: seq<Input>, k: nat)
    requires Initial(lane) && HourNotAhead(c)
    requires k < |Keep(c, Day, lane.meter.dayData.totalEnd, xs, RecordsTotal(e, Day)).closed|
    ensures var rt, t := RecordsTotal(e, Day), LaneAfter(e, c, lane, xs).tables;
            var cuts := Cuts(c, lane.meter.hourData.totalEnd, xs, rt);
            var hours := Keep(c, Hour, lane.meter.hourData.totalEnd, xs, rt).closed;
            var days := Keep(c, Day, lane.meter.dayData.totalEnd, xs, rt).closed;
            && DayAccounts(hours, days, cuts, k, t.hours, rt)
            && (days[k].kept ==>
                  var at := |Rows(days[..k], rt)|;
                  at < |t.days| && t.days[at] == Record(days[k].stamp, Streamed(days[k].start, days[k].readings, rt)))
  {
    hide Streamed, Keep, Cuts, Rows, LaneAfter, DayAccounts;
    var rt := RecordsTotal(e, Day);
    var h0, d0 := lane.meter.hourData.totalEnd, lane.meter.dayData.totalEnd;
    var hours, days := Keep(c, Hour, h0, xs, rt), Keep(c, Day, d0, xs, rt);
    RunShowsBook(e, c, lane, xs, Hour);
    RunShowsBook(e, c, lane, xs, Day);
    DaysAreMadeOfHours(c, h0, d0, xs, rt);
    DayRowMerges(hours.closed, days.closed, Cuts(c, h0, xs, rt), k, rt);
    if days.closed[k].kept {
      RowOfOne(days.closed, k, rt);
    }
  }

  lemma DayRowMerges(hours: seq<Group>, days: seq<Group>, cuts: seq<nat>, k: nat, rt: bool)
    requires ClosedDays(hours, days, cuts) && k < |days|
    ensures DayAccounts(hours, days, cuts, k, Rows(hours, rt), rt)
  {
    hide Streamed, Rows, Accounts, MinimumOver, Flat, NonNegative;
    var mine := hours[CutBefore(cuts, k)..cuts[k]];
    RowsOfSlice(hours, CutBefore(cuts, k), cuts[k], rt);
    WindowAccounts(days[k].start, mine, rt);
    MinimumFolds(days[k].start, mine, rt);
  }

  /** When rows alone show what a window over their periods shows: the counts agree iff the number
      of missing readings is a multiple of 65536, the sums iff the missing ones add up to zero, and
      the maxima iff none of them is higher. */
  lemma AgreesExactly(w: Window, rows: seq<Record>, missing: seq<Reading>, minimumToo: bool)
    requires Accounts(w, rows, missing, minimumToo)
    ensures w.cnt == Together(rows).cnt <==> |missing| % 0x1_0000 == 0
    ensures w.rtdSum == Together(rows).rtdSum <==> Sum(missing) == 0.0
    ensures w.rtdMax == Together(rows).rtdMax <==>
              forall i :: 0 <= i < |missing| ==> missing[i].rtd <= Together(rows).rtdMax
  {
    hide Streamed, Sum;
    StreamedMax(0.0, missing, true);
    TogetherBounds(rows);
    SameCount(Together(rows).cnt, |missing|);
  }

  lemma SameCount(u: nat, n: nat)
    requires u < 0x1_0000
    ensures u == (u + n) % 0x1_0000 <==> n % 0x1_0000 == 0
  {
    RemainderOf(n, u, 0x1_0000);
  }

  lemma TogetherBounds(rows: seq<Record>)
    ensures Together(rows).cnt < 0x1_0000 && Together(rows).rtdMax >= 0.0
  {
  }

  /** So each day row agrees with its hours' rows exactly when their missing readings allow it. */
  lemma DayRowsAgreeExactly(e: Edition, c: Clock, lane: Lane, xs: seq<Input>, k: nat)
    requires Initial(lane) && HourNotAhead(c)
    requires k < |Keep(c, Day, lane.meter.dayData.totalEnd, xs, RecordsTotal(e, Day)).closed|
    requires Keep(c, Day, lane.meter.dayData.totalEnd, xs, RecordsTotal(e, Day)).closed[k].kept
    ensures var rt, t := RecordsTotal(e, Day), LaneAfter(e, c, lane, xs).tables;
            var cuts := Cuts(c, lane.meter.hourData.totalEnd, xs, rt);
            var hours := Keep(c, Hour, lane.meter.hourData.totalEnd, xs, rt).closed;
            var days := Keep(c, Day, lane.meter.dayData.totalEnd, xs, rt).closed;
            && |Rows(days[..k], rt)| < |t.days|
            && |cuts| == |days| && CutBefore(cuts, k) <= cuts[k] <= |hours|
            && var day, mine := t.days[|Rows(days[..k], rt)|].figures, hours[CutBefore(cuts, k)..cuts[k]];
               var shown, missing := Together(Rows(mine, rt)), Dropped(mine);
               && (day.cnt == shown.cnt <==> |missing| % 0x1_0000 == 0)
               && (day.rtdSum == shown.rtdSum <==> Sum(missing) == 0.0)
               && (day.rtdMax == shown.rtdMax <==> forall i :: 0 <= i < |missing| ==> missing[i].rtd <= shown.rtdMax)
  {
    hide Streamed, Keep, Cuts, Rows, LaneAfter, Accounts, Together, Dropped, Sum, NonNegative, MinimumOver;
    DayRowsMergeHourRows(e, c, lane, xs, k);
    var rt := RecordsTotal(e, Day);
    var cuts := Cuts(c, lane.meter.hourData.totalEnd, xs, rt);
    var hours := Keep(c, Hour, lane.meter.hourData.totalEnd, xs, rt).closed;
    var days := Keep(c, Day, lane.meter.dayData.totalEnd, xs, rt).closed;
    var mine := hours[CutBefore(cuts, k)..cuts[k]];
    AgreesExactly(Streamed(days[k].start, days[k].readings, rt), Rows(mine, rt), Dropped(mine),
                  NonNegative(days[k].readings));
  }

  /** If every hour and every day filed its row, as while the meter stays configured, nothing is
      missing: the k-th day row shows what the hour rows between two cuts show together. */
  lemma FiledDayRows(e: Edition, c: Clock, lane: Lane, xs: seq<Input>, k: nat)
    requires Initial(lane) && HourNotAhead(c)
    requires AllKept(Keep(c, Hour, lane.meter.hourData.totalEnd, xs, RecordsTotal(e, Day)).closed)
    requires AllKept(Keep(c, Day, lane.meter.dayData.totalEnd, xs, RecordsTotal(e, Day)).closed)
    requires k < |LaneAfter(e, c, lane, xs).tables.days|
    ensures var rt, t := RecordsTotal(e, Day), LaneAfter(e, c, lane, xs).tables;
            var cuts := Cuts(c, lane.meter.hourData.totalEnd, xs, rt);
            var days := Keep(c, Day, lane.meter.dayData.totalEnd, xs, rt).closed;
            && |cuts| == |days| == |t.days| && CutBefore(cuts, k) <= cuts[k] <= |t.hours|
            && Accounts(t.days[k].figures, t.hours[CutBefore(cuts, k)..cuts[k]], [], NonNegative(days[k].readings))
  {
    hide Streamed, Keep, Cuts, Rows, LaneAfter, Accounts, NonNegative, Dropped;
    var rt := RecordsTotal(e, Day);
    var h0, d0 := lane.meter.hourData.totalEnd, lane.meter.dayData.totalEnd;
    var hours, days, cuts := Keep(c, Hour, h0, xs, rt).closed, Keep(c, Day, d0, xs, rt).closed, Cuts(c, h0, xs, rt);
    RunShowsBook(e, c, lane, xs, Hour);
    RunShowsBook(e, c, lane, xs, Day);
    DaysAreMadeOfHours(c, h0, d0, xs, rt);
    RowsOfKept(days, rt);
    KeptDay(hours, days, cuts, k, rt);
  }

  lemma KeptDay(hours: seq<Group>, days: seq<Group>, cuts: seq<nat>, k: nat, rt: bool)
    requires ClosedDays(hours, days, cuts) && AllKept(hours) && AllKept(days) && k < |days|
    ensures |Rows(hours, rt)| == |hours| && |Rows(days, rt)| == |days|
    ensures Accounts(Rows(days, rt)[k].figures, Rows(hours, rt)[CutBefore(cuts, k)..cuts[k]], [],
                     NonNegative(days[k].readings))
  {
    hide Streamed, Rows, Accounts, Flat, NonNegative, Dropped;
    var mine := hours[CutBefore(cuts, k)..cuts[k]];
    RowsOfKept(hours, rt);
    RowsOfKept(days, rt);
    RowsOfKept(mine, rt);
    assert Rows(mine, rt) == Rows(hours, rt)[CutBefore(cuts, k)..cuts[k]];
    WindowAccounts(days[k].start, mine, rt);
    KeptDropNothing(mine);
  }

  /** An hour with a reading closes while the meter is switched off; the day closes later. */
  const HOUR_OFF: Input := Input(3600, 60000, 255, Para(false, false, 0.0, 0.0))
  const HOUR_LOST: seq<Input> :=
    [Input(2, 1, 255, Para(true, true, 5.0, 0.0)), HOUR_OFF, Input(86400, 1000000, 255, Para(true, false, 0.0, 0.0))]

  lemma OneStep(c: Clock, level: Level, start: real, front: seq<Input>, x: Input, recordsTotal: bool)
    ensures Keep(c, level, start, front + [x], recordsTotal) ==
            Kept(Keep(c, level, start, front, recordsTotal), ClockAfter(c, front), level, x, recordsTotal)
    ensures ClockAfter(c, front + [x]) == NextClock(ClockAfter(c, front), x)
  {
    hide Kept, NextClock;
    assert (front + [x])[..|front|] == front;
  }

  lemma HourLostKept(level: Level, start: real, recordsTotal: bool)
    requires !level.Minute?
    ensures var closed := Keep(Clock(0, 0, 0, 0), level, start, HOUR_LOST, recordsTotal).closed;
            if level.Day? then |closed| == 1 && closed[0].kept && closed[0].readings == [Reading(5.0, 0.0)]
            else |closed| == 2 && !closed[0].kept && closed[1].kept && closed[1].readings == []
  {
    var c, xs, r := Clock(0, 0, 0, 0), HOUR_LOST, [Reading(5.0, 0.0)];
    OneStep(c, level, start, [], xs[0], recordsTotal);
    OneStep(c, level, start, [xs[0]], xs[1], recordsTotal);
    OneStep(c, level, start, [xs[0], xs[1]], xs[2], recordsTotal);
    assert [] + [xs[0]] == [xs[0]] && [xs[0]] + [xs[1]] == [xs[0], xs[1]] && [xs[0], xs[1]] + [xs[2]] == xs;
    assert [] + r == r && r + [] == r;
    assert Keep(c, level, start, [xs[0]], recordsTotal) == Book([], start, r);
    assert ClockAfter(c, [xs[0]]) == Clock(2, 0, 0, 0);
    assert ClockAfter(c, [xs[0], xs[1]]) == Clock(2, 3600, 3600, 0);
  }

  /** So a day row can show what no hour row does: one reading, of five, against none. */
  lemma SwitchedOffHourLost(e: Edition, lane: Lane)
    requires Initial(lane)
    ensures HourNotAhead(Clock(0, 0, 0, 0))
    ensures var t := LaneAfter(e, Clock(0, 0, 0, 0), lane, HOUR_LOST).tables;
            && |t.days| == |t.hours| == 1
            && t.days[0].figures.cnt == 1 && t.days[0].figures.rtdSum == 5.0
            && t.hours[0].figures.cnt == 0 && t.hours[0].figures.rtdSum == 0.0
  {
    hide LaneAfter, Keep, Streamed, Rows;
    var c, rt := Clock(0, 0, 0, 0), RecordsTotal(e, Day);
    var hours := Keep(c, Hour, lane.meter.hourData.totalEnd, HOUR_LOST, rt).closed;
    var days := Keep(c, Day, lane.meter.dayData.totalEnd, HOUR_LOST, rt).closed;
    HourLostKept(Hour, lane.meter.hourData.totalEnd, rt);
    HourLostKept(Day, lane.meter.dayData.totalEnd, rt);
    RunShowsBook(e, c, lane, HOUR_LOST, Hour);
    RunShowsBook(e, c, lane, HOUR_LOST, Day);
    NoRows(rt);
    RowsMore([], days[0], rt);
    RowsMore([], hours[0], rt);
    RowsMore([hours[0]], hours[1], rt);
    assert days == [] + [days[0]] && [] + [hours[0]] == [hours[0]] && hours == [hours[0]] + [hours[1]];
    StreamedTotals(days[0].start, days[0].readings, rt);
    StreamedTotals(hours[1].start, hours[1].readings, rt);
    SumOfOne(Reading(5.0, 0.0));
  }

  /** With the meter valid throughout, row i is window i. */
  lemma {:induction false} RowsOfKept(gs: seq<Group>, recordsTotal: bool)
    requires AllKept(gs)
    ensures |Rows(gs, recordsTotal)| == |gs|
    ensures forall i :: 0 <= i < |gs| ==>
              Rows(gs, recordsTotal)[i] == Record(gs[i].stamp, Streamed(gs[i].start, gs[i].readings, recordsTotal))
  {
    hide Streamed;
    if gs != [] {
      RowsOfKept(gs[..|gs| - 1], recordsTotal);
    }
  }
}
