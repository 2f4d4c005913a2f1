/** What the reported increments tell of a meter's advance over a whole run. */
module Increments {
  import opened Editions
  import opened Windows
  import opened Scheduler
  import opened RunProperties

  /** The increment a closed window reports. */
  function Reported(g: Group, recordsTotal: bool): real {
    Increment(Streamed(g.start, g.readings, recordsTotal))
  }

  function ReportedSum(gs: seq<Group>, recordsTotal: bool): real {
    if gs == [] then 0.0 else ReportedSum(gs[..|gs| - 1], recordsTotal) + Reported(gs[|gs| - 1], recordsTotal)
  }

  predicate TotalsNonNegative(rs: seq<Reading>) {
    forall i :: 0 <= i < |rs| ==> rs[i].total >= 0.0
  }

  /** No window ends on a smaller total than it started on. */
  predicate NeverFalls(gs: seq<Group>, recordsTotal: bool) {
    forall i :: 0 <= i < |gs| ==> EndTotal(gs[i].start, gs[i].readings, recordsTotal) >= gs[i].start
  }

  lemma ReportedIs(g: Group, recordsTotal: bool)
    requires g.start >= 0.0
    ensures var end := EndTotal(g.start, g.readings, recordsTotal);
            Reported(g, recordsTotal) == if end > g.start then end - g.start else 0.0
  {
    hide Streamed;
    StreamedTotals(g.start, g.readings, recordsTotal);
  }

  /** By how much a total fell. */
  function Fall(start: real, end: real): real {
    if end < start then start - end else 0.0
  }

  function FallSum(gs: seq<Group>, recordsTotal: bool): real {
    if gs == [] then 0.0 else
    var g := gs[|gs| - 1];
    FallSum(gs[..|gs| - 1], recordsTotal) + Fall(g.start, EndTotal(g.start, g.readings, recordsTotal))
  }

  lemma {:induction false} FallSumZero(gs: seq<Group>, recordsTotal: bool)
    ensures FallSum(gs, recordsTotal) >= 0.0
    ensures FallSum(gs, recordsTotal) == 0.0 <==> NeverFalls(gs, recordsTotal)
  {
    hide EndTotal;
    if gs != [] {
      var front, g := gs[..|gs| - 1], gs[|gs| - 1];
      FallSumZero(front, recordsTotal);
      OneMoreReported(front, g, recordsTotal);
      assert front + [g] == gs;
    }
  }

  predicate StartsNonNegative(gs: seq<Group>) {
    forall i :: 0 <= i < |gs| ==> gs[i].start >= 0.0
  }

  /** A book's increments exceed the meter's advance by what its windows' totals fell. */
  ghost predicate Telescoped(b: Book, first: real, recordsTotal: bool) {
    && b.start >= 0.0
    && TotalsNonNegative(b.open)
    && StartsNonNegative(b.closed)
    && ReportedSum(b.closed, recordsTotal) == b.start - first + FallSum(b.closed, recordsTotal)
  }

  lemma TelescopeStep(b: Book, first: real, c: Clock, level: Level, x: Input, recordsTotal: bool)
    requires Telescoped(b, first, recordsTotal) && TotalsNonNegative(Sample(c, x))
    ensures Telescoped(Kept(b, c, level, x, recordsTotal), first, recordsTotal)
  {
    hide Streamed, Sample, Reported, Rolls, ReportedSum, FallSum;
    TotalsJoin(b.open, Sample(c, x));
    if Rolls(c, level, x) {
      var g := Group(Marker(c, level), x.para.isValid, b.start, b.open + Sample(c, x));
      ReportedIs(g, recordsTotal);
      OneMoreReported(b.closed, g, recordsTotal);
    }
  }

  lemma {:induction false} BookTelescopes(c: Clock, level: Level, start: real, xs: seq<Input>, recordsTotal: bool)
    requires start >= 0.0 && TotalsNonNegative(Samples(c, xs))
    ensures Telescoped(Keep(c, level, start, xs, recordsTotal), start, recordsTotal)
  {
    hide Sample, Kept, Reported;
    if xs != [] {
      var front, x := xs[..|xs| - 1], xs[|xs| - 1];
      TotalsParts(Samples(c, front), Sample(ClockAfter(c, front), x));
      BookTelescopes(c, level, start, front, recordsTotal);
      TelescopeStep(Keep(c, level, start, front, recordsTotal), start, ClockAfter(c, front), level, x, recordsTotal);
    }
  }

  function IncrementSum(rows: seq<Record>): real {
    if rows == [] then 0.0 else IncrementSum(rows[..|rows| - 1]) + Increment(rows[|rows| - 1].figures)
  }

  /** The increments of windows that closed while the meter was switched off: no row shows them. */
  function Unreported(gs: seq<Group>, recordsTotal: bool): real {
    if gs == [] then 0.0 else
    Unreported(gs[..|gs| - 1], recordsTotal) + if gs[|gs| - 1].kept then 0.0 else Reported(gs[|gs| - 1], recordsTotal)
  }

  lemma {:induction false} RowsReport(gs: seq<Group>, recordsTotal: bool)
    ensures IncrementSum(Rows(gs, recordsTotal)) + Unreported(gs, recordsTotal) == ReportedSum(gs, recordsTotal)
  {
    hide Streamed, Increment;
    if gs != [] {
      var front, g := gs[..|gs| - 1], gs[|gs| - 1];
      RowsReport(front, recordsTotal);
      var rows, row := Rows(front, recordsTotal), Record(g.stamp, Streamed(g.start, g.readings, recordsTotal));
      assert (rows + [row])[..|rows|] == rows;
      assert rows + [] == rows;
    }
  }

  /** Each window starts on the total the previous one ended on. So over any run with
      non-negative totals the increments in the table, those of the windows that filed no row and
      that of the open window exceed the meter's advance by exactly what its windows' totals fell:
      they are never less, and equal iff no window's total fell. */
  lemma IncrementsTelescope(e: Edition, c: Clock, lane: Lane, xs: seq<Input>, level: Level)
    requires Initial(lane) && WindowOf(lane.meter, level).totalEnd >= 0.0 && TotalsNonNegative(Samples(c, xs))
    ensures var rt, first := RecordsTotal(e, level), WindowOf(lane.meter, level).totalEnd;
            var closed := Keep(c, level, first, xs, rt).closed;
            var after := LaneAfter(e, c, lane, xs);
            var open := WindowOf(after.meter, level);
            var told := IncrementSum(TableOf(after.tables, level)) + Unreported(closed, rt) + Increment(open);
            && told == open.totalEnd - first + FallSum(closed, rt) + Fall(open.totalStart, open.totalEnd)
            && told >= open.totalEnd - first
            && (told == open.totalEnd - first <==> NeverFalls(closed, rt) && open.totalEnd >= open.totalStart)
  {
    hide Keep, LaneAfter, Streamed, Rows, Unreported, IncrementSum, ReportedSum, NeverFalls, FallSum;
    var rt, first := RecordsTotal(e, level), WindowOf(lane.meter, level).totalEnd;
    var b := Keep(c, level, first, xs, rt);
    RunShowsBook(e, c, lane, xs, level);
    BookTelescopes(c, level, first, xs, rt);
    FallSumZero(b.closed, rt);
    RowsReport(b.closed, rt);
    StreamedTotals(b.start, b.open, rt);
  }

  /** A reading, and then the minute closes while the meter is switched off. */
  const SWITCHED_OFF: seq<Input> :=
    [Input(2, 1, 60, Para(true, true, 1.0, 100.0)), Input(61, 1, 60, Para(false, false, 0.0, 0.0))]

  /** The rows alone can fall short: here the meter advances by a hundred and no row says so. */
  lemma SwitchedOffAdvanceLost(e: Edition, lane: Lane)
    requires Initial(lane) && lane.meter.minData.totalEnd == 0.0
    ensures var after := LaneAfter(e, Clock(0, 0, 0, 0), lane, SWITCHED_OFF);
            after.tables.mins == [] && after.meter.minData.totalStart == 100.0
  {
    var c, xs := Clock(0, 0, 0, 0), SWITCHED_OFF;
    assert xs[..1] == [xs[0]] && xs[..1][..0] == [];
    var b1 := Keep(c, Minute, 0.0, xs[..1], true);
    assert b1 == Book([], 0.0, [Reading(1.0, 100.0)]) by { assert Keep(c, Minute, 0.0, [], true) == Book([], 0.0, []); }
    assert ClockAfter(c, xs[..1]) == Clock(2, 0, 0, 0) by { assert ClockAfter(c, []) == c; }
    var b := Keep(c, Minute, 0.0, xs, true);
    var g := Group(0, false, 0.0, [Reading(1.0, 100.0)]);
    assert b1.open + [] == b1.open;
    assert b == Book([g], 100.0, []);
    assert [g][..0] == [];
    assert Rows([g], true) == Rows([], true) + [];
    RunShowsBook(e, c, lane, xs, Minute);
    StreamedTotals(b.start, b.open, true);
  }

  lemma {:induction false} KeptAllReported(gs: seq<Group>, recordsTotal: bool)
    requires AllKept(gs)
    ensures Unreported(gs, recordsTotal) == 0.0
  {
    hide Reported;
    if gs != [] {
      KeptAllReported(gs[..|gs| - 1], recordsTotal);
    }
  }

  predicate RowsNeverFall(rows: seq<Record>) {
    forall i :: 0 <= i < |rows| ==> rows[i].figures.totalEnd >= rows[i].figures.totalStart
  }

  lemma RowsFallAsBooks(gs: seq<Group>, recordsTotal: bool)
    requires AllKept(gs)
    ensures RowsNeverFall(Rows(gs, recordsTotal)) <==> NeverFalls(gs, recordsTotal)
  {
    hide Streamed, Rows;
    RowsOfKept(gs, recordsTotal);
    forall i | 0 <= i < |gs|
      ensures var w := Streamed(gs[i].start, gs[i].readings, recordsTotal);
              w.totalStart == gs[i].start && w.totalEnd == EndTotal(gs[i].start, gs[i].readings, recordsTotal)
    {
      StreamedTotals(gs[i].start, gs[i].readings, recordsTotal);
    }
  }

  /** The rows and the open window alone: they tell the meter's advance iff what went unreported
      equals what totals fell, and no less than it iff it does not exceed that. If every window
      filed its row, nothing went unreported and the condition can be read off the rows. */
  lemma RowIncrementsTelescope(e: Edition, c: Clock, lane: Lane, xs: seq<Input>, level: Level)
    requires Initial(lane) && WindowOf(lane.meter, level).totalEnd >= 0.0 && TotalsNonNegative(Samples(c, xs))
    ensures var rt, first, after := RecordsTotal(e, level), WindowOf(lane.meter, level).totalEnd,
            LaneAfter(e, c, lane, xs);
            var closed := Keep(c, level, first, xs, rt).closed;
            var rows, open := TableOf(after.tables, level), WindowOf(after.meter, level);
            var shown, advance := IncrementSum(rows) + Increment(open), open.totalEnd - first;
            var fallen := FallSum(closed, rt) + Fall(open.totalStart, open.totalEnd);
            && (shown == advance <==> Unreported(closed, rt) == fallen)
            && (shown >= advance <==> Unreported(closed, rt) <= fallen)
            && (AllKept(closed) ==>
                  && shown >= advance
                  && (shown == advance <==> RowsNeverFall(rows) && open.totalEnd >= open.totalStart))
  {
    hide Keep, LaneAfter, Streamed, Rows, Unreported, IncrementSum, NeverFalls, RowsNeverFall, Increment, FallSum;
    var rt, first := RecordsTotal(e, level), WindowOf(lane.meter, level).totalEnd;
    var closed := Keep(c, level, first, xs, rt).closed;
    IncrementsTelescope(e, c, lane, xs, level);
    RunShowsBook(e, c, lane, xs, level);
    FallSumZero(closed, rt);
    if AllKept(closed) {
      KeptAllReported(closed, rt);
      RowsFallAsBooks(closed, rt);
    }
  }

  /** Totals that start at or above `first` and never fall. */
  predicate Rising(first: real, rs: seq<Reading>) {
    rs == [] || (Rising(first, rs[..|rs| - 1]) && EndTotal(first, rs[..|rs| - 1], true) <= rs[|rs| - 1].total)
  }

  lemma {:induction false} RisingNeverFalls(c: Clock, level: Level, first: real, xs: seq<Input>, recordsTotal: bool)
    requires Rising(first, Samples(c, xs))
    ensures var b := Keep(c, level, first, xs, recordsTotal);
            && NeverFalls(b.closed, recordsTotal)
            && EndTotal(b.start, b.open, recordsTotal) >= b.start
            && (recordsTotal ==> EndTotal(b.start, b.open, true) == EndTotal(first, Samples(c, xs), true))
  {
    if xs != [] {
      var front, x := xs[..|xs| - 1], xs[|xs| - 1];
      var now := ClockAfter(c, front);
      if Sample(now, x) == [] {
        assert Samples(c, xs) == Samples(c, front);
      } else {
        assert Samples(c, xs)[..|Samples(c, xs)| - 1] == Samples(c, front);
      }
      RisingNeverFalls(c, level, first, front, recordsTotal);
      RisingStep(Keep(c, level, first, front, recordsTotal), now, level, x, EndTotal(first, Samples(c, front), true),
                 recordsTotal);
    }
  }

  lemma RisingStep(b: Book, c: Clock, level: Level, x: Input, latest: real, recordsTotal: bool)
    requires NeverFalls(b.closed, recordsTotal) && EndTotal(b.start, b.open, recordsTotal) >= b.start
    requires recordsTotal ==> EndTotal(b.start, b.open, true) == latest
    requires Sample(c, x) != [] ==> latest <= Sample(c, x)[0].total
    ensures var d := Kept(b, c, level, x, recordsTotal);
            && NeverFalls(d.closed, recordsTotal)
            && EndTotal(d.start, d.open, recordsTotal) >= d.start
            && (recordsTotal ==> EndTotal(d.start, d.open, true) ==
                                 if Sample(c, x) == [] then latest else Sample(c, x)[0].total)
  {
    var more := b.open + Sample(c, x);
    assert Sample(c, x) == [] ==> more == b.open;
  }

  /** No window that closed while the meter was switched off saw its total advance. */
  predicate NoneLost(gs: seq<Group>) {
    forall i :: 0 <= i < |gs| && !gs[i].kept ==> EndTotal(gs[i].start, gs[i].readings, true) == gs[i].start
  }

  lemma {:induction false} UnreportedZero(gs: seq<Group>)
    requires StartsNonNegative(gs) && NeverFalls(gs, true)
    ensures Unreported(gs, true) >= 0.0
    ensures Unreported(gs, true) == 0.0 <==> NoneLost(gs)
  {
    hide EndTotal, Reported;
    if gs != [] {
      var front, g := gs[..|gs| - 1], gs[|gs| - 1];
      UnreportedZero(front);
      ReportedIs(g, true);
      assert forall i :: 0 <= i < |front| ==> front[i] == gs[i];
      assert NoneLost(gs) <==> NoneLost(front) && (!g.kept ==> EndTotal(g.start, g.readings, true) == g.start);
    }
  }

  /** While the meter counts upwards, the rows and the open window tell exactly its advance iff no
      window that closed while the meter was switched off saw it advance. */
  lemma RisingIncrementsExact(e: Edition, c: Clock, lane: Lane, xs: seq<Input>, level: Level)
    requires Initial(lane) && WindowOf(lane.meter, level).totalEnd >= 0.0 && TotalsNonNegative(Samples(c, xs))
    requires Rising(WindowOf(lane.meter, level).totalEnd, Samples(c, xs)) && RecordsTotal(e, level)
    ensures var first, after := WindowOf(lane.meter, level).totalEnd, LaneAfter(e, c, lane, xs);
            IncrementSum(TableOf(after.tables, level)) + Increment(WindowOf(after.meter, level)) ==
            EndTotal(first, Samples(c, xs), true) - first <==>
              NoneLost(Keep(c, level, first, xs, true).closed)
  {
    hide Keep, LaneAfter, Streamed, Rows, Unreported, IncrementSum, NeverFalls, Increment, Samples, Rising, FallSum;
    hide NoneLost;
    var first := WindowOf(lane.meter, level).totalEnd;
    var b := Keep(c, level, first, xs, true);
    IncrementsTelescope(e, c, lane, xs, level);
    RunShowsBook(e, c, lane, xs, level);
    BookTelescopes(c, level, first, xs, true);
    RisingNeverFalls(c, level, first, xs, true);
    UnreportedZero(b.closed);
    StreamedTotals(b.start, b.open, true);
  }

  lemma OneMoreReported(gs: seq<Group>, g: Group, recordsTotal: bool)
    ensures ReportedSum(gs + [g], recordsTotal) == ReportedSum(gs, recordsTotal) + Reported(g, recordsTotal)
    ensures FallSum(gs + [g], recordsTotal) ==
            FallSum(gs, recordsTotal) + Fall(g.start, EndTotal(g.start, g.readings, recordsTotal))
    ensures NeverFalls(gs + [g], recordsTotal) <==>
            NeverFalls(gs, recordsTotal) && EndTotal(g.start, g.readings, recordsTotal) >= g.start
  {
    hide Reported, EndTotal;
    var all := gs + [g];
    assert all[..|gs|] == gs;
    assert forall i :: 0 <= i < |gs| ==> all[i] == gs[i];
    assert all[|gs|] == g;
  }

  lemma TotalsParts(a: seq<Reading>, b: seq<Reading>)
    requires TotalsNonNegative(a + b)
    ensures TotalsNonNegative(a) && TotalsNonNegative(b)
  {
    assert forall i :: 0 <= i < |a| ==> a[i] == (a + b)[i];
    assert forall i :: 0 <= i < |b| ==> b[i] == (a + b)[|a| + i];
  }

  lemma TotalsJoin(a: seq<Reading>, b: seq<Reading>)
    requires TotalsNonNegative(a) && TotalsNonNegative(b)
    ensures TotalsNonNegative(a + b)
  {
  }

  /** As written the hour and day windows never learn a total: every row reports increment zero. */
  lemma AsWrittenIncrementsAreZero(c: Clock, lane: Lane, xs: seq<Input>, level: Level, i: nat)
    requires Initial(lane) && !level.Minute? && i < |TableOf(LaneAfter(AsWritten, c, lane, xs).tables, level)|
    ensures Increment(TableOf(LaneAfter(AsWritten, c, lane, xs).tables, level)[i].figures) == 0.0
  {
    hide Keep, LaneAfter, Streamed;
    RunShowsBook(AsWritten, c, lane, xs, level);
    RowsWithoutTotal(Keep(c, level, WindowOf(lane.meter, level).totalEnd, xs, false).closed);
  }

  lemma {:induction false} RowsWithoutTotal(gs: seq<Group>)
    ensures forall i :: 0 <= i < |Rows(gs, false)| ==> Increment(Rows(gs, false)[i].figures) == 0.0
  {
    hide Streamed;
    if gs != [] {
      var g := gs[|gs| - 1];
      RowsWithoutTotal(gs[..|gs| - 1]);
      StreamedTotals(g.start, g.readings, false);
    }
  }
}
