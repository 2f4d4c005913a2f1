/** The main loop of dataproc.c for one meter, as a step function over clock readings: when a
    reading is taken, when each window closes, and what the tables then hold. */
module Scheduler {
  import opened Editions
  import opened Windows

  datatype Level = Minute | Hour | Day

  /** What the loop sees of the shared parameter block in one iteration, for one meter. */
  datatype Para = Para(isValid: bool, flag: bool, rtd: real, total: real)

  /** One iteration: the time it runs at (seconds), the two configured intervals, the meter. */
  datatype Input = Input(now: nat, rtdInterval: nat, minInterval: nat, para: Para)

  /** old_sec, old_min_sec, old_hour_sec, old_day_sec. */
  datatype Clock = Clock(oldSec: nat, oldMin: nat, oldHour: nat, oldDay: nat)

  /** One element of the Meter array. */
  datatype Meter = Meter(flag: bool, rtd: real, total: real, minData: Window, hourData: Window, dayData: Window)

  /** A row: the label of the window and the figures it is printed from. */
  datatype Record = Record(stamp: nat, figures: Window)

  datatype Tables = Tables(mins: seq<Record>, hours: seq<Record>, days: seq<Record>)

  // ---- One iteration --------------------------------------------------------------------

  function Marker(c: Clock, level: Level): nat {
    match level case Minute => c.oldMin case Hour => c.oldHour case Day => c.oldDay
  }

  predicate Ticks(c: Clock, x: Input) {
    x.now > c.oldSec + x.rtdInterval
  }

  predicate Rolls(c: Clock, level: Level, x: Input) {
    match level
    case Minute => x.now > c.oldMin + x.minInterval
    case Hour => x.now / 3600 >= c.oldHour / 3600 + 1
    case Day => x.now / 86400 >= c.oldDay / 86400 + 1
  }

  function NextClock(c: Clock, x: Input): Clock {
    Clock(if Ticks(c, x) then x.now else c.oldSec,
          if Rolls(c, Minute, x) then x.now else c.oldMin,
          if Rolls(c, Hour, x) then x.now else c.oldHour,
          if Rolls(c, Day, x) then x.now else c.oldDay)
  }

  function WindowOf(m: Meter, level: Level): Window {
    match level case Minute => m.minData case Hour => m.hourData case Day => m.dayData
  }

  function WithWindow(m: Meter, level: Level, w: Window): Meter {
    match level
    case Minute => m.(minData := w)
    case Hour => m.(hourData := w)
    case Day => m.(dayData := w)
  }

  function TableOf(t: Tables, level: Level): seq<Record> {
    match level case Minute => t.mins case Hour => t.hours case Day => t.days
  }

  function WithTable(t: Tables, level: Level, rows: seq<Record>): Tables {
    match level
    case Minute => t.(mins := rows)
    case Hour => t.(hours := rows)
    case Day => t.(days := rows)
  }

  /** rtd_data_proc. */
  function Taken(m: Meter, p: Para): Meter {
    if p.isValid then m.(flag := p.flag, rtd := p.rtd, total := p.total) else m
  }

  /** Whether a level's accumulator records the meter total in its own window: as written the
      hour and day accumulators write the minute window's instead. */
  predicate RecordsTotal(e: Edition, level: Level) {
    e.Repaired? || level.Minute?
  }

  /** min_data_calc, hour_data_calc, day_data_calc. */
  function Calculated(e: Edition, level: Level, m: Meter, p: Para): Meter {
    if p.isValid && m.flag then
      var w := Accumulate(WindowOf(m, level), Reading(m.rtd, p.total), RecordsTotal(e, level));
      var n := WithWindow(m, level, w);
      if RecordsTotal(e, level) then n else n.(minData := n.minData.(totalEnd := p.total))
    else m
  }

  /** rtd_data_init. */
  function Cleared(m: Meter): Meter {
    m.(flag := false, rtd := 0.0, total := 0.0)
  }

  /** min_data_init, hour_data_init, day_data_init. */
  function Reset(level: Level, m: Meter): Meter {
    WithWindow(m, level, Fresh(WindowOf(m, level).totalEnd))
  }

  /** min_data_proc, hour_data_proc, day_data_proc. */
  function Filed(level: Level, m: Meter, t: Tables, p: Para, stamp: nat): Tables {
    if p.isValid then WithTable(t, level, TableOf(t, level) + [Record(stamp, WindowOf(m, level))]) else t
  }

  datatype Lane = Lane(meter: Meter, tables: Tables)

  function AfterTick(e: Edition, c: Clock, m: Meter, x: Input): Meter {
    if Ticks(c, x) then
      Cleared(Calculated(e, Day, Calculated(e, Hour, Calculated(e, Minute, Taken(m, x.para), x.para), x.para), x.para))
    else m
  }

  function AfterRoll(level: Level, c: Clock, lane: Lane, x: Input): Lane {
    if Rolls(c, level, x)
    then Lane(Reset(level, lane.meter), Filed(level, lane.meter, lane.tables, x.para, Marker(c, level)))
    else lane
  }

  /** The body of the loop in main. */
  function Step(e: Edition, c: Clock, lane: Lane, x: Input): Lane {
    var ticked := lane.(meter := AfterTick(e, c, lane.meter, x));
    AfterRoll(Day, c, AfterRoll(Hour, c, AfterRoll(Minute, c, ticked, x), x), x)
  }

  // ---- Runs -----------------------------------------------------------------------------

  function ClockAfter(c: Clock, xs: seq<Input>): Clock {
    if xs == [] then c else NextClock(ClockAfter(c, xs[..|xs| - 1]), xs[|xs| - 1])
  }

  function LaneAfter(e: Edition, c: Clock, lane: Lane, xs: seq<Input>): Lane {
    if xs == [] then lane
    else Step(e, ClockAfter(c, xs[..|xs| - 1]), LaneAfter(e, c, lane, xs[..|xs| - 1]), xs[|xs| - 1])
  }

  /** After meter_data_init: every window empty, wherever its totals start; no rows yet. */
  predicate Initial(lane: Lane) {
    && lane.meter.minData == Fresh(lane.meter.minData.totalEnd)
    && lane.meter.hourData == Fresh(lane.meter.hourData.totalEnd)
    && lane.meter.dayData == Fresh(lane.meter.dayData.totalEnd)
    && lane.tables == Tables([], [], [])
  }

  // ---- The readings behind the figures --------------------------------------------------

  /** The reading an iteration contributes, if any. */
  function Sample(c: Clock, x: Input): seq<Reading> {
    if Ticks(c, x) && x.para.isValid && x.para.flag then [Reading(x.para.rtd, x.para.total)] else []
  }

  function Samples(c: Clock, xs: seq<Input>): seq<Reading> {
    if xs == [] then [] else
    var front := xs[..|xs| - 1];
    Samples(c, front) + Sample(ClockAfter(c, front), xs[|xs| - 1])
  }

  /** A closed window: its label, whether a row was filed, its first total and its readings. */
  datatype Group = Group(stamp: nat, kept: bool, start: real, readings: seq<Reading>)

  /** All windows of one level: the closed ones and the one still open. */
  datatype Book = Book(closed: seq<Group>, start: real, open: seq<Reading>)

  function EndTotal(start: real, rs: seq<Reading>, recordsTotal: bool): real {
    if recordsTotal && rs != [] then rs[|rs| - 1].total else start
  }

  function Kept(b: Book, c: Clock, level: Level, x: Input, recordsTotal: bool): Book {
    var open := b.open + Sample(c, x);
    if Rolls(c, level, x)
    then Book(b.closed + [Group(Marker(c, level), x.para.isValid, b.start, open)],
              EndTotal(b.start, open, recordsTotal), [])
    else b.(open := open)
  }

  /** The book a level keeps over a run. */
  function Keep(c: Clock, level: Level, start: real, xs: seq<Input>, recordsTotal: bool): Book {
    if xs == [] then Book([], start, []) else
    var front := xs[..|xs| - 1];
    Kept(Keep(c, level, start, front, recordsTotal), ClockAfter(c, front), level, xs[|xs| - 1], recordsTotal)
  }

  function Rows(gs: seq<Group>, recordsTotal: bool): seq<Record> {
    if gs == [] then [] else
    var g := gs[|gs| - 1];
    Rows(gs[..|gs| - 1], recordsTotal)
    + if g.kept then [Record(g.stamp, Streamed(g.start, g.readings, recordsTotal))] else []
  }

  /** A level's window and table are those of its book. */
  ghost predicate Shows(lane: Lane, level: Level, b: Book, recordsTotal: bool) {
    && WindowOf(lane.meter, level) == Streamed(b.start, b.open, recordsTotal)
    && TableOf(lane.tables, level) == Rows(b.closed, recordsTotal)
  }

  /** A configured meter takes over what the parameter block says at that moment, flag, reading and
      total; an unconfigured one keeps what it had. Its windows are not touched. */
  lemma TakenIs(m: Meter, p: Para)
    ensures var n := Taken(m, p);
            && (p.isValid ==> n.flag == p.flag && n.rtd == p.rtd && n.total == p.total)
            && (!p.isValid ==> n.flag == m.flag && n.rtd == m.rtd && n.total == m.total)
            && n.minData == m.minData && n.hourData == m.hourData && n.dayData == m.dayData
  {
  }

  /** After a reading has been taken the meter's current reading is cleared. */
  lemma TickClears(e: Edition, c: Clock, m: Meter, x: Input)
    requires x.now > c.oldSec + x.rtdInterval
    ensures var n := AfterTick(e, c, m, x); !n.flag && n.rtd == 0.0 && n.total == 0.0
  {
  }

  lemma TickShows(e: Edition, c: Clock, m: Meter, x: Input, level: Level, start: real, open: seq<Reading>)
    requires WindowOf(m, level) == Streamed(start, open, RecordsTotal(e, level))
    ensures WindowOf(AfterTick(e, c, m, x), level) == Streamed(start, open + Sample(c, x), RecordsTotal(e, level))
  {
    hide Accumulate;
    var more := open + Sample(c, x);
    if Sample(c, x) == [] {
      assert more == open;
      TickIdle(e, c, m, x, level);
    } else {
      assert more[..|more| - 1] == open;
      TickTakes(e, c, m, x, level);
    }
  }

  lemma TickIdle(e: Edition, c: Clock, m: Meter, x: Input, level: Level)
    requires Sample(c, x) == []
    ensures WindowOf(AfterTick(e, c, m, x), level) == WindowOf(m, level)
  {
  }

  lemma TickTakes(e: Edition, c: Clock, m: Meter, x: Input, level: Level)
    requires Sample(c, x) != []
    ensures WindowOf(AfterTick(e, c, m, x), level) ==
            Accumulate(WindowOf(m, level), Reading(x.para.rtd, x.para.total), RecordsTotal(e, level))
  {
  }

  lemma RollOthers(level: Level, other: Level, c: Clock, lane: Lane, x: Input)
    requires level != other
    ensures WindowOf(AfterRoll(other, c, lane, x).meter, level) == WindowOf(lane.meter, level)
    ensures TableOf(AfterRoll(other, c, lane, x).tables, level) == TableOf(lane.tables, level)
  {
  }

  lemma RowsMore(gs: seq<Group>, g: Group, recordsTotal: bool)
    ensures Rows(gs + [g], recordsTotal) ==
            if g.kept then Rows(gs, recordsTotal) + [Record(g.stamp, Streamed(g.start, g.readings, recordsTotal))]
            else Rows(gs, recordsTotal)
  {
    hide Streamed;
    assert (gs + [g])[..|gs|] == gs;
    assert Rows(gs, recordsTotal) + [] == Rows(gs, recordsTotal);
  }

  lemma NothingStreamed(start: real, recordsTotal: bool)
    ensures Streamed(start, [], recordsTotal) == Fresh(start)
  {
  }

  lemma RollShows(level: Level, c: Clock, lane: Lane, x: Input, b: Book, recordsTotal: bool)
    requires WindowOf(lane.meter, level) == Streamed(b.start, b.open + Sample(c, x), recordsTotal)
    requires TableOf(lane.tables, level) == Rows(b.closed, recordsTotal)
    ensures Shows(AfterRoll(level, c, lane, x), level, Kept(b, c, level, x, recordsTotal), recordsTotal)
  {
    hide Streamed, Rows, Rolls, Sample;
    if Rolls(c, level, x) {
      var open := b.open + Sample(c, x);
      StreamedTotals(b.start, open, recordsTotal);
      NothingStreamed(EndTotal(b.start, open, recordsTotal), recordsTotal);
      RowsMore(b.closed, Group(Marker(c, level), x.para.isValid, b.start, open), recordsTotal);
    }
  }

  lemma StepShows(e: Edition, c: Clock, lane: Lane, x: Input, level: Level, b: Book)
    requires Shows(lane, level, b, RecordsTotal(e, level))
    ensures Shows(Step(e, c, lane, x), level, Kept(b, c, level, x, RecordsTotal(e, level)), RecordsTotal(e, level))
  {
    hide AfterTick, AfterRoll, Streamed, Rows, Kept;
    TickShows(e, c, lane.meter, x, level, b.start, b.open);
    var ticked := lane.(meter := AfterTick(e, c, lane.meter, x));
    var l1 := AfterRoll(Minute, c, ticked, x);
    var l2 := AfterRoll(Hour, c, l1, x);
    match level {
      case Minute =>
        RollShows(Minute, c, ticked, x, b, RecordsTotal(e, level));
        RollOthers(Minute, Hour, c, l1, x);
        RollOthers(Minute, Day, c, l2, x);
      case Hour =>
        RollOthers(Hour, Minute, c, ticked, x);
        RollShows(Hour, c, l1, x, b, RecordsTotal(e, level));
        RollOthers(Hour, Day, c, l2, x);
      case Day =>
        RollOthers(Day, Minute, c, ticked, x);
        RollOthers(Day, Hour, c, l1, x);
        RollShows(Day, c, l2, x, b, RecordsTotal(e, level));
    }
  }

  /** Over any run, at every level, the open window and the table are exactly what streaming the
      book's readings gives. */
  lemma {:induction false} RunShowsBook(e: Edition, c: Clock, lane: Lane, xs: seq<Input>, level: Level)
    requires Initial(lane)
    ensures Shows(LaneAfter(e, c, lane, xs), level,
                  Keep(c, level, WindowOf(lane.meter, level).totalEnd, xs, RecordsTotal(e, level)),
                    RecordsTotal(e, level))
  {
    hide Step, Kept, Accumulate;
    if xs != [] {
      var front := xs[..|xs| - 1];
      RunShowsBook(e, c, lane, front, level);
      StepShows(e, ClockAfter(c, front), LaneAfter(e, c, lane, front), xs[|xs| - 1], level,
                Keep(c, level, WindowOf(lane.meter, level).totalEnd, front, RecordsTotal(e, level)));
    }
  }
}
