/** dataproc.c as it runs: the Meter array and the tables, updated by loops over all meters. */
module DataProc {
  import opened Editions
  import opened Windows
  import opened Scheduler

  const METER_CNT := 32

  /** What one iteration of main reads: the time, the two intervals and every meter's parameters. */
  datatype Tick = Tick(now: nat, rtdInterval: nat, minInterval: nat, paras: seq<Para>)

  predicate ForAllMeters(x: Tick) {
    |x.paras| == METER_CNT
  }

  function InputOf(x: Tick, i: nat): Input
    requires i < |x.paras|
  {
    Input(x.now, x.rtdInterval, x.minInterval, x.paras[i])
  }

  predicate AllForAllMeters(xs: seq<Tick>) {
    forall k :: 0 <= k < |xs| ==> ForAllMeters(xs[k])
  }

  /** What a sequence of iterations means for one meter. */
  function InputsOf(xs: seq<Tick>, i: nat): (r: seq<Input>)
    requires i < METER_CNT && AllForAllMeters(xs)
    ensures |r| == |xs|
  {
    if xs == [] then [] else InputsOf(xs[..|xs| - 1], i) + [InputOf(xs[|xs| - 1], i)]
  }

  lemma OneMore(e: Edition, c: Clock, lane: Lane, xs: seq<Tick>, n: nat, i: nat)
    requires n < |xs| && i < METER_CNT && AllForAllMeters(xs)
    ensures var before, x := InputsOf(xs[..n], i), InputOf(xs[n], i);
            && ClockAfter(c, InputsOf(xs[..n + 1], i)) == NextClock(ClockAfter(c, before), x)
            && LaneAfter(e, c, lane, InputsOf(xs[..n + 1], i))
               == Step(e, ClockAfter(c, before), LaneAfter(e, c, lane, before), x)
  {
    hide Step, NextClock;
    assert xs[..n + 1][..n] == xs[..n];
    var all := InputsOf(xs[..n + 1], i);
    assert all[..n] == InputsOf(xs[..n], i);
  }

  lemma NoneYet(e: Edition, c: Clock, xs: seq<Tick>)
    ensures forall i: nat :: i < METER_CNT ==> InputsOf(xs[..0], i) == []
    ensures ClockAfter(c, []) == c
    ensures forall lane: Lane :: LaneAfter(e, c, lane, []) == lane
  {
    hide Step, NextClock;
    assert xs[..0] == [];
  }

  /** The loop body of the calc functions, figure by figure. */
  method Accrue(e: Edition, level: Level, meter: Meter, p: Para) returns (pMeter: Meter)
    ensures pMeter == Calculated(e, level, meter, p)
  {
    pMeter := meter;
    if p.isValid && pMeter.flag {
      var data := WindowOf(pMeter, level);
      data := data.(rtdMin := if data.rtdMin > pMeter.rtd || data.rtdMin < 0.0 then pMeter.rtd else data.rtdMin);
      data := data.(rtdMax := if data.rtdMax < pMeter.rtd then pMeter.rtd else data.rtdMax);
      data := data.(rtdSum := data.rtdSum + pMeter.rtd);
      data := data.(cnt := (data.cnt + 1) % 0x1_0000);
      pMeter := WithWindow(pMeter, level, data);
      var written := if RecordsTotal(e, level) then level else Minute;
      pMeter := WithWindow(pMeter, written, WindowOf(pMeter, written).(totalEnd := p.total));
    }
  }

  /** The loop body of the init functions, figure by figure. */
  method StartOver(level: Level, meter: Meter) returns (pMeter: Meter)
    ensures pMeter == Reset(level, meter)
  {
    var data := WindowOf(meter, level);
    data := data.(cnt := 0);
    data := data.(rtdMax := 0.0);
    data := data.(rtdMin := -1.0);
    data := data.(rtdSum := 0.0);
    data := data.(totalStart := data.totalEnd);
    pMeter := WithWindow(meter, level, data);
  }

  class Processor {
    const meters: array<Meter>
    const tables: array<Tables>
    var clock: Clock

    ghost predicate Valid()
      reads this
    {
      meters.Length == METER_CNT && tables.Length == METER_CNT
    }

    function LaneOf(i: nat): Lane
      requires Valid() && i < METER_CNT
      reads this, meters, tables
    {
      Lane(meters[i], tables[i])
    }

    /** The global array is zeroed, meter_data_init runs, and old_sec and old_min_sec take the
        first whole minute; the other two markers are indeterminate as written. */
    constructor (e: Edition, timestamp: nat, hourMarker: nat, dayMarker: nat)
      ensures Valid() && fresh(meters) && fresh(tables)
      ensures clock == Clock(timestamp, timestamp,
                             if e.AsWritten? then hourMarker else timestamp,
                             if e.AsWritten? then dayMarker else timestamp)
      ensures meters.Length == tables.Length == 32
      ensures forall i :: 0 <= i < 32 ==> Initial(LaneOf(i))
      ensures var empty := Window(0, 0.0, -1.0, 0.0, 0.0, 0.0);
              forall i :: 0 <= i < 32 ==> meters[i] == Meter(false, 0.0, 0.0, empty, empty, empty)
    {
      var zero := Window(0, 0.0, 0.0, 0.0, 0.0, 0.0);
      var ms := new Meter[METER_CNT](_ => Meter(false, 0.0, 0.0, zero, zero, zero));
      tables := new Tables[METER_CNT](_ => Tables([], [], []));
      meters := ms;
      clock := Clock(timestamp, timestamp,
                     if e.AsWritten? then hourMarker else timestamp, if e.AsWritten? then dayMarker else timestamp);
      new;
      RtdInit();
      DataInit(Minute);
      DataInit(Hour);
      DataInit(Day);
    }

    /** rtd_data_proc. */
    method RtdProc(x: Tick)
      requires Valid() && ForAllMeters(x)
      modifies meters
      ensures forall i :: 0 <= i < METER_CNT ==> meters[i] == Taken(old(meters[i]), x.paras[i])
    {
      var iLoop := 0;
      while iLoop < METER_CNT
        invariant 0 <= iLoop <= METER_CNT
        invariant forall i :: 0 <= i < iLoop ==> meters[i] == Taken(old(meters[i]), x.paras[i])
        invariant forall i :: iLoop <= i < METER_CNT ==> meters[i] == old(meters[i])
      {
        if x.paras[iLoop].isValid {
          var p := x.paras[iLoop];
          meters[iLoop] := meters[iLoop].(flag := p.flag, rtd := p.rtd, total := p.total);
        }
        iLoop := iLoop + 1;
      }
    }

    /** min_data_calc, hour_data_calc, day_data_calc. */
    method DataCalc(e: Edition, level: Level, x: Tick)
      requires Valid() && ForAllMeters(x)
      modifies meters
      ensures forall i :: 0 <= i < METER_CNT ==> meters[i] == Calculated(e, level, old(meters[i]), x.paras[i])
    {
      hide Calculated;
      var iLoop := 0;
      while iLoop < METER_CNT
        invariant 0 <= iLoop <= METER_CNT
        invariant forall i :: 0 <= i < iLoop ==> meters[i] == Calculated(e, level, old(meters[i]), x.paras[i])
        invariant forall i :: iLoop <= i < METER_CNT ==> meters[i] == old(meters[i])
      {
        var pMeter := Accrue(e, level, meters[iLoop], x.paras[iLoop]);
        meters[iLoop] := pMeter;
        iLoop := iLoop + 1;
      }
    }

    /** rtd_data_init. */
    method RtdInit()
      requires Valid()
      modifies meters
      ensures forall i :: 0 <= i < METER_CNT ==> meters[i] == Cleared(old(meters[i]))
    {
      var iLoop := 0;
      while iLoop < METER_CNT
        invariant 0 <= iLoop <= METER_CNT
        invariant forall i :: 0 <= i < iLoop ==> meters[i] == Cleared(old(meters[i]))
        invariant forall i :: iLoop <= i < METER_CNT ==> meters[i] == old(meters[i])
      {
        meters[iLoop] := meters[iLoop].(flag := false, rtd := 0.0, total := 0.0);
        iLoop := iLoop + 1;
      }
    }

    /** min_data_init, hour_data_init, day_data_init. */
    method DataInit(level: Level)
      requires Valid()
      modifies meters
      ensures forall i :: 0 <= i < METER_CNT ==> meters[i] == Reset(level, old(meters[i]))
    {
      hide Reset;
      var iLoop := 0;
      while iLoop < METER_CNT
        invariant 0 <= iLoop <= METER_CNT
        invariant forall i :: 0 <= i < iLoop ==> meters[i] == Reset(level, old(meters[i]))
        invariant forall i :: iLoop <= i < METER_CNT ==> meters[i] == old(meters[i])
      {
        var pMeter := StartOver(level, meters[iLoop]);
        meters[iLoop] := pMeter;
        iLoop := iLoop + 1;
      }
    }

    /** min_data_proc, hour_data_proc, day_data_proc. */
    method DataFile(level: Level, x: Tick, stamp: nat)
      requires Valid() && ForAllMeters(x)
      modifies tables
      ensures forall i :: 0 <= i < METER_CNT ==> tables[i] == Filed(level, meters[i], old(tables[i]), x.paras[i], stamp)
    {
      var iLoop := 0;
      while iLoop < METER_CNT
        invariant 0 <= iLoop <= METER_CNT
        invariant forall i :: 0 <= i < iLoop ==> tables[i] == Filed(level, meters[i], old(tables[i]), x.paras[i], stamp)
        invariant forall i :: iLoop <= i < METER_CNT ==> tables[i] == old(tables[i])
      {
        if x.paras[iLoop].isValid {
          var rows := TableOf(tables[iLoop], level) + [Record(stamp, WindowOf(meters[iLoop], level))];
          tables[iLoop] := WithTable(tables[iLoop], level, rows);
        }
        iLoop := iLoop + 1;
      }
    }

    /** The body of the loop in main. */
    method Iterate(e: Edition, x: Tick)
      requires Valid() && ForAllMeters(x)
      modifies this`clock, meters, tables
      ensures forall i :: 0 <= i < METER_CNT ==> LaneOf(i) == Step(e, old(clock), old(LaneOf(i)), InputOf(x, i))
      ensures forall i :: 0 <= i < METER_CNT ==> clock == NextClock(old(clock), InputOf(x, i))
    {
      hide Taken, Calculated, Reset, Filed, Cleared;
      if x.now > clock.oldSec + x.rtdInterval {
        RtdProc(x);
        DataCalc(e, Minute, x);
        DataCalc(e, Hour, x);
        DataCalc(e, Day, x);
        RtdInit();
        clock := clock.(oldSec := x.now);
      }
      if x.now > clock.oldMin + x.minInterval {
        DataFile(Minute, x, clock.oldMin);
        DataInit(Minute);
        clock := clock.(oldMin := x.now);
      }
      if x.now / 3600 >= clock.oldHour / 3600 + 1 {
        DataFile(Hour, x, clock.oldHour);
        DataInit(Hour);
        clock := clock.(oldHour := x.now);
      }
      if x.now / 86400 >= clock.oldDay / 86400 + 1 {
        DataFile(Day, x, clock.oldDay);
        DataInit(Day);
        clock := clock.(oldDay := x.now);
      }
    }

    /** The endless loop of main, run over as many iterations as there are clock readings. */
    method Run(e: Edition, xs: seq<Tick>)
      requires Valid() && AllForAllMeters(xs)
      modifies this`clock, meters, tables
      ensures forall i :: 0 <= i < METER_CNT ==>
                && LaneOf(i) == LaneAfter(e, old(clock), old(LaneOf(i)), InputsOf(xs, i))
                && clock == ClockAfter(old(clock), InputsOf(xs, i))
    {
      hide Step, NextClock, LaneAfter, ClockAfter, InputsOf;
      NoneYet(e, clock, xs);
      var n := 0;
      while n < |xs|
        invariant 0 <= n <= |xs|
        invariant forall i :: 0 <= i < METER_CNT ==>
                    && LaneOf(i) == LaneAfter(e, old(clock), old(LaneOf(i)), InputsOf(xs[..n], i))
                    && clock == ClockAfter(old(clock), InputsOf(xs[..n], i))
      {
        label Before:
        Iterate(e, xs[n]);
        forall i | 0 <= i < METER_CNT
          ensures LaneOf(i) == LaneAfter(e, old(clock), old(LaneOf(i)), InputsOf(xs[..n + 1], i))
                  && clock == ClockAfter(old(clock), InputsOf(xs[..n + 1], i))
        {
          assert old@Before(LaneOf(i)) == LaneAfter(e, old(clock), old(LaneOf(i)), InputsOf(xs[..n], i));
          OneMore(e, old(clock), old(LaneOf(i)), xs, n, i);
        }
        n := n + 1;
      }
      assert xs[..n] == xs;
    }
  }
}
